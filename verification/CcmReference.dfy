/** src/crypto/gladman/test.c: the straight-line form of CCM for two-octet
    lengths, and its agreement with the in-place form. */
module CcmReference {
  import opened Bytes
  import opened CcmSpec
  import Bits
  import Ccm

  const MAX_PACKET: nat := 1536
  const A_DATA: nat := 0x40

  /** The authentication field size the flags octet announces. */
  function Announced(mic: nat): (M: nat)
    requires 1 <= mic <= 16
    ensures 2 <= M <= 16 && M % 2 == 0
    ensures mic % 2 == 0 ==> M == mic
  {
    if mic == 1 then 2 else mic - mic % 2
  }

  /** The encrypted authentication value before truncation. */
  function WholeTag(p: Params, a: seq<byte>, m: seq<byte>): Block
    requires p.Valid()
  {
    Xor(Cbc(p.E, p.AfterAuth(a, |m|), Pad(m)), p.E(p.Counter(0)))
  }

  /** Truncated to the announced size it is the authentication field of
      section 2.3 of RFC 3610. */
  lemma WholeTagTruncated(p: Params, a: seq<byte>, m: seq<byte>)
    requires p.Valid()
    ensures WholeTag(p, a, m)[..p.M] == p.Tag(a, m)
  {
    hide Cbc, BigEndian, Params.AfterAuth, Pad, Xor8;
  }

  // ---------------------------------------------------------------------
  // The authentication pass: one walk over header and message

  /** The CBC block before octet `i` of header and message. */
  ghost function MacState(p: Params, a: seq<byte>, m: seq<byte>, i: nat): Block
    requires p.Valid() && i <= |a| + |m|
  {
    if i < |a| then Running(p.E, p.E(p.FirstBlock(true, |m|)), p.AuthStream(a), 2 + i)
    else if i < |a| + |m| then Running(p.E, p.AfterAuth(a, |m|), m, i - |a|)
    else Cbc(p.E, p.AfterAuth(a, |m|), Pad(m))
  }

  /** The position in that block. */
  ghost function MacOffset(a: seq<byte>, m: seq<byte>, i: nat): nat {
    if i < |a| then (2 + i) % 16 else if i < |a| + |m| then (i - |a|) % 16 else 0
  }

  lemma MacBegins(p: Params, a: seq<byte>, m: seq<byte>)
    requires p.Valid() && |a| < 65536
    ensures var x := p.E(p.FirstBlock(a != [], |m|));
      MacState(p, a, m, 0) ==
        if a == [] then x
        else x[0 := Xor8(x[0], |a| / 256 % 256)][1 := Xor8(x[1], |a| % 256)]
  {
    hide Cbc, Running, Xor8, BigEndian, Params.FirstBlock;
    var x := p.E(p.FirstBlock(a != [], |m|));
    if a == [] {
      Ccm.NothingToAuth(p.E, x);
      RunningStart(p.E, x, m);
    } else {
      var s := p.AuthStream(a);
      Ccm.AuthLength(a);
      RunningStart(p.E, x, s);
      RunningStep(p.E, x, s, 0, 0);
      RunningStep(p.E, x, s, 0, 1);
    }
  }

  /** Octet `i` of header and message: a block that is full, or at the end of
      the header or of the message, is enciphered. */
  lemma MacStep(p: Params, a: seq<byte>, m: seq<byte>, i: nat)
    requires p.Valid() && i < |a| + |m|
    ensures var j := MacOffset(a, m, i); var x := MacState(p, a, m, i);
      var x' := x[j := Xor8(x[j], (a + m)[i])];
      var cut := j == 15 || i == |a| - 1 || i == |a| + |m| - 1;
      && MacState(p, a, m, i + 1) == (if cut then p.E(x') else x')
      && MacOffset(a, m, i + 1) == (if cut then 0 else j + 1)
  {
    hide Cbc, Running, Xor8, BigEndian, Params.FirstBlock, Params.AfterAuth, Pad;
    if i < |a| { HeaderStep(p, a, m, i); } else { MessageStep(p, a, m, i); }
  }

  lemma MessageStep(p: Params, a: seq<byte>, m: seq<byte>, i: nat)
    requires p.Valid() && |a| <= i < |a| + |m|
    ensures var j := (i - |a|) % 16; var x := MacState(p, a, m, i);
      var x' := x[j := Xor8(x[j], m[i - |a|])];
      && MacState(p, a, m, i + 1) == (if j == 15 || i == |a| + |m| - 1 then p.E(x') else x')
      && (j < 15 ==> (i + 1 - |a|) % 16 == j + 1) && (j == 15 ==> (i + 1 - |a|) % 16 == 0)
  {
    hide Cbc, Running, Xor8, BigEndian, Params.FirstBlock, Params.AfterAuth, Pad;
    var k := i - |a|;
    var b := k % 16;
    RunningStep(p.E, p.AfterAuth(a, |m|), m, k - b, b);
    RunningFinish(p.E, p.AfterAuth(a, |m|), m);
  }

  lemma HeaderStep(p: Params, a: seq<byte>, m: seq<byte>, i: nat)
    requires p.Valid() && i < |a|
    ensures var j := (2 + i) % 16; var x := MacState(p, a, m, i);
      var x' := x[j := Xor8(x[j], a[i])];
      && MacState(p, a, m, i + 1) == (if j == 15 || i == |a| - 1 then p.E(x') else x')
      && (j < 15 ==> (3 + i) % 16 == j + 1) && (j == 15 ==> (3 + i) % 16 == 0)
  {
    hide Cbc, Running, Xor8, BigEndian, Params.FirstBlock, Pad;
    var x0 := p.E(p.FirstBlock(true, |m|));
    var s := p.AuthStream(a);
    var k := 2 + i;
    var b := k % 16;
    assert s[k] == a[i];
    RunningStep(p.E, x0, s, k - b, b);
    if i == |a| - 1 {
      RunningFinish(p.E, x0, s);
      HeaderDone(p, a, m);
    }
  }

  /** After the header the message starts on a fresh block. */
  lemma HeaderDone(p: Params, a: seq<byte>, m: seq<byte>)
    requires p.Valid()
    ensures MacState(p, a, m, |a|) == p.AfterAuth(a, |m|)
  {
    hide Running, Params.AfterAuth;
    if m == [] {
      Ccm.NothingToAuth(p.E, p.AfterAuth(a, 0));
    } else {
      RunningStart(p.E, p.AfterAuth(a, |m|), m);
    }
  }

  // ---------------------------------------------------------------------
  // The packet

  class Packet {
    var encrypted: bool
    const TA: seq<byte>
    const micLength: nat
    const clrCount: nat
    const pktNum0: nat
    const pktNum1: nat
    var length: nat
    const data: array<byte>

    constructor (ta: seq<byte>, mic: nat, clr: nat, num0: nat, num1: nat, len: nat, contents: array<byte>)
      ensures !encrypted && TA == ta && micLength == mic && clrCount == clr && pktNum0 == num0 && pktNum1 == num1
      ensures length == len && data == contents
    {
      encrypted, TA, micLength, clrCount, pktNum0, pktNum1, length, data := false, ta, mic, clr, num0, num1, len,
        contents;
    }

    /** The struct's layout and the assertions at the head of the function. */
    predicate Fits()
      reads this
    {
      && |TA| == 6 && data.Length == MAX_PACKET + 32
      && clrCount <= length <= MAX_PACKET && 1 <= micLength <= 16
    }

    /** Reserved octet, 48-bit packet number, transmitter address. */
    ghost function Nonce(): (n: seq<byte>)
      requires |TA| == 6
      ensures |n| == 13
    {
      [0] + BigEndian(pktNum1, 2) + BigEndian(pktNum0, 4) + TA
    }

    ghost function Parameters(E: Cipher): (p: Params)
      requires |TA| == 6 && 1 <= micLength <= 16
      ensures p.Valid()
    {
      Params(E, Nonce(), 2, Announced(micLength))
    }

    /** The first block (src/crypto/gladman/test.c:188-207). */
    method FirstVector(m: array<byte>, ghost E: Cipher)
      requires Fits() && m.Length == 16
      modifies m
      ensures m[..] == Parameters(E).FirstBlock(clrCount > 0, length - clrCount)
    {
      hide BigEndian;
      var len := length - clrCount;
      var mic := if micLength == 1 then 0 else (micLength - 2) / 2;
      assert mic == (Announced(micLength) - 2) / 2;
      m[0] := 1 + (if clrCount > 0 then A_DATA else 0) + mic * 8;
      PutNumber(m);
      ghost var v1 := m[..];
      PutAddress(m);
      ghost var v2 := m[..];
      PutLength(m, len);
      ghost var v3 := m[..];
      hide *;
      PartsKept(v1, v2, v3);
      VectorBlock(v3, pktNum1, pktNum0, TA, len, clrCount > 0, Parameters(E)) by { MakeUp(E); }
    }

    lemma MakeUp(E: Cipher)
      requires |TA| == 6 && 1 <= micLength <= 16
      ensures var p := Parameters(E);
        && p.L == 2 && p.M == Announced(micLength)
        && p.nonce == [0] + BigEndian(pktNum1, 2) + BigEndian(pktNum0, 4) + TA
    {
    }

    /** The reserved octet and the packet number. */
    method PutNumber(m: array<byte>)
      requires m.Length == 16
      modifies m
      ensures m[0] == old(m[0]) && m[1..4] == [0] + BigEndian(pktNum1, 2) && m[4..8] == BigEndian(pktNum0, 4)
    {
      hide BigEndian;
      m[1] := 0;
      m[2], m[3] := pktNum1 / 256 % 256, pktNum1 % 256;
      m[4], m[5] := pktNum0 / 0x100_0000 % 256, pktNum0 / 0x1_0000 % 256;
      m[6], m[7] := pktNum0 / 256 % 256, pktNum0 % 256;
      Ccm.EncodeSmall(pktNum1);
      Ccm.EncodeSmall(pktNum0);
    }

    /** The transmitter address. */
    method PutAddress(m: array<byte>)
      requires m.Length == 16 && |TA| == 6
      modifies m
      ensures m[..8] == old(m[..8]) && m[8..14] == TA
    {
      m[8], m[9], m[10] := TA[0], TA[1], TA[2];
      m[11], m[12], m[13] := TA[3], TA[4], TA[5];
    }

    method PutLength(m: array<byte>, len: nat)
      requires m.Length == 16
      modifies m
      ensures m[..14] == old(m[..14]) && m[14..] == BigEndian(len, 2)
    {
      hide BigEndian;
      m[14], m[15] := len / 256 % 256, len % 256;
      Ccm.EncodeSmall(len);
    }

    /** The authentication pass (src/crypto/gladman/test.c:214-238). */
    method CbcMac(E: Cipher, x: array<byte>)
      requires Fits() && x.Length == 16 && x != data
      requires x[..] == E(Parameters(E).FirstBlock(clrCount > 0, length - clrCount))
      modifies x
      ensures var p, a, m := Parameters(E), data[..clrCount], data[clrCount..length];
              x[..] == Cbc(E, p.AfterAuth(a, |m|), Pad(m))
    {
      hide Cbc, Params.AfterAuth, Params.FirstBlock, Xor8, Pad, MacState, Nonce, BigEndian;
      ghost var p, a, m := Parameters(E), data[..clrCount], data[clrCount..length];
      var j := 0;
      MacBegins(p, a, m);
      if clrCount > 0 {
        x[0] := Xor8(x[0], clrCount / 256 % 256);
        x[1] := Xor8(x[1], clrCount % 256);
        j := 2;
      }
      var i := 0;
      while i < length
        invariant 0 <= i <= length && j == MacOffset(a, m, i)
        invariant x[..] == MacState(p, a, m, i)
      {
        ghost var was := x[..];
        MacStep(p, a, m, i);
        assert (a + m)[i] == data[i];
        x[j] := Xor8(x[j], data[i]);
        assert x[..] == was[j := Xor8(was[j], data[i])];
        j := j + 1;
        if j == 16 || i == clrCount - 1 || i == length - 1 {
          Ccm.StoreBlock(x, E(x[..]));
          j := 0;
        }
        i := i + 1;
      }
      MacEnds(p, a, m);
    }

    /** The next key stream block (src/crypto/gladman/test.c:248-253). */
    method NextKey(E: Cipher, m: array<byte>, x: array<byte>, blkNum: nat)
      requires |TA| == 6 && 1 <= micLength <= 16 && m.Length == 16 && x.Length == 16 && m != x
      requires m[..14] == [1] + Nonce() && blkNum < 65536
      modifies m, x
      ensures m[..14] == old(m[..14]) && x[..] == E(Parameters(E).Counter(blkNum))
    {
      hide Params.Counter, Nonce;
      m[14] := blkNum / 256;
      m[15] := blkNum % 256;
      CounterBlock(Parameters(E), m[..], blkNum);
      Ccm.StoreBlock(x, E(m[..]));
    }

    /** The key stream octet is merged in (src/crypto/gladman/test.c:261). */
    method Merge(i: nat, x: array<byte>, ghost p: Params, ghost header: seq<byte>, ghost from: seq<byte>,
                 ghost msg: seq<byte>)
      requires p.Valid() && x.Length == 16 && x != data && i < |msg| <= |from| && from[..|msg|] == msg
      requires |header| == clrCount && data.Length == clrCount + |from|
      requires x[..] == p.E(p.Counter(1 + (i - i % 16) / 16))
      requires data[..clrCount] == header && Ccm.Part(data[clrCount..], from, p.Crypt(msg), i)
      modifies data
      ensures data[..clrCount] == header && Ccm.Part(data[clrCount..], from, p.Crypt(msg), i + 1)
    {
      hide Params.Crypt, Params.KeyOctet, Params.Counter, Xor8, Ccm.Part;
      Ccm.KeyAt(p, i, i % 16);
      Ccm.CryptAt(p, msg, i);
      Ccm.PartStep(data[clrCount..], from, p.Crypt(msg), i, msg);
      ghost var was := data[clrCount..];
      var k := i + clrCount;
      data[k] := Xor8(data[k], x[i % 16]);
      assert data[clrCount..] == was[i := p.Crypt(msg)[i]];
      assert data[..clrCount] == header;
    }

    /** The encryption pass (src/crypto/gladman/test.c:246-262). */
    method Ctr(E: Cipher, m: array<byte>, x: array<byte>)
      requires Fits() && m.Length == 16 && x.Length == 16 && x != data && m != data && m != x
      requires m[..14] == [1] + Nonce()
      modifies m, x, data
      ensures m[..14] == old(m[..14])
      ensures data[..] == old(data[..clrCount]) + Parameters(E).Crypt(old(data[clrCount..length])) + old(data[length..])
    {
      hide Params.Crypt, Params.Counter, Nonce;
      ghost var p, msg := Parameters(E), data[clrCount..length];
      ghost var from := data[clrCount..];
      ghost var header := data[..clrCount];
      var i, blkNum := 0, 0;
      assert from[..|msg|] == msg;
      while i + clrCount < length
        invariant 0 <= i <= |msg| && blkNum == (i + 15) / 16 && m[..14] == old(m[..14])
        invariant i % 16 != 0 ==> x[..] == E(p.Counter(blkNum))
        invariant data[..clrCount] == header && Ccm.Part(data[clrCount..], from, p.Crypt(msg), i)
      {
        if i % 16 == 0 {
          blkNum := blkNum + 1;
          NextKey(E, m, x, blkNum);
        }
        assert blkNum == 1 + (i - i % 16) / 16;
        Merge(i, x, p, header, from, msg);
        i := i + 1;
      }
      MergedAll(data[..], clrCount, header, from, p.Crypt(msg));
      assert from[|msg|..] == old(data[length..]);
    }

    /** Generate_CTR_CBC_Vector: header, ciphertext and encrypted tag of RFC 3610. */
    method Generate(E: Cipher)
      requires Fits()
      modifies this`length, this`encrypted, data
      ensures encrypted && length == old(length) + micLength
      ensures var p, a, m := Parameters(E), old(data[..clrCount]), old(data[clrCount..length]);
        && data[..] == a + p.Crypt(m) + WholeTag(p, a, m)[..micLength] + old(data[length + micLength..])
        && (micLength % 2 == 0 ==> data[..length] == a + p.Seal(a, m))
    {
      hide Params.Crypt, WholeTag, Cbc, Params.AfterAuth, Pad, Nonce, BigEndian, Xor8, Params.Tag, Params.Counter;
      hide Params.FirstBlock;
      ghost var p, a, msg := Parameters(E), data[..clrCount], data[clrCount..length];
      ghost var rest := data[length..];
      var m, x, t := new byte[16], new byte[16], new byte[16];
      Authenticate(E, m, x);
      Ccm.StoreBlock(t, x[..]);
      Ctr(E, m, x);
      NextKey(E, m, x, 0);
      ghost var c := a + p.Crypt(msg);
      TagOctets(p, a, msg, t[..], x[..]);
      AppendTag(t, x, c, rest, WholeTag(p, a, msg));
      length := length + micLength;
      encrypted := true;
      SealedPacket(p, a, msg, micLength, rest, data[..]);
    }

    /** The authentication value in `x`; `m` ready for counter mode
        (src/crypto/gladman/test.c:188-244). */
    method Authenticate(E: Cipher, m: array<byte>, x: array<byte>)
      requires Fits() && m.Length == 16 && x.Length == 16 && m != x && m != data && x != data
      modifies m, x
      ensures m[..14] == [1] + Nonce()
      ensures var p, a, msg := Parameters(E), data[..clrCount], data[clrCount..length];
              x[..] == Cbc(E, p.AfterAuth(a, |msg|), Pad(msg))
    {
      hide Cbc, Params.AfterAuth, Pad, Nonce, BigEndian;
      ghost var p := Parameters(E);
      FirstVector(m, E);
      ghost var first := m[..];
      Ccm.StoreBlock(x, E(m[..]));
      CbcMac(E, x);
      ClearFlags(p.M, clrCount > 0);
      m[0] := Bits.And(m[0], 0x87);
      assert first[1..14] == Nonce();
      assert m[..14] == [1] + first[1..14];
    }

    /** The encrypted tag is appended (src/crypto/gladman/test.c:271-272). */
    method AppendTag(t: array<byte>, x: array<byte>, ghost c: seq<byte>, ghost rest: seq<byte>, ghost tag: Block)
      requires Fits() && t.Length == 16 && x.Length == 16 && t != data && x != data
      requires |c| == length && data[..] == c + rest
      requires forall i :: 0 <= i < 16 ==> tag[i] == Xor8(t[i], x[i])
      modifies data
      ensures data[..] == c + tag[..micLength] + rest[micLength..]
    {
      hide Xor8;
      for i := 0 to micLength
        invariant data[..] == c + tag[..i] + rest[i..]
      {
        ghost var was := data[..];
        data[length + i] := Xor8(t[i], x[i]);
        assert data[..] == was[|c| + i := tag[i]];
        assert data[..] == c + tag[..i + 1] + rest[i + 1..];
      }
    }
  }

  lemma PartsKept(v1: seq<byte>, v2: seq<byte>, v3: seq<byte>)
    requires |v1| == |v2| == |v3| == 16 && v2[..8] == v1[..8] && v3[..14] == v2[..14]
    ensures v3[0] == v1[0] && v3[1..4] == v1[1..4] && v3[4..8] == v1[4..8] && v3[8..14] == v2[8..14]
  {
    assert v1[1..4] == v1[..8][1..4] && v1[4..8] == v1[..8][4..8] && v1[0] == v1[..8][0];
    assert v2[1..4] == v2[..14][1..4] && v2[4..8] == v2[..14][4..8];
    assert v2[8..14] == v2[..14][8..14] && v2[0] == v2[..14][0];
    assert v3[1..4] == v3[..14][1..4] && v3[4..8] == v3[..14][4..8];
    assert v3[8..14] == v3[..14][8..14] && v3[0] == v3[..14][0];
    assert v2[1..4] == v2[..8][1..4] && v2[4..8] == v2[..8][4..8] && v2[0] == v2[..8][0];
  }

  lemma VectorBlock(m: seq<byte>, hi: nat, lo: nat, ta: seq<byte>, len: nat, adata: bool, p: Params)
    requires |m| == 16 && |ta| == 6 && p.Valid() && p.L == 2
    requires m[0] == 1 + (if adata then A_DATA else 0) + (p.M - 2) / 2 * 8
    requires m[1..4] == [0] + BigEndian(hi, 2) && m[4..8] == BigEndian(lo, 4) && m[8..14] == ta
    requires m[14..] == BigEndian(len, 2) && p.nonce == [0] + BigEndian(hi, 2) + BigEndian(lo, 4) + ta
    ensures m == p.FirstBlock(adata, len)
  {
    hide BigEndian;
    assert m == [m[0]] + (m[1..4] + m[4..8] + m[8..14]) + m[14..];
  }

  lemma SealedPacket(p: Params, a: seq<byte>, m: seq<byte>, mic: nat, rest: seq<byte>, data: seq<byte>)
    requires p.Valid() && mic <= 16 && mic <= |rest|
    requires data == a + p.Crypt(m) + WholeTag(p, a, m)[..mic] + rest[mic..]
    ensures mic == p.M ==> |a| + |m| + mic <= |data| && data[..|a| + |m| + mic] == a + p.Seal(a, m)
  {
    hide Params.Crypt, WholeTag, Params.Tag;
    WholeTagTruncated(p, a, m);
  }

  lemma MergedAll(data: seq<byte>, clr: nat, header: seq<byte>, from: seq<byte>, to: seq<byte>)
    requires clr <= |data| && data[..clr] == header && Ccm.Part(data[clr..], from, to, |to|)
    ensures data == header + to + from[|to|..]
  {
    assert data == data[..clr] + data[clr..];
    assert to[..|to|] == to;
  }

  lemma TagOctets(p: Params, a: seq<byte>, m: seq<byte>, t: seq<byte>, x: seq<byte>)
    requires p.Valid() && t == Cbc(p.E, p.AfterAuth(a, |m|), Pad(m)) && x == p.E(p.Counter(0))
    ensures |t| == 16 && |x| == 16 && forall i :: 0 <= i < 16 ==> WholeTag(p, a, m)[i] == Xor8(t[i], x[i])
  {
    hide Cbc, Params.AfterAuth, Pad, Xor8;
  }

  lemma MacEnds(p: Params, a: seq<byte>, m: seq<byte>)
    requires p.Valid()
    ensures MacState(p, a, m, |a| + |m|) == Cbc(p.E, p.AfterAuth(a, |m|), Pad(m))
  {
  }

  lemma CounterBlock(p: Params, m: seq<byte>, n: nat)
    requires p.Valid() && p.L == 2 && |m| == 16 && n < 65536
    requires m[..14] == [1] + p.nonce && m[14] == n / 256 && m[15] == n % 256
    ensures p.Counter(n) == m
  {
    hide BigEndian;
    Ccm.EncodeSmall(n);
    assert m == m[..14] + [m[14], m[15]];
  }

  /** `&= ~(A_DATA | 7 << 3)` leaves only the size of the length field. */
  lemma ClearFlags(M: nat, adata: bool)
    requires 2 <= M <= 16 && M % 2 == 0
    ensures Bits.And((if adata then 64 else 0) + 8 * ((M - 2) / 2) + 1, 0x87) == 1
  {
    hide Bits.And;
    var k := (if adata then 8 else 0) + (M - 2) / 2;
    assert Bits.Pow2(3) == 8 && Bits.Pow2(4) == 16;
    Bits.AndSplit(1, 7, k, 16, 3);
    Bits.AndSplit(k, 0, 0, 1, 4);
    Bits.AndZero(k);
    Bits.AndZero(1);
    OneAndSeven();
  }

  lemma OneAndSeven()
    ensures Bits.And(1, 7) == 1
  {
    assert Bits.And(0, 3) == 0;
  }

  /** Both implementations seal a packet alike: the in-place form, given the
      message part of the same packet, leaves exactly what the straight-line
      form leaves behind the header. */
  method BothForms(keyed: seq<byte> -> Cipher, key: seq<byte>, p: Packet, msg: array<byte>, aligned: bool, little: bool)
    returns (r: int)
    requires p.Fits() && p.micLength % 2 == 0 && (|key| == 16 || |key| == 24 || |key| == 32)
    requires msg != p.data && msg.Length == p.length - p.clrCount + p.micLength
    requires msg[..p.length - p.clrCount] == p.data[p.clrCount..p.length]
    modifies p`length, p`encrypted, p.data, msg
    ensures p.data[..p.clrCount] == old(p.data[..p.clrCount])
    ensures r == msg.Length && p.clrCount <= p.length <= p.data.Length && msg[..] == p.data[p.clrCount..p.length]
  {
    hide Params.Seal, Packet.Nonce;
    ghost var a, m := p.data[..p.clrCount], p.data[p.clrCount..p.length];
    ghost var q := p.Parameters(keyed(key));
    r := InPlace(keyed, key, p, msg, aligned, little);
    Ccm.SealLength(q, a, m);
    p.Generate(keyed(key));
    BehindHeader(p.data[..], a, q.Seal(a, m), p.clrCount, p.length);
  }

  method InPlace(keyed: seq<byte> -> Cipher, key: seq<byte>, p: Packet, msg: array<byte>, aligned: bool, little: bool)
    returns (r: int)
    requires p.Fits() && p.micLength % 2 == 0 && (|key| == 16 || |key| == 24 || |key| == 32)
    requires msg != p.data && msg.Length == p.length - p.clrCount + p.micLength
    requires msg[..p.length - p.clrCount] == p.data[p.clrCount..p.length]
    modifies msg
    ensures r == msg.Length
    ensures msg[..] == p.Parameters(keyed(key)).Seal(p.data[..p.clrCount], p.data[p.clrCount..p.length])
  {
    hide Params.Seal, Params.Open, Packet.Nonce;
    var n := p.length - p.clrCount;
    var nonce := MakeNonce(p);
    assert nonce[..13] == nonce;
    r := Ccm.CcmMode(keyed, key, nonce, p.data[..p.clrCount], msg, n, p.micLength, false, aligned, little);
  }

  lemma BehindHeader(data: seq<byte>, a: seq<byte>, c: seq<byte>, clr: nat, length: nat)
    requires length <= |data| && data[..length] == a + c && |a| == clr && |a| + |c| == length
    ensures data[..clr] == a && data[clr..length] == c
  {
    assert data[..clr] == data[..length][..clr];
    assert data[clr..length] == data[..length][clr..];
  }

  method MakeNonce(p: Packet) returns (n: seq<byte>)
    requires p.Fits()
    ensures n == p.Nonce()
  {
    n := [0] + BigEndian(p.pktNum1, 2) + BigEndian(p.pktNum0, 4) + p.TA;
  }
}
