/** 32-bit words as four octets, in either byte order
    (src/crypto/gladman/aesopt.h:521-536). */
module Words {

  /** The octets of a word by significance. */
  function Byte0(w: bv32): bv8 { (w & 0xff) as bv8 }
  function Byte1(w: bv32): bv8 { ((w >> 8) & 0xff) as bv8 }
  function Byte2(w: bv32): bv8 { ((w >> 16) & 0xff) as bv8 }
  function Byte3(w: bv32): bv8 { (w >> 24) as bv8 }

  function Combine(b0: bv8, b1: bv8, b2: bv8, b3: bv8): bv32 {
    (b3 as bv32 << 24) | (b2 as bv32 << 16) | (b1 as bv32 << 8) | b0 as bv32
  }

  /** `bytes2word`, the first octet least (`little`) or most significant. */
  function Bytes2Word(little: bool, b0: bv8, b1: bv8, b2: bv8, b3: bv8): bv32 {
    if little then Combine(b0, b1, b2, b3) else Combine(b3, b2, b1, b0)
  }

  /** `bval`: octet `n` of a word. */
  function Bval(little: bool, w: bv32, n: nat): bv8
    requires n < 4
  {
    var k := if little then n else 3 - n;
    if k == 0 then Byte0(w) else if k == 1 then Byte1(w) else if k == 2 then Byte2(w) else Byte3(w)
  }

  lemma Split(b0: bv8, b1: bv8, b2: bv8, b3: bv8)
    ensures var w := Combine(b0, b1, b2, b3); Byte0(w) == b0 && Byte1(w) == b1 && Byte2(w) == b2 && Byte3(w) == b3
  {
  }

  /** Splitting a word gives back the octets it was made of. */
  lemma BvalOfWord(little: bool, b0: bv8, b1: bv8, b2: bv8, b3: bv8)
    ensures var w := Bytes2Word(little, b0, b1, b2, b3);
      && Bval(little, w, 0) == b0 && Bval(little, w, 1) == b1
      && Bval(little, w, 2) == b2 && Bval(little, w, 3) == b3
  {
    Split(b0, b1, b2, b3);
    Split(b3, b2, b1, b0);
  }

  /** Exclusive or, by name. */
  function XorByte(a: bv8, b: bv8): bv8 { a ^ b }

  function XorWord(v: bv32, w: bv32): bv32 { v ^ w }

  lemma Byte0Xor(v: bv32, w: bv32)
    ensures Byte0(XorWord(v, w)) == XorByte(Byte0(v), Byte0(w))
  {
  }

  lemma Byte1Xor(v: bv32, w: bv32)
    ensures Byte1(XorWord(v, w)) == XorByte(Byte1(v), Byte1(w))
  {
  }

  lemma Byte2Xor(v: bv32, w: bv32)
    ensures Byte2(XorWord(v, w)) == XorByte(Byte2(v), Byte2(w))
  {
  }

  lemma Byte3Xor(v: bv32, w: bv32)
    ensures Byte3(XorWord(v, w)) == XorByte(Byte3(v), Byte3(w))
  {
  }

  /** Xor works octet by octet. */
  lemma BvalXor(little: bool, v: bv32, w: bv32, n: nat)
    requires n < 4
    ensures Bval(little, XorWord(v, w), n) == XorByte(Bval(little, v, n), Bval(little, w, n))
  {
    hide Byte0, Byte1, Byte2, Byte3, XorWord, XorByte;
    Byte0Xor(v, w);
    Byte1Xor(v, w);
    Byte2Xor(v, w);
    Byte3Xor(v, w);
  }
}
