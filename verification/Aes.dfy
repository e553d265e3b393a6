/** The rounds of AES: section 5.1 of FIPS 197, and the table-driven form of
    src/crypto/gladman/aescrypt.c and src/crypto/gladman/aesopt.h, for any S-box
    and any key schedule. */
module Aes {
  import opened Words

  type SBox = bv8 -> bv8

  // ---------------------------------------------------------------------
  // FIPS 197

  datatype Column = Column(r0: bv8, r1: bv8, r2: bv8, r3: bv8)

  datatype State = State(c0: Column, c1: Column, c2: Column, c3: Column)

  /** Addition of field elements, section 4.1. */
  function Add(a: bv8, b: bv8): bv8 { XorByte(a, b) }

  function Add4(a: bv8, b: bv8, c: bv8, d: bv8): bv8 { Add(Add(Add(a, b), c), d) }

  lemma AddLaws(a: bv8, b: bv8)
    ensures Add(a, b) == Add(b, a) && Add(a, 0) == a && Add(0, a) == a
  {
  }

  /** Multiplication by {02}, section 4.2.1. */
  function Xtime(b: bv8): bv8 {
    if b & 0x80 == 0 then b << 1 else (b << 1) ^ 0x1b
  }

  /** Multiplication by {03}. */
  function Times3(b: bv8): bv8 { Add(Xtime(b), b) }

  function SubColumn(S: SBox, a: Column): Column {
    Column(S(a.r0), S(a.r1), S(a.r2), S(a.r3))
  }

  function SubBytes(S: SBox, s: State): State {
    State(SubColumn(S, s.c0), SubColumn(S, s.c1), SubColumn(S, s.c2), SubColumn(S, s.c3))
  }

  /** Row r moves r places to the left. */
  function ShiftRows(s: State): State {
    State(Column(s.c0.r0, s.c1.r1, s.c2.r2, s.c3.r3),
          Column(s.c1.r0, s.c2.r1, s.c3.r2, s.c0.r3),
          Column(s.c2.r0, s.c3.r1, s.c0.r2, s.c1.r3),
          Column(s.c3.r0, s.c0.r1, s.c1.r2, s.c2.r3))
  }

  function MixColumn(a: Column): Column {
    Column(Add4(Xtime(a.r0), Times3(a.r1), a.r2, a.r3),
           Add4(a.r0, Xtime(a.r1), Times3(a.r2), a.r3),
           Add4(a.r0, a.r1, Xtime(a.r2), Times3(a.r3)),
           Add4(Times3(a.r0), a.r1, a.r2, Xtime(a.r3)))
  }

  function MixColumns(s: State): State {
    State(MixColumn(s.c0), MixColumn(s.c1), MixColumn(s.c2), MixColumn(s.c3))
  }

  function AddColumn(a: Column, k: Column): Column {
    Column(Add(a.r0, k.r0), Add(a.r1, k.r1), Add(a.r2, k.r2), Add(a.r3, k.r3))
  }

  function AddRoundKey(s: State, k: State): State {
    State(AddColumn(s.c0, k.c0), AddColumn(s.c1, k.c1), AddColumn(s.c2, k.c2), AddColumn(s.c3, k.c3))
  }

  /** One of the first Nr - 1 rounds. */
  function NormalRound(S: SBox, s: State, k: State): State {
    AddRoundKey(MixColumns(ShiftRows(SubBytes(S, s))), k)
  }

  function LastRound(S: SBox, s: State, k: State): State {
    AddRoundKey(ShiftRows(SubBytes(S, s)), k)
  }

  /** The state after the initial key and `n` normal rounds. */
  function Rounds(S: SBox, s: State, keys: nat -> State, n: nat): State {
    if n == 0 then AddRoundKey(s, keys(0)) else NormalRound(S, Rounds(S, s, keys, n - 1), keys(n))
  }

  /** The cipher with `n` rounds. */
  function Cipher(S: SBox, s: State, keys: nat -> State, n: nat): State
    requires n > 0
  {
    LastRound(S, Rounds(S, s, keys, n - 1), keys(n))
  }

  // ---------------------------------------------------------------------
  // Octets and columns in words

  function ColumnOf(little: bool, w: bv32): Column {
    Column(Bval(little, w, 0), Bval(little, w, 1), Bval(little, w, 2), Bval(little, w, 3))
  }

  function StateOf(little: bool, x: seq<bv32>): State
    requires |x| == 4
  {
    State(ColumnOf(little, x[0]), ColumnOf(little, x[1]), ColumnOf(little, x[2]), ColumnOf(little, x[3]))
  }

  /** The state array is filled column by column, section 3.4 of FIPS 197. */
  function BlockState(b: seq<bv8>): State
    requires |b| == 16
  {
    State(Column(b[0], b[1], b[2], b[3]), Column(b[4], b[5], b[6], b[7]),
          Column(b[8], b[9], b[10], b[11]), Column(b[12], b[13], b[14], b[15]))
  }

  function ColumnBytes(c: Column): seq<bv8> { [c.r0, c.r1, c.r2, c.r3] }

  /** The octets of a state, in the order of the output block. */
  function StateBytes(s: State): (b: seq<bv8>)
    ensures |b| == 16
  {
    ColumnBytes(s.c0) + ColumnBytes(s.c1) + ColumnBytes(s.c2) + ColumnBytes(s.c3)
  }

  /** Blocks and states determine each other. */
  lemma StateRoundTrip(s: State, b: seq<bv8>)
    requires |b| == 16
    ensures BlockState(StateBytes(s)) == s
    ensures StateBytes(BlockState(b)) == b
  {
    BytesOfBlock(b);
  }

  lemma BytesOfBlock(b: seq<bv8>)
    requires |b| == 16
    ensures StateBytes(BlockState(b)) == b
  {
    var t := StateBytes(BlockState(b));
    assert t[..4] == b[..4] && t[4..8] == b[4..8] && t[8..12] == b[8..12] && t[12..] == b[12..];
    assert t == t[..4] + t[4..8] + t[8..12] + t[12..];
    assert b == b[..4] + b[4..8] + b[8..12] + b[12..];
  }

  /** Round key `n` of a key schedule of words. */
  function RoundKey(little: bool, k: seq<bv32>, n: nat): State
    requires 4 * n + 4 <= |k|
  {
    StateOf(little, k[4 * n..4 * n + 4])
  }

  function Keys(little: bool, k: seq<bv32>): nat -> State {
    (n: nat) => if 4 * n + 4 <= |k| then RoundKey(little, k, n) else StateOf(little, [0, 0, 0, 0])
  }

  /** Xor of a key word and four table entries. */
  function XorAll(k: bv32, a: bv32, b: bv32, c: bv32, d: bv32): bv32 {
    XorWord(k, XorWord(XorWord(XorWord(a, b), c), d))
  }

  lemma ColumnXor(little: bool, v: bv32, w: bv32)
    ensures ColumnOf(little, XorWord(v, w)) == AddColumn(ColumnOf(little, v), ColumnOf(little, w))
  {
    hide Bval, XorWord, XorByte;
    BvalXor(little, v, w, 0);
    BvalXor(little, v, w, 1);
    BvalXor(little, v, w, 2);
    BvalXor(little, v, w, 3);
  }

  lemma ColumnOfWord(little: bool, b0: bv8, b1: bv8, b2: bv8, b3: bv8)
    ensures ColumnOf(little, Bytes2Word(little, b0, b1, b2, b3)) == Column(b0, b1, b2, b3)
  {
    hide Bval, Bytes2Word;
    BvalOfWord(little, b0, b1, b2, b3);
  }

  // ---------------------------------------------------------------------
  // Tables

  /** `f2` on ints: bit 8 of the shifted value is cancelled by the polynomial 0x11b. */
  function F2Int(x: bv32): bv32 { (x << 1) ^ (((x >> 7) & 1) * 0x011b) }

  lemma F2Fits(b: bv8)
    ensures F2Int(b as bv32) <= 0xff
  {
  }

  function F2(b: bv8): bv8 {
    F2Fits(b);
    F2Int(b as bv32) as bv8
  }

  function F3(b: bv8): bv8 { F2(b) ^ b }

  /** The table entries multiply by {02} and {03} in the field of FIPS 197. */
  lemma FieldProducts(b: bv8)
    ensures F2(b) == Xtime(b) && F3(b) == Times3(b)
  {
    F2Fits(b);
  }

  /** `t_fn`: tables of the normal round (u0 to u3 over the S-box). */
  function Fn(little: bool, S: SBox, n: nat, b: bv8): bv32
    requires n < 4
  {
    var p := S(b);
    if n == 0 then Bytes2Word(little, F2(p), p, p, F3(p))
    else if n == 1 then Bytes2Word(little, F3(p), F2(p), p, p)
    else if n == 2 then Bytes2Word(little, p, F3(p), F2(p), p)
    else Bytes2Word(little, p, p, F3(p), F2(p))
  }

  /** `t_fl`: tables of the last round (w0 to w3 over the S-box). */
  function Fl(little: bool, S: SBox, n: nat, b: bv8): bv32
    requires n < 4
  {
    var p := S(b);
    if n == 0 then Bytes2Word(little, p, 0, 0, 0)
    else if n == 1 then Bytes2Word(little, 0, p, 0, 0)
    else if n == 2 then Bytes2Word(little, 0, 0, p, 0)
    else Bytes2Word(little, 0, 0, 0, p)
  }

  /** `fwd_var`: the input word that row r of output column c is taken from. */
  function FwdVar(x: seq<bv32>, r: nat, c: nat): bv32
    requires |x| == 4
  {
    if r == 0 then if c == 0 then x[0] else if c == 1 then x[1] else if c == 2 then x[2] else x[3]
    else if r == 1 then if c == 0 then x[1] else if c == 1 then x[2] else if c == 2 then x[3] else x[0]
    else if r == 2 then if c == 0 then x[2] else if c == 1 then x[3] else if c == 2 then x[0] else x[1]
    else if c == 0 then x[3] else if c == 1 then x[0] else if c == 2 then x[1] else x[2]
  }

  /** `fwd_rnd` for column c. */
  function FwdRnd(little: bool, S: SBox, x: seq<bv32>, k: bv32, c: nat): bv32
    requires |x| == 4
  {
    XorAll(k, Fn(little, S, 0, Bval(little, FwdVar(x, 0, c), 0)),
           Fn(little, S, 1, Bval(little, FwdVar(x, 1, c), 1)),
           Fn(little, S, 2, Bval(little, FwdVar(x, 2, c), 2)),
           Fn(little, S, 3, Bval(little, FwdVar(x, 3, c), 3)))
  }

  /** `fwd_lrnd` for column c. */
  function FwdLRnd(little: bool, S: SBox, x: seq<bv32>, k: bv32, c: nat): bv32
    requires |x| == 4
  {
    XorAll(k, Fl(little, S, 0, Bval(little, FwdVar(x, 0, c), 0)),
           Fl(little, S, 1, Bval(little, FwdVar(x, 1, c), 1)),
           Fl(little, S, 2, Bval(little, FwdVar(x, 2, c), 2)),
           Fl(little, S, 3, Bval(little, FwdVar(x, 3, c), 3)))
  }

  /** Column by column, and the key last. */
  lemma ColumnXorAll(little: bool, k: bv32, a: bv32, b: bv32, c: bv32, d: bv32)
    ensures var ka, ca, cb, cc, cd := ColumnOf(little, k), ColumnOf(little, a), ColumnOf(little, b),
        ColumnOf(little, c), ColumnOf(little, d);
      ColumnOf(little, XorAll(k, a, b, c, d)) ==
      AddColumn(Column(Add4(ca.r0, cb.r0, cc.r0, cd.r0), Add4(ca.r1, cb.r1, cc.r1, cd.r1),
                       Add4(ca.r2, cb.r2, cc.r2, cd.r2), Add4(ca.r3, cb.r3, cc.r3, cd.r3)), ka)
  {
    hide ColumnOf, XorWord, Add;
    var ab := XorWord(a, b);
    var abc := XorWord(ab, c);
    var abcd := XorWord(abc, d);
    ColumnXor(little, k, abcd);
    ColumnXor(little, abc, d);
    ColumnXor(little, ab, c);
    ColumnXor(little, a, b);
    var ka, s := ColumnOf(little, k), ColumnOf(little, abcd);
    AddLaws(ka.r0, s.r0);
    AddLaws(ka.r1, s.r1);
    AddLaws(ka.r2, s.r2);
    AddLaws(ka.r3, s.r3);
  }

  lemma FnColumns(little: bool, S: SBox, b: bv8)
    ensures var p := S(b); var p2, p3 := Xtime(p), Times3(p);
      && ColumnOf(little, Fn(little, S, 0, b)) == Column(p2, p, p, p3)
      && ColumnOf(little, Fn(little, S, 1, b)) == Column(p3, p2, p, p)
      && ColumnOf(little, Fn(little, S, 2, b)) == Column(p, p3, p2, p)
      && ColumnOf(little, Fn(little, S, 3, b)) == Column(p, p, p3, p2)
  {
    hide F2, F3, Xtime, Times3, Bytes2Word, ColumnOf;
    var p := S(b);
    FieldProducts(p);
    ColumnOfWord(little, F2(p), p, p, F3(p));
    ColumnOfWord(little, F3(p), F2(p), p, p);
    ColumnOfWord(little, p, F3(p), F2(p), p);
    ColumnOfWord(little, p, p, F3(p), F2(p));
  }

  lemma FlColumns(little: bool, S: SBox, b: bv8)
    ensures var p := S(b);
      && ColumnOf(little, Fl(little, S, 0, b)) == Column(p, 0, 0, 0)
      && ColumnOf(little, Fl(little, S, 1, b)) == Column(0, p, 0, 0)
      && ColumnOf(little, Fl(little, S, 2, b)) == Column(0, 0, p, 0)
      && ColumnOf(little, Fl(little, S, 3, b)) == Column(0, 0, 0, p)
  {
    hide Bytes2Word, ColumnOf;
    var p := S(b);
    ColumnOfWord(little, p, 0, 0, 0);
    ColumnOfWord(little, 0, p, 0, 0);
    ColumnOfWord(little, 0, 0, p, 0);
    ColumnOfWord(little, 0, 0, 0, p);
  }

  /** One column of the normal round, from four input octets. */
  lemma NormalColumn(little: bool, S: SBox, k: bv32, a0: bv8, a1: bv8, a2: bv8, a3: bv8)
    ensures ColumnOf(little,
        XorAll(k, Fn(little, S, 0, a0), Fn(little, S, 1, a1), Fn(little, S, 2, a2), Fn(little, S, 3, a3)))
         == AddColumn(MixColumn(Column(S(a0), S(a1), S(a2), S(a3))), ColumnOf(little, k))
  {
    hide Fn, ColumnOf, XorAll, Add4, Add, Xtime, Times3;
    ColumnXorAll(little, k, Fn(little, S, 0, a0), Fn(little, S, 1, a1), Fn(little, S, 2, a2), Fn(little, S, 3, a3));
    FnColumns(little, S, a0);
    FnColumns(little, S, a1);
    FnColumns(little, S, a2);
    FnColumns(little, S, a3);
  }

  lemma AloneInFour(p: bv8)
    ensures Add4(p, 0, 0, 0) == p && Add4(0, p, 0, 0) == p && Add4(0, 0, p, 0) == p && Add4(0, 0, 0, p) == p
  {
  }

  lemma LastColumn(little: bool, S: SBox, k: bv32, a0: bv8, a1: bv8, a2: bv8, a3: bv8)
    ensures ColumnOf(little,
        XorAll(k, Fl(little, S, 0, a0), Fl(little, S, 1, a1), Fl(little, S, 2, a2), Fl(little, S, 3, a3)))
         == AddColumn(Column(S(a0), S(a1), S(a2), S(a3)), ColumnOf(little, k))
  {
    hide Fl, ColumnOf, XorAll, Add4, Add;
    AloneInFour(S(a0));
    AloneInFour(S(a1));
    AloneInFour(S(a2));
    AloneInFour(S(a3));
    ColumnXorAll(little, k, Fl(little, S, 0, a0), Fl(little, S, 1, a1), Fl(little, S, 2, a2), Fl(little, S, 3, a3));
    FlColumns(little, S, a0);
    FlColumns(little, S, a1);
    FlColumns(little, S, a2);
    FlColumns(little, S, a3);
  }

  /** The four-table round is SubBytes, ShiftRows, MixColumns, AddRoundKey. */
  lemma TableRound(little: bool, S: SBox, x: seq<bv32>, k: seq<bv32>)
    requires |x| == 4 && |k| == 4
    ensures StateOf(little,
        [FwdRnd(little, S, x, k[0], 0), FwdRnd(little, S, x, k[1], 1), FwdRnd(little, S, x, k[2], 2),
          FwdRnd(little, S, x, k[3], 3)]) == NormalRound(S, StateOf(little, x), StateOf(little, k))
  {
    hide Fn, Bval, MixColumn, AddColumn, XorAll;
    var b := (i: nat, r: nat) requires i < 4 && r < 4 => Bval(little, x[i], r);
    NormalColumn(little, S, k[0], b(0, 0), b(1, 1), b(2, 2), b(3, 3));
    NormalColumn(little, S, k[1], b(1, 0), b(2, 1), b(3, 2), b(0, 3));
    NormalColumn(little, S, k[2], b(2, 0), b(3, 1), b(0, 2), b(1, 3));
    NormalColumn(little, S, k[3], b(3, 0), b(0, 1), b(1, 2), b(2, 3));
  }

  lemma TableLastRound(little: bool, S: SBox, x: seq<bv32>, k: seq<bv32>)
    requires |x| == 4 && |k| == 4
    ensures StateOf(little,
        [FwdLRnd(little, S, x, k[0], 0), FwdLRnd(little, S, x, k[1], 1), FwdLRnd(little, S, x, k[2], 2),
          FwdLRnd(little, S, x, k[3], 3)]) == LastRound(S, StateOf(little, x), StateOf(little, k))
  {
    hide Fl, Bval, AddColumn, XorAll;
    var b := (i: nat, r: nat) requires i < 4 && r < 4 => Bval(little, x[i], r);
    LastColumn(little, S, k[0], b(0, 0), b(1, 1), b(2, 2), b(3, 3));
    LastColumn(little, S, k[1], b(1, 0), b(2, 1), b(3, 2), b(0, 3));
    LastColumn(little, S, k[2], b(2, 0), b(3, 1), b(0, 2), b(1, 3));
    LastColumn(little, S, k[3], b(3, 0), b(0, 1), b(1, 2), b(2, 3));
  }

  // ---------------------------------------------------------------------
  // aes_encrypt

  /** `round(fwd_rnd, y, x, kp + 4 * n * N_COLS)`: round key `n` of the schedule. */
  method Round(little: bool, S: SBox, y: array<bv32>, x: array<bv32>, k: seq<bv32>, n: nat)
    requires x.Length == 4 && y.Length == 4 && x != y && 4 * n + 4 <= |k|
    modifies y
    ensures StateOf(little, y[..]) == NormalRound(S, StateOf(little, x[..]), Keys(little, k)(n))
  {
    hide FwdRnd, NormalRound, StateOf;
    var kp := k[4 * n..4 * n + 4];
    y[0] := FwdRnd(little, S, x[..], kp[0], 0);
    y[1] := FwdRnd(little, S, x[..], kp[1], 1);
    y[2] := FwdRnd(little, S, x[..], kp[2], 2);
    y[3] := FwdRnd(little, S, x[..], kp[3], 3);
    TableRound(little, S, x[..], kp);
    ghost var v := x[..];
    assert y[..] == [FwdRnd(little, S, v, kp[0], 0), FwdRnd(little, S, v, kp[1], 1),
        FwdRnd(little, S, v, kp[2], 2), FwdRnd(little, S, v, kp[3], 3)];
  }

  /** `round(fwd_lrnd, y, x, ...)`. */
  method FinalRound(little: bool, S: SBox, y: array<bv32>, x: array<bv32>, k: seq<bv32>, n: nat)
    requires x.Length == 4 && y.Length == 4 && x != y && 4 * n + 4 <= |k|
    modifies y
    ensures StateOf(little, y[..]) == LastRound(S, StateOf(little, x[..]), Keys(little, k)(n))
  {
    hide FwdLRnd, LastRound, StateOf;
    var kp := k[4 * n..4 * n + 4];
    y[0] := FwdLRnd(little, S, x[..], kp[0], 0);
    y[1] := FwdLRnd(little, S, x[..], kp[1], 1);
    y[2] := FwdLRnd(little, S, x[..], kp[2], 2);
    y[3] := FwdLRnd(little, S, x[..], kp[3], 3);
    TableLastRound(little, S, x[..], kp);
    ghost var v := x[..];
    assert y[..] == [FwdLRnd(little, S, v, kp[0], 0), FwdLRnd(little, S, v, kp[1], 1),
        FwdLRnd(little, S, v, kp[2], 2), FwdLRnd(little, S, v, kp[3], 3)];
  }

  /** `state_in`: octets to words, with the first round key. */
  method StateIn(little: bool, y: array<bv32>, inBlk: array<bv8>, k: seq<bv32>)
    requires y.Length == 4 && inBlk.Length == 16 && 4 <= |k|
    modifies y
    ensures StateOf(little, y[..]) == AddRoundKey(BlockState(inBlk[..]), Keys(little, k)(0))
  {
    hide Bytes2Word, AddColumn, ColumnOf, XorWord;
    for c := 0 to 4
      invariant forall i :: 0 <= i < c ==>
        ColumnOf(little, y[i]) ==
          AddColumn(Column(inBlk[4 * i], inBlk[4 * i + 1], inBlk[4 * i + 2], inBlk[4 * i + 3]), ColumnOf(little, k[i]))
    {
      var w := Bytes2Word(little, inBlk[4 * c], inBlk[4 * c + 1], inBlk[4 * c + 2], inBlk[4 * c + 3]);
      ColumnOfWord(little, inBlk[4 * c], inBlk[4 * c + 1], inBlk[4 * c + 2], inBlk[4 * c + 3]);
      ColumnXor(little, w, k[c]);
      y[c] := XorWord(w, k[c]);
    }
    assert k[4 * 0..4 * 0 + 4] == [k[0], k[1], k[2], k[3]];
  }

  /** `state_out`: words to octets. */
  method StateOut(little: bool, outBlk: array<bv8>, x: array<bv32>)
    requires x.Length == 4 && outBlk.Length == 16
    modifies outBlk
    ensures outBlk[..] == StateBytes(StateOf(little, x[..]))
  {
    hide Bval, StateBytes;
    for c := 0 to 4
      invariant forall i :: 0 <= i < c ==>
        ColumnOf(little, x[i]) == Column(outBlk[4 * i], outBlk[4 * i + 1], outBlk[4 * i + 2], outBlk[4 * i + 3])
    {
      outBlk[4 * c] := Bval(little, x[c], 0);
      outBlk[4 * c + 1] := Bval(little, x[c], 1);
      outBlk[4 * c + 2] := Bval(little, x[c], 2);
      outBlk[4 * c + 3] := Bval(little, x[c], 3);
    }
    assert BlockState(outBlk[..]) == StateOf(little, x[..]);
    StateRoundTrip(StateOf(little, x[..]), outBlk[..]);
  }

  /** The unrolled form (src/crypto/gladman/aescrypt.c:116-142). */
  method EncryptUnrolled(little: bool, S: SBox, inBlk: array<bv8>, outBlk: array<bv8>, k: seq<bv32>, nRnd: nat)
    requires inBlk.Length == 16 && outBlk.Length == 16 && nRnd >= 1 && |k| == 4 * (nRnd + 1)
    modifies outBlk
    ensures nRnd == 10 || nRnd == 12 || nRnd == 14 ==>
      outBlk[..] == StateBytes(Cipher(S, BlockState(old(inBlk[..])), Keys(little, k), nRnd))
    ensures nRnd != 10 && nRnd != 12 && nRnd != 14 ==>
      outBlk[..] == StateBytes(AddRoundKey(BlockState(old(inBlk[..])), Keys(little, k)(0)))
  {
    hide NormalRound, LastRound, StateOf, BlockState, StateBytes, AddRoundKey, Keys;
    var b0, b1 := new bv32[4], new bv32[4];
    ghost var s, keys := BlockState(inBlk[..]), Keys(little, k);
    StateIn(little, b0, inBlk, k);
    assert StateOf(little, b0[..]) == Rounds(S, s, keys, 0);
    if nRnd == 10 || nRnd == 12 || nRnd == 14 {
      var kp := nRnd - 9;
      if nRnd == 14 {
        Round(little, S, b1, b0, k, kp - 4);
        assert StateOf(little, b1[..]) == Rounds(S, s, keys, 1);
        Round(little, S, b0, b1, k, kp - 3);
        assert StateOf(little, b0[..]) == Rounds(S, s, keys, 2);
      }
      if nRnd == 14 || nRnd == 12 {
        Round(little, S, b1, b0, k, kp - 2);
        assert StateOf(little, b1[..]) == Rounds(S, s, keys, kp - 2);
        Round(little, S, b0, b1, k, kp - 1);
        assert StateOf(little, b0[..]) == Rounds(S, s, keys, kp - 1);
      }
      Nine(little, S, b0, b1, k, kp, s);
      FinalRound(little, S, b0, b1, k, kp + 9);
    }
    StateOut(little, outBlk, b0);
  }

  /** The nine normal rounds common to all key sizes. */
  method Nine(little: bool, S: SBox, b0: array<bv32>, b1: array<bv32>, k: seq<bv32>, kp: nat, ghost s: State)
    requires b0.Length == 4 && b1.Length == 4 && b0 != b1 && kp >= 1 && 4 * (kp + 9) <= |k|
    requires StateOf(little, b0[..]) == Rounds(S, s, Keys(little, k), kp - 1)
    modifies b0, b1
    ensures StateOf(little, b1[..]) == Rounds(S, s, Keys(little, k), kp + 8)
  {
    hide NormalRound, StateOf, Keys;
    ghost var keys := Keys(little, k);
    Round(little, S, b1, b0, k, kp);
    assert StateOf(little, b1[..]) == Rounds(S, s, keys, kp);
    Round(little, S, b0, b1, k, kp + 1);
    assert StateOf(little, b0[..]) == Rounds(S, s, keys, kp + 1);
    Round(little, S, b1, b0, k, kp + 2);
    assert StateOf(little, b1[..]) == Rounds(S, s, keys, kp + 2);
    Round(little, S, b0, b1, k, kp + 3);
    assert StateOf(little, b0[..]) == Rounds(S, s, keys, kp + 3);
    Round(little, S, b1, b0, k, kp + 4);
    assert StateOf(little, b1[..]) == Rounds(S, s, keys, kp + 4);
    Round(little, S, b0, b1, k, kp + 5);
    assert StateOf(little, b0[..]) == Rounds(S, s, keys, kp + 5);
    Round(little, S, b1, b0, k, kp + 6);
    assert StateOf(little, b1[..]) == Rounds(S, s, keys, kp + 6);
    Round(little, S, b0, b1, k, kp + 7);
    assert StateOf(little, b0[..]) == Rounds(S, s, keys, kp + 7);
    Round(little, S, b1, b0, k, kp + 8);
    assert StateOf(little, b1[..]) == Rounds(S, s, keys, kp + 8);
  }

  /** Two rounds per turn (src/crypto/gladman/aescrypt.c:146-156, 165-166). */
  method EncryptPaired(little: bool, S: SBox, inBlk: array<bv8>, outBlk: array<bv8>, k: seq<bv32>, nRnd: nat)
    requires inBlk.Length == 16 && outBlk.Length == 16 && nRnd >= 2 && nRnd % 2 == 0 && |k| == 4 * (nRnd + 1)
    modifies outBlk
    ensures outBlk[..] == StateBytes(Cipher(S, BlockState(old(inBlk[..])), Keys(little, k), nRnd))
  {
    hide NormalRound, LastRound, StateOf, BlockState, StateBytes, AddRoundKey, Keys;
    var b0, b1 := new bv32[4], new bv32[4];
    ghost var s, keys := BlockState(inBlk[..]), Keys(little, k);
    StateIn(little, b0, inBlk, k);
    var kp := 0;
    for rnd := 0 to nRnd / 2 - 1
      invariant kp == 2 * rnd && StateOf(little, b0[..]) == Rounds(S, s, keys, kp)
    {
      kp := kp + 1;
      Round(little, S, b1, b0, k, kp);
      kp := kp + 1;
      Round(little, S, b0, b1, k, kp);
    }
    kp := kp + 1;
    Round(little, S, b1, b0, k, kp);
    kp := kp + 1;
    FinalRound(little, S, b0, b1, k, kp);
    StateOut(little, outBlk, b0);
  }

  /** One round per turn, exchanging the state arrays; the last round reads
      `b1` (src/crypto/gladman/aescrypt.c:157-167). */
  method EncryptLooped(little: bool, S: SBox, inBlk: array<bv8>, outBlk: array<bv8>, k: seq<bv32>, nRnd: nat)
    requires inBlk.Length == 16 && outBlk.Length == 16 && nRnd >= 2 && nRnd % 2 == 0 && |k| == 4 * (nRnd + 1)
    modifies outBlk
    ensures outBlk[..] == StateBytes(Cipher(S, BlockState(old(inBlk[..])), Keys(little, k), nRnd))
  {
    hide NormalRound, LastRound, StateOf, BlockState, StateBytes, AddRoundKey, Keys;
    var b0, b1 := new bv32[4], new bv32[4];
    ghost var s, keys := BlockState(inBlk[..]), Keys(little, k);
    StateIn(little, b0, inBlk, k);
    var p0, p1, kp := b0, b1, 0;
    for rnd := 0 to nRnd - 1
      invariant if rnd % 2 == 0 then p0 == b0 && p1 == b1 else p0 == b1 && p1 == b0
      invariant kp == rnd && StateOf(little, p0[..]) == Rounds(S, s, keys, rnd)
    {
      kp := kp + 1;
      Round(little, S, p1, p0, k, kp);
      p0, p1 := p1, p0;
    }
    kp := kp + 1;
    FinalRound(little, S, b0, b1, k, kp);
    StateOut(little, outBlk, b0);
  }
}
