/**
 MurmurHash3_x64_128, the hash that block deduplication relies on, and the proof that every mixing
 step is a permutation: of the 128-bit state for a fixed input, and of one 16-byte lane of the input
 for a fixed state.

 The word operations are named functions, so that each one's inverse law is proved once, on the
 operation alone, and the laws of their compositions follow by rewriting.
 */
module Murmur3Mix {

  /** The two 64-bit accumulators; also the digest. */
  datatype State = State(h1: bv64, h2: bv64)

  /** Sixteen input bytes as two words. */
  datatype Lane = Lane(k1: bv64, k2: bv64)

  const C1: bv64 := 0x87c37b91114253d5
  const C2: bv64 := 0x4cf5ad432745937f

  // ---------- Word operations ----------

  function Rotl64(x: bv64, r: bv64): bv64
    requires 0 < r < 64
  {
    (x << r) | (x >> (64 - r))
  }

  function Mul(x: bv64, c: bv64): bv64 { x * c }

  function Add(x: bv64, y: bv64): bv64 { x + y }

  function Sub(x: bv64, y: bv64): bv64 { x - y }

  function Xor(x: bv64, y: bv64): bv64 { x ^ y }

  function XorShift33(k: bv64): bv64 { k ^ (k >> 33) }

  /** h += other; h = h * 5 + c */
  function Stir(h: bv64, other: bv64, c: bv64): bv64 { (h + other) * 5 + c }

  function Unstir(h: bv64, other: bv64, c: bv64): bv64 { (h - c) * 0xcccccccccccccccd - other }

  lemma RotlLaws(x: bv64)
    ensures Rotl64(Rotl64(x, 31), 33) == x && Rotl64(Rotl64(x, 33), 31) == x
  {
  }

  lemma RotlLaws27(x: bv64)
    ensures Rotl64(Rotl64(x, 27), 37) == x && Rotl64(Rotl64(x, 37), 27) == x
  {
  }

  /** The odd multipliers are units modulo 2^64. */
  lemma C1Law(x: bv64)
    ensures Mul(Mul(x, 0x87c37b91114253d5), 0xa98409e882ce4d7d) == x && Mul(Mul(x, 0xa98409e882ce4d7d), 0x87c37b91114253d5) == x
  {
    assert Mul(x * 0x87c37b91114253d5, 0xa98409e882ce4d7d) == x && Mul(x * 0xa98409e882ce4d7d, 0x87c37b91114253d5) == x;
  }

  lemma C2Law(x: bv64)
    ensures Mul(Mul(x, 0x4cf5ad432745937f), 0xa81e14edd9de2c7f) == x && Mul(Mul(x, 0xa81e14edd9de2c7f), 0x4cf5ad432745937f) == x
  {
    assert Mul(x * 0x4cf5ad432745937f, 0xa81e14edd9de2c7f) == x && Mul(x * 0xa81e14edd9de2c7f, 0x4cf5ad432745937f) == x;
  }

  lemma M1Law(x: bv64)
    ensures Mul(Mul(x, 0xff51afd7ed558ccd), 0x4f74430c22a54005) == x && Mul(Mul(x, 0x4f74430c22a54005), 0xff51afd7ed558ccd) == x
  {
    assert Mul(x * 0xff51afd7ed558ccd, 0x4f74430c22a54005) == x && Mul(x * 0x4f74430c22a54005, 0xff51afd7ed558ccd) == x;
  }

  lemma M2Law(x: bv64)
    ensures Mul(Mul(x, 0xc4ceb9fe1a85ec53), 0x9cb4b2f8129337db) == x && Mul(Mul(x, 0x9cb4b2f8129337db), 0xc4ceb9fe1a85ec53) == x
  {
    assert Mul(x * 0xc4ceb9fe1a85ec53, 0x9cb4b2f8129337db) == x && Mul(x * 0x9cb4b2f8129337db, 0xc4ceb9fe1a85ec53) == x;
  }

  lemma XorShiftLaw(k: bv64)
    ensures XorShift33(XorShift33(k)) == k
  {
    assert XorShift33(k ^ (k >> 33)) == k;
  }

  lemma XorLaws(x: bv64, y: bv64)
    ensures Xor(Xor(x, y), y) == x && Xor(Xor(x, y), x) == y && Xor(x, Xor(x, y)) == y
  {
    assert Xor(x ^ y, y) == x && Xor(x ^ y, x) == y && Xor(x, x ^ y) == y;
  }

  lemma StirLaws(h: bv64, other: bv64, c: bv64)
    ensures Unstir(Stir(h, other, c), other, c) == h
    ensures Stir(Unstir(h, other, c), other, c) == h
  {
    assert Unstir((h + other) * 5 + c, other, c) == h;
    assert Stir((h - c) * 0xcccccccccccccccd - other, other, c) == h;
  }

  lemma AddLaws(x: bv64, y: bv64)
    ensures Sub(Add(x, y), y) == x && Sub(Add(x, y), x) == y && Add(Sub(x, y), y) == x
  {
    assert Sub(x + y, y) == x && Sub(x + y, x) == y && Add(x - y, y) == x;
  }

  // ---------- Mixing functions ----------

  function MixK1(k: bv64): bv64 { Mul(Rotl64(Mul(k, C1), 31), C2) }

  function MixK2(k: bv64): bv64 { Mul(Rotl64(Mul(k, C2), 33), C1) }

  function BodyStep(s: State, x: Lane): State {
    var h1 := Stir(Rotl64(Xor(s.h1, MixK1(x.k1)), 27), s.h2, 0x52dce729);
    var h2 := Stir(Rotl64(Xor(s.h2, MixK2(x.k2)), 31), h1, 0x38495ab5);
    State(h1, h2)
  }

  function TailStep(s: State, x: Lane): State {
    State(Xor(s.h1, MixK1(x.k1)), Xor(s.h2, MixK2(x.k2)))
  }

  function Fmix64(k: bv64): bv64 {
    XorShift33(Mul(XorShift33(Mul(XorShift33(k), 0xff51afd7ed558ccd)), 0xc4ceb9fe1a85ec53))
  }

  /** h1 += h2; h2 += h1 */
  function CrossAdd(s: State): State {
    var h1 := Add(s.h1, s.h2);
    State(h1, Add(s.h2, h1))
  }

  function Finalize(s: State, len: bv64): State {
    var a := CrossAdd(State(Xor(s.h1, len), Xor(s.h2, len)));
    CrossAdd(State(Fmix64(a.h1), Fmix64(a.h2)))
  }

  // ---------- Inverses of the mixing functions ----------

  const C1_INVERSE: bv64 := 0xa98409e882ce4d7d
  const C2_INVERSE: bv64 := 0xa81e14edd9de2c7f

  function UnmixK1(m: bv64): bv64 { Mul(Rotl64(Mul(m, C2_INVERSE), 33), C1_INVERSE) }

  function UnmixK2(m: bv64): bv64 { Mul(Rotl64(Mul(m, C1_INVERSE), 31), C2_INVERSE) }

  function Unfmix64(k: bv64): bv64 {
    XorShift33(Mul(XorShift33(Mul(XorShift33(k), 0x9cb4b2f8129337db)), 0x4f74430c22a54005))
  }

  function Uncross(s: State): State {
    var h2 := Sub(s.h2, s.h1);
    State(Sub(s.h1, h2), h2)
  }

  function Unfinalize(d: State, len: bv64): State {
    var b := Uncross(d);
    var a := Uncross(State(Unfmix64(b.h1), Unfmix64(b.h2)));
    State(Xor(a.h1, len), Xor(a.h2, len))
  }

  /** What was rotated into h2, given the accumulators after the step. */
  function Before2(t: State): bv64 { Rotl64(Unstir(t.h2, t.h1, 0x38495ab5), 33) }

  /** What was rotated into h1, given h1 after the step and h2 before it. */
  function Before1(t: State, h2: bv64): bv64 { Rotl64(Unstir(t.h1, h2, 0x52dce729), 37) }

  /** The state from which lane `x` leads to `t`. */
  function UnstepState(t: State, x: Lane): State {
    var h2 := Xor(Before2(t), MixK2(x.k2));
    State(Xor(Before1(t, h2), MixK1(x.k1)), h2)
  }

  /** The lane that leads from `s` to `t` in the body. */
  function StepLane(s: State, t: State): Lane {
    Lane(UnmixK1(Xor(s.h1, Before1(t, s.h2))), UnmixK2(Xor(s.h2, Before2(t))))
  }

  /** The state from which tail lane `x` leads to `t`. */
  function UntailState(t: State, x: Lane): State {
    State(Xor(t.h1, MixK1(x.k1)), Xor(t.h2, MixK2(x.k2)))
  }

  /** The lane that leads from `s` to `t` in the tail. */
  function TailLane(s: State, t: State): Lane {
    Lane(UnmixK1(Xor(s.h1, t.h1)), UnmixK2(Xor(s.h2, t.h2)))
  }

  // ---------- Every mixing function is a permutation ----------

  lemma MixK1Permutes(k: bv64, m: bv64)
    ensures MixK1(k) == m <==> k == UnmixK1(m)
  {
    hide Mul, Add, Sub, Xor, Rotl64, XorShift33, Stir, Unstir;
    C1Law(k);
    RotlLaws(Mul(k, C1));
    C2Law(Rotl64(Mul(k, C1), 31));
    C2Law(m);
    RotlLaws(Mul(m, C2_INVERSE));
    C1Law(Rotl64(Mul(m, C2_INVERSE), 33));
  }

  lemma MixK2Permutes(k: bv64, m: bv64)
    ensures MixK2(k) == m <==> k == UnmixK2(m)
  {
    hide Mul, Add, Sub, Xor, Rotl64, XorShift33, Stir, Unstir;
    C2Law(k);
    RotlLaws(Mul(k, C2));
    C1Law(Rotl64(Mul(k, C2), 33));
    C1Law(m);
    RotlLaws(Mul(m, C1_INVERSE));
    C2Law(Rotl64(Mul(m, C1_INVERSE), 31));
  }

  lemma UnfmixFmix(k: bv64)
    ensures Unfmix64(Fmix64(k)) == k
  {
    hide Mul, Add, Sub, Xor, Rotl64, XorShift33, Stir, Unstir;
    var a := XorShift33(k);
    var b := Mul(a, 0xff51afd7ed558ccd);
    var c := XorShift33(b);
    XorShiftLaw(k);
    M1Law(a);
    XorShiftLaw(b);
    M2Law(c);
    XorShiftLaw(Mul(c, 0xc4ceb9fe1a85ec53));
  }

  lemma FmixUnfmix(k: bv64)
    ensures Fmix64(Unfmix64(k)) == k
  {
    hide Mul, Add, Sub, Xor, Rotl64, XorShift33, Stir, Unstir;
    var a := XorShift33(k);
    var b := Mul(a, 0x9cb4b2f8129337db);
    var c := XorShift33(b);
    XorShiftLaw(k);
    M2Law(a);
    XorShiftLaw(b);
    M1Law(c);
    XorShiftLaw(Mul(c, 0x4f74430c22a54005));
  }

  lemma CrossPermutes(s: State, t: State)
    ensures CrossAdd(s) == t <==> s == Uncross(t)
  {
    hide Mul, Add, Sub, Xor, Rotl64, XorShift33, Stir, Unstir;
    AddLaws(s.h1, s.h2);
    AddLaws(s.h2, Add(s.h1, s.h2));
    AddLaws(t.h2, t.h1);
    AddLaws(t.h1, Sub(t.h2, t.h1));
  }

  /** Finalization is a permutation of the 128-bit states, for every length. */
  lemma FinalizePermutes(s: State, len: bv64, d: State)
    ensures Finalize(s, len) == d <==> s == Unfinalize(d, len)
  {
    hide Mul, Add, Sub, Xor, Rotl64, XorShift33, Stir, Unstir, Fmix64, Unfmix64, CrossAdd, Uncross;
    var x := State(Xor(s.h1, len), Xor(s.h2, len));
    var a := CrossAdd(x);
    var y := State(Fmix64(a.h1), Fmix64(a.h2));
    var b := Uncross(d);
    var z := State(Unfmix64(b.h1), Unfmix64(b.h2));
    var w := Uncross(z);
    CrossPermutes(y, d);
    UnfmixFmix(a.h1);
    UnfmixFmix(a.h2);
    FmixUnfmix(b.h1);
    FmixUnfmix(b.h2);
    CrossPermutes(x, z);
    XorLaws(s.h1, len);
    XorLaws(s.h2, len);
    XorLaws(w.h1, len);
    XorLaws(w.h2, len);
  }

  /** A state finalized with different lengths gives different digests. */
  lemma FinalizeTellsLengths(s: State, a: bv64, b: bv64)
    ensures Finalize(s, a) == Finalize(s, b) ==> a == b
  {
    hide Mul, Add, Sub, Xor, Rotl64, XorShift33, Stir, Unstir, Finalize, Unfmix64, Uncross;
    var d := Finalize(s, a);
    FinalizePermutes(s, a, d);
    FinalizePermutes(s, b, d);
    var y := Uncross(State(Unfmix64(Uncross(d).h1), Unfmix64(Uncross(d).h2))).h1;
    XorLaws(y, a);
    XorLaws(y, b);
  }

  lemma UnstepStep(s: State, x: Lane)
    ensures UnstepState(BodyStep(s, x), x) == s
  {
    hide Mul, Add, Sub, Xor, Rotl64, XorShift33, Stir, Unstir;
    var m1, m2 := MixK1(x.k1), MixK2(x.k2);
    XorLaws(s.h2, m2);
    RotlLaws(Xor(s.h2, m2));
    StirLaws(Rotl64(Xor(s.h2, m2), 31), BodyStep(s, x).h1, 0x38495ab5);
    XorLaws(s.h1, m1);
    RotlLaws27(Xor(s.h1, m1));
    StirLaws(Rotl64(Xor(s.h1, m1), 27), s.h2, 0x52dce729);
  }

  lemma StepUnstep(t: State, x: Lane)
    ensures BodyStep(UnstepState(t, x), x) == t
  {
    hide Mul, Add, Sub, Xor, Rotl64, XorShift33, Stir, Unstir;
    var m1, m2 := MixK1(x.k1), MixK2(x.k2);
    var h2 := UnstepState(t, x).h2;
    StirLaws(t.h2, t.h1, 0x38495ab5);
    RotlLaws(Unstir(t.h2, t.h1, 0x38495ab5));
    XorLaws(Before2(t), m2);
    StirLaws(t.h1, h2, 0x52dce729);
    RotlLaws27(Unstir(t.h1, h2, 0x52dce729));
    XorLaws(Before1(t, h2), m1);
  }

  /** For a fixed lane, the body step is a permutation of the state. */
  lemma StepPermutesStates(s: State, x: Lane, t: State)
    ensures BodyStep(s, x) == t <==> s == UnstepState(t, x)
  {
    hide *;
    UnstepStep(s, x);
    StepUnstep(t, x);
  }

  /** For a fixed state, the body step is a bijection from lanes to states. */
  lemma StepPermutesLanes(s: State, x: Lane, t: State)
    ensures BodyStep(s, x) == t <==> x == StepLane(s, t)
  {
    hide Mul, Add, Sub, Xor, Rotl64, XorShift33, Stir, Unstir;
    var m1, m2 := MixK1(x.k1), MixK2(x.k2);
    StepPermutesStates(s, x, t);
    MixK1Permutes(x.k1, Xor(s.h1, Before1(t, s.h2)));
    MixK2Permutes(x.k2, Xor(s.h2, Before2(t)));
    XorLaws(s.h1, m1);
    XorLaws(s.h2, m2);
    XorLaws(s.h1, Before1(t, s.h2));
    XorLaws(s.h2, Before2(t));
    XorLaws(Before1(t, s.h2), m1);
    XorLaws(Before2(t), m2);
    StepUndone(s, x, t);
  }

  lemma StepUndone(s: State, x: Lane, t: State)
    ensures s == UnstepState(t, x)
      <==> Xor(s.h1, MixK1(x.k1)) == Before1(t, s.h2) && Xor(s.h2, MixK2(x.k2)) == Before2(t)
  {
    hide Mul, Add, Sub, Xor, Rotl64, XorShift33, Stir, Unstir;
    var m1, m2 := MixK1(x.k1), MixK2(x.k2);
    XorLaws(s.h1, m1);
    XorLaws(s.h2, m2);
    XorLaws(Before1(t, s.h2), m1);
    XorLaws(Before2(t), m2);
  }

  lemma TailPermutesStates(s: State, x: Lane, t: State)
    ensures TailStep(s, x) == t <==> s == UntailState(t, x)
  {
    hide Mul, Add, Sub, Xor, Rotl64, XorShift33, Stir, Unstir;
    XorLaws(s.h1, MixK1(x.k1));
    XorLaws(s.h2, MixK2(x.k2));
    XorLaws(t.h1, MixK1(x.k1));
    XorLaws(t.h2, MixK2(x.k2));
  }

  lemma TailPermutesLanes(s: State, x: Lane, t: State)
    ensures TailStep(s, x) == t <==> x == TailLane(s, t)
  {
    hide Mul, Add, Sub, Xor, Rotl64, XorShift33, Stir, Unstir;
    MixK1Permutes(x.k1, Xor(s.h1, t.h1));
    MixK2Permutes(x.k2, Xor(s.h2, t.h2));
    XorLaws(s.h1, MixK1(x.k1));
    XorLaws(s.h2, MixK2(x.k2));
    XorLaws(s.h1, t.h1);
    XorLaws(s.h2, t.h2);
  }
}
