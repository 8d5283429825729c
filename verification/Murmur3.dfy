/**
 MurmurHash3_x64_128 on byte strings: the loop of the source, its value as a function of the key, and
 the no-collision theorems that follow from the permutations of `Murmur3Mix`.
 */
module Murmur3 {
  import opened Bytes
  import opened Folds
  import opened Murmur3Mix

  // ---------- The hash as a function ----------

  function LaneAt(b: seq<Byte>): Lane
    requires |b| == 16
  {
    Lane(Load64(b[..8]), Load64(b[8..]))
  }

  function LaneBytes(x: Lane): (b: seq<Byte>)
    ensures |b| == 16
  {
    Store64(x.k1) + Store64(x.k2)
  }

  /** The tail as a lane: zero-padded on the right. */
  function PaddedLane(t: seq<Byte>): Lane
    requires |t| < 16
  {
    LaneAt(t + Zeros(16 - |t|))
  }

  function Seeded(seed: bv32): State { State(seed as bv64, seed as bv64) }

  /** The length as the word that finalization xors in. */
  function LenWord(n: nat): bv64
    requires n < 0x8000_0000
  {
    LengthWord(n) as bv64
  }

  function Hash(key: seq<Byte>, seed: bv32): State
    requires |key| < 0x8000_0000
  {
    Finalize(TailStep(Fold(BodyStep, Seeded(seed), Words(key, 16, LaneAt)), PaddedLane(Rest(key, 16))), LenWord(|key|))
  }

  /** The sixteen bytes written through `out`. */
  function Digest(key: seq<Byte>, seed: bv32): (d: seq<Byte>)
    requires |key| < 0x8000_0000
    ensures |d| == 16
  {
    var h := Hash(key, seed);
    LaneBytes(Lane(h.h1, h.h2))
  }

  // ---------- The source's loop computes it ----------

  /** A word moved up by `j` bytes: the shifts by 0, 8, ..., 56 of the tail switch. */
  function Up(w: bv64, j: nat): bv64
    requires j <= 8
  {
    if j == 0 then w
    else if j == 1 then w << 8
    else if j == 2 then w << 16
    else if j == 3 then w << 24
    else if j == 4 then w << 32
    else if j == 5 then w << 40
    else if j == 6 then w << 48
    else if j == 7 then w << 56
    else 0
  }

  /** A tail byte shifted to its position in the word. */
  function Placed(b: Byte, j: nat): bv64
    requires j < 8
  {
    Up(b as bv64, j)
  }

  /** The label `case i + 1` of the fall-through switch: taken by every tail that has a byte `i`. */
  function TailCase(k: bv64, t: seq<Byte>, i: nat): bv64
    requires i < 16
  {
    if |t| > i then Xor(k, Placed(t[i], i % 8)) else k
  }

  lemma PlacedZero(j: nat)
    requires j < 8
    ensures Placed(0, j) == 0
  {
  }

  lemma XorZero(k: bv64)
    ensures Xor(k, 0) == k
  {
  }

  /** Falling through the labels is xoring in the bytes of the zero-padded lane. */
  lemma TailCasePads(k: bv64, t: seq<Byte>, i: nat)
    requires |t| < 16 && i < 16
    ensures TailCase(k, t, i) == Xor(k, Placed((t + Zeros(16 - |t|))[i], i % 8))
  {
    hide Xor, Up, Placed;
    PlacedZero(i % 8);
    XorZero(k);
  }

  /** Xoring a byte in below bytes already moved up is pushing it onto them. */
  lemma XorPushes7(w: bv64, b: Byte)
    ensures Xor(Up(w, 8), Placed(b, 7)) == Up(Push(w, b), 7)
  {
  }

  lemma XorPushes6(w: bv64, b: Byte)
    ensures Xor(Up(w, 7), Placed(b, 6)) == Up(Push(w, b), 6)
  {
  }

  lemma XorPushes5(w: bv64, b: Byte)
    ensures Xor(Up(w, 6), Placed(b, 5)) == Up(Push(w, b), 5)
  {
  }

  lemma XorPushes4(w: bv64, b: Byte)
    ensures Xor(Up(w, 5), Placed(b, 4)) == Up(Push(w, b), 4)
  {
  }

  lemma XorPushes3(w: bv64, b: Byte)
    ensures Xor(Up(w, 4), Placed(b, 3)) == Up(Push(w, b), 3)
  {
  }

  lemma XorPushes2(w: bv64, b: Byte)
    ensures Xor(Up(w, 3), Placed(b, 2)) == Up(Push(w, b), 2)
  {
  }

  lemma XorPushes1(w: bv64, b: Byte)
    ensures Xor(Up(w, 2), Placed(b, 1)) == Up(Push(w, b), 1)
  {
  }

  lemma XorPushes0(w: bv64, b: Byte)
    ensures Xor(Up(w, 1), Placed(b, 0)) == Up(Push(w, b), 0)
  {
  }

  lemma XorsLoad(b: seq<Byte>)
    requires |b| == 8
    ensures Xor(Xor(Xor(Xor(Xor(Xor(Xor(Xor(0, Placed(b[7], 7)), Placed(b[6], 6)), Placed(b[5], 5)),
                Placed(b[4], 4)), Placed(b[3], 3)), Placed(b[2], 2)), Placed(b[1], 1)),
                Placed(b[0], 0)) == Load64(b)
  {
    hide Xor, Up, Placed, Push;
    UpNothing(0);
    XorPushes7(0, b[7]);
    var w7 := Push(0, b[7]);
    XorPushes6(w7, b[6]);
    var w6 := Push(w7, b[6]);
    XorPushes5(w6, b[5]);
    var w5 := Push(w6, b[5]);
    XorPushes4(w5, b[4]);
    var w4 := Push(w5, b[4]);
    XorPushes3(w4, b[3]);
    var w3 := Push(w4, b[3]);
    XorPushes2(w3, b[2]);
    var w2 := Push(w3, b[2]);
    XorPushes1(w2, b[1]);
    var w1 := Push(w2, b[1]);
    XorPushes0(w1, b[0]);
    UpNothing(Push(w1, b[0]));
  }

  lemma UpNothing(w: bv64)
    ensures Up(w, 0) == w && Up(w, 8) == 0
  {
  }

  lemma MixesKeepZero()
    ensures MixK1(0) == 0 && MixK2(0) == 0
  {
  }

  lemma TailWord1(t: seq<Byte>)
    requires |t| < 16
    ensures TailCase(TailCase(TailCase(TailCase(TailCase(TailCase(TailCase(TailCase(0,
              t, 7), t, 6), t, 5), t, 4), t, 3), t, 2), t, 1), t, 0) == PaddedLane(t).k1
  {
    hide Xor, Up, Placed, Load64;
    var p := t + Zeros(16 - |t|);
    forall k: bv64, i: nat | i < 16
      ensures TailCase(k, t, i) == Xor(k, Placed(p[i], i % 8))
    {
      TailCasePads(k, t, i);
    }
    assert p[..8] == [p[0], p[1], p[2], p[3], p[4], p[5], p[6], p[7]];
    XorsLoad(p[..8]);
  }

  lemma TailWord2(t: seq<Byte>)
    requires |t| < 16
    ensures TailCase(TailCase(TailCase(TailCase(TailCase(TailCase(TailCase(0,
              t, 14), t, 13), t, 12), t, 11), t, 10), t, 9), t, 8) == PaddedLane(t).k2
  {
    hide Xor, Up, Placed, Load64;
    var p := t + Zeros(16 - |t|);
    forall k: bv64, i: nat | i < 16
      ensures TailCase(k, t, i) == Xor(k, Placed(p[i], i % 8))
    {
      TailCasePads(k, t, i);
    }
    assert p[8..] == [p[8], p[9], p[10], p[11], p[12], p[13], p[14], 0];
    PlacedZero(7);
    XorZero(0);
    XorsLoad(p[8..]);
  }

  /** The switch over `len & 15`: the tail is mixed in as one zero-padded lane. */
  method TailSwitch(h1: bv64, h2: bv64, t: seq<Byte>) returns (r1: bv64, r2: bv64)
    requires |t| < 16
    ensures State(r1, r2) == TailStep(State(h1, h2), PaddedLane(t))
  {
    hide Xor, Mul, Rotl64, Placed, Load64, MixK1, MixK2;
    var k1: bv64, k2: bv64 := 0, 0;
    r1, r2 := h1, h2;

    k2 := TailCase(k2, t, 14);
    k2 := TailCase(k2, t, 13);
    k2 := TailCase(k2, t, 12);
    k2 := TailCase(k2, t, 11);
    k2 := TailCase(k2, t, 10);
    k2 := TailCase(k2, t, 9);
    k2 := TailCase(k2, t, 8);
    TailWord2(t);
    MixesKeepZero();
    XorZero(r2);
    if |t| >= 9 {
      k2 := MixK2(k2);
      r2 := Xor(r2, k2);
    }

    k1 := TailCase(k1, t, 7);
    k1 := TailCase(k1, t, 6);
    k1 := TailCase(k1, t, 5);
    k1 := TailCase(k1, t, 4);
    k1 := TailCase(k1, t, 3);
    k1 := TailCase(k1, t, 2);
    k1 := TailCase(k1, t, 1);
    k1 := TailCase(k1, t, 0);
    TailWord1(t);
    XorZero(r1);
    if |t| >= 1 {
      k1 := MixK1(k1);
      r1 := Xor(r1, k1);
    }
  }

  /** `((uint64_t*)out)[at / 8] = w` */
  method StoreWord(out: array<Byte>, at: nat, w: bv64)
    requires at + 8 <= out.Length
    modifies out
    ensures out[at..at + 8] == Store64(w)
    ensures forall j :: 0 <= j < out.Length && !(at <= j < at + 8) ==> out[j] == old(out[j])
  {
    hide Store64;
    var b := Store64(w);
    forall j | 0 <= j < 8 {
      out[at + j] := b[j];
    }
  }

  lemma LaneInKey(key: seq<Byte>, at: nat)
    requires at + 16 <= |key|
    ensures LaneAt(key[at..at + 16]) == Lane(Load64(key[at..at + 8]), Load64(key[at + 8..at + 16]))
  {
    hide Load64;
    assert key[at..at + 16][..8] == key[at..at + 8] && key[at..at + 16][8..] == key[at + 8..at + 16];
  }

  /** The body loop, the tail and the finalization of the source. */
  method Accumulate(key: seq<Byte>, seed: bv32) returns (h1: bv64, h2: bv64)
    requires |key| < 0x8000_0000
    ensures State(h1, h2) == Hash(key, seed)
  {
    hide Fold, Words, Rest, LaneAt, LenWord, Xor, Mul, Add, Rotl64, Load64, Stir, MixK1, MixK2, Fmix64, TailStep, PaddedLane;
    var nblocks := |key| / 16;
    h1, h2 := seed as bv64, seed as bv64;
    ghost var lanes := Fold(BodyStep, Seeded(seed), Words(key, 16, LaneAt));
    assert key[0..] == key;

    var i := 0;
    while i < nblocks
      invariant 0 <= i <= nblocks
      invariant Fold(BodyStep, State(h1, h2), Words(key[16 * i..], 16, LaneAt)) == lanes
      invariant Rest(key[16 * i..], 16) == Rest(key, 16)
    {
      NextWord(BodyStep, State(h1, h2), key, 16 * i, 16, LaneAt);
      var k1, k2 := Load64(key[16 * i..16 * i + 8]), Load64(key[16 * i + 8..16 * i + 16]);
      LaneInKey(key, 16 * i);
      ghost var s, x := State(h1, h2), Lane(k1, k2);

      k1 := MixK1(k1);
      h1 := Xor(h1, k1);
      h1 := Rotl64(h1, 27);
      h1 := Stir(h1, h2, 0x52dce729);

      k2 := MixK2(k2);
      h2 := Xor(h2, k2);
      h2 := Rotl64(h2, 31);
      h2 := Stir(h2, h1, 0x38495ab5);
      assert State(h1, h2) == BodyStep(s, x);
      i := i + 1;
    }
    NothingLeft(BodyStep, State(h1, h2), key, 16 * nblocks, 16, LaneAt);

    h1, h2 := TailSwitch(h1, h2, key[16 * nblocks..]);

    var len := LenWord(|key|);
    h1 := Xor(h1, len);
    h2 := Xor(h2, len);
    h1 := Add(h1, h2);
    h2 := Add(h2, h1);
    h1 := Fmix64(h1);
    h2 := Fmix64(h2);
    h1 := Add(h1, h2);
    h2 := Add(h2, h1);
  }

  /** The digest is written through `out`, and nothing beyond its sixteen bytes. */
  method MurmurHash3_x64_128(key: seq<Byte>, seed: bv32, out: array<Byte>)
    requires |key| < 0x8000_0000
    requires out.Length >= 16
    modifies out
    ensures out[..16] == Digest(key, seed)
    ensures forall j :: 16 <= j < out.Length ==> out[j] == old(out[j])
  {
    hide Hash, Store64;
    var h1, h2 := Accumulate(key, seed);
    StoreWord(out, 0, h1);
    StoreWord(out, 8, h2);
    assert out[..16] == out[..8] + out[8..16];
  }

  // ---------- No collisions ----------

  /** Sixteen bytes and a lane determine each other. */
  lemma LaneRoundTrip(b: seq<Byte>, x: Lane)
    requires |b| == 16
    ensures LaneAt(b) == x <==> b == LaneBytes(x)
  {
    hide Load64, Store64;
    StoreLoad64(b[..8]);
    StoreLoad64(b[8..]);
    assert b == b[..8] + b[8..];
    LoadStore64(x.k1);
    LoadStore64(x.k2);
    assert LaneBytes(x)[..8] == Store64(x.k1) && LaneBytes(x)[8..] == Store64(x.k2);
  }

  lemma BodyStepUndone()
    ensures Undoes(BodyStep, UnstepState)
  {
    hide BodyStep, UnstepState;
    forall s: State, x: Lane, t: State
      ensures BodyStep(s, x) == t <==> s == UnstepState(t, x)
    {
      StepPermutesStates(s, x, t);
    }
  }

  lemma BodyStepSolved()
    ensures Solves(BodyStep, StepLane)
  {
    hide BodyStep, StepLane;
    forall s: State, x: Lane, t: State
      ensures BodyStep(s, x) == t <==> x == StepLane(s, t)
    {
      StepPermutesLanes(s, x, t);
    }
  }

  /** What the body loop must have left for digest `d`. */
  function BeforeTail(len: nat, t: seq<Byte>, d: State): State
    requires len < 0x8000_0000 && |t| < 16
  {
    UntailState(Unfinalize(d, LenWord(len)), PaddedLane(t))
  }

  lemma HashFromBody(key: seq<Byte>, seed: bv32, d: State)
    requires |key| < 0x8000_0000
    ensures Hash(key, seed) == d
       <==> Fold(BodyStep, Seeded(seed), Words(key, 16, LaneAt)) == BeforeTail(|key|, Rest(key, 16), d)
  {
    hide LenWord, TailStep, UntailState, Finalize, Unfinalize, Words, PaddedLane, Seeded, Rest, Fold;
    var s := Fold(BodyStep, Seeded(seed), Words(key, 16, LaneAt));
    var x := PaddedLane(Rest(key, 16));
    FinalizePermutes(TailStep(s, x), LenWord(|key|), d);
    TailPermutesStates(s, x, Unfinalize(d, LenWord(|key|)));
  }

  /** The one lane that, between `pre` and `suf`, gives digest `d`. */
  function SolveLane(pre: seq<Byte>, suf: seq<Byte>, seed: bv32, d: State): seq<Byte>
    requires |pre| + 16 + |suf| < 0x8000_0000
  {
    var before := Fold(BodyStep, Seeded(seed), Words(pre, 16, LaneAt));
    var after := Unfold(UnstepState, BeforeTail(|pre| + 16 + |suf|, Rest(suf, 16), d), Words(suf, 16, LaneAt));
    LaneBytes(StepLane(before, after))
  }

  /**
   For a fixed prefix of whole lanes, a fixed suffix and a fixed seed, the hash is a bijection from one
   16-byte lane to the 128-bit digests: every digest has exactly one preimage, and it can be computed.
   */
  lemma LaneBijection(pre: seq<Byte>, lane: seq<Byte>, suf: seq<Byte>, seed: bv32, d: State)
    requires |pre| % 16 == 0 && |lane| == 16 && |pre| + 16 + |suf| < 0x8000_0000
    ensures Hash(pre + lane + suf, seed) == d <==> lane == SolveLane(pre, suf, seed, d)
  {
    hide Hash, BeforeTail, BodyStep, UnstepState, StepLane, LaneAt, LaneBytes, Words, Rest, Seeded;
    var key := pre + lane + suf;
    WordsAround(pre, lane, suf, 16, LaneAt);
    HashFromBody(key, seed, d);
    BodyStepUndone();
    BodyStepSolved();
    var target := BeforeTail(|key|, Rest(suf, 16), d);
    OneWordDecides(BodyStep, UnstepState, StepLane, Seeded(seed), Words(pre, 16, LaneAt), LaneAt(lane), Words(suf, 16, LaneAt), target);
    var after := Unfold(UnstepState, target, Words(suf, 16, LaneAt));
    LaneRoundTrip(lane, StepLane(Fold(BodyStep, Seeded(seed), Words(pre, 16, LaneAt)), after));
  }

  /** Keys of one length that differ in a single aligned lane have different digests. */
  lemma OneLaneNeverCollides(pre: seq<Byte>, a: seq<Byte>, b: seq<Byte>, suf: seq<Byte>, seed: bv32)
    requires |pre| % 16 == 0 && |a| == |b| == 16 && |pre| + 16 + |suf| < 0x8000_0000
    ensures Digest(pre + a + suf, seed) == Digest(pre + b + suf, seed) ==> a == b
  {
    hide Hash, SolveLane, LaneBytes;
    DigestFromHash(pre + a + suf, seed);
    DigestFromHash(pre + b + suf, seed);
    LaneBijection(pre, a, suf, seed, Hash(pre + a + suf, seed));
    LaneBijection(pre, b, suf, seed, Hash(pre + a + suf, seed));
  }

  lemma DigestFromHash(key: seq<Byte>, seed: bv32)
    requires |key| < 0x8000_0000
    ensures LaneAt(Digest(key, seed)) == Lane(Hash(key, seed).h1, Hash(key, seed).h2)
  {
    hide Hash, LaneAt, LaneBytes;
    LaneRoundTrip(Digest(key, seed), Lane(Hash(key, seed).h1, Hash(key, seed).h2));
  }

  lemma HashOfTail(pre: seq<Byte>, t: seq<Byte>, seed: bv32, d: State)
    requires |pre| % 16 == 0 && |t| < 16 && |pre| + |t| < 0x8000_0000
    ensures Hash(pre + t, seed) == d
      ==> PaddedLane(t) == TailLane(Fold(BodyStep, Seeded(seed), Words(pre, 16, LaneAt)), Unfinalize(d, LenWord(|pre| + |t|)))
  {
    hide LenWord, Finalize, Unfinalize, TailStep, TailLane, PaddedLane, Seeded, Words, Rest, Fold;
    WordsBefore(pre, t, 16, LaneAt);
    var s := Fold(BodyStep, Seeded(seed), Words(pre, 16, LaneAt));
    var len := LenWord(|pre| + |t|);
    FinalizePermutes(TailStep(s, PaddedLane(t)), len, d);
    TailPermutesLanes(s, PaddedLane(t), Unfinalize(d, len));
  }

  lemma PaddedLaneInjective(a: seq<Byte>, b: seq<Byte>)
    requires |a| == |b| < 16
    ensures PaddedLane(a) == PaddedLane(b) ==> a == b
  {
    hide LaneAt, LaneBytes;
    var p, q := a + Zeros(16 - |a|), b + Zeros(16 - |b|);
    LaneRoundTrip(p, PaddedLane(a));
    LaneRoundTrip(q, PaddedLane(a));
    assert p[..|a|] == a && q[..|b|] == b;
  }

  /** Keys of one length that differ only in the last `len % 16` bytes have different digests. */
  lemma TailNeverCollides(pre: seq<Byte>, a: seq<Byte>, b: seq<Byte>, seed: bv32)
    requires |pre| % 16 == 0 && |a| == |b| < 16 && |pre| + |a| < 0x8000_0000
    ensures Digest(pre + a, seed) == Digest(pre + b, seed) ==> a == b
  {
    hide Hash, PaddedLane, TailLane, Fold, Words, Seeded, Unfinalize, LaneAt, LaneBytes, LenWord, Digest;
    DigestFromHash(pre + a, seed);
    DigestFromHash(pre + b, seed);
    HashOfTail(pre, a, seed, Hash(pre + a, seed));
    HashOfTail(pre, b, seed, Hash(pre + a, seed));
    PaddedLaneInjective(a, b);
  }

  /** The tail padded by hand is the same lane. */
  lemma SamePadding(t: seq<Byte>, z: nat)
    requires |t| + z < 16
    ensures PaddedLane(t + Zeros(z)) == PaddedLane(t)
  {
    hide LaneAt;
    assert t + Zeros(z) + Zeros(16 - |t| - z) == t + Zeros(16 - |t|);
  }

  /** Zeros appended within the last lane change the digest, by the length alone. */
  lemma AppendedZerosNeverCollide(pre: seq<Byte>, t: seq<Byte>, z: nat, seed: bv32)
    requires |pre| % 16 == 0 && 0 < z && |t| + z < 16 && |pre| + |t| + z < 0x8000_0000
    ensures Digest(pre + t + Zeros(z), seed) != Digest(pre + t, seed)
  {
    hide PaddedLane, Fold, Words, Rest, Seeded, LaneAt, LaneBytes, Digest, TailStep, Finalize, LengthWord;
    var u := t + Zeros(z);
    assert pre + t + Zeros(z) == pre + u;
    DigestFromHash(pre + t, seed);
    DigestFromHash(pre + u, seed);
    WordsBefore(pre, t, 16, LaneAt);
    WordsBefore(pre, u, 16, LaneAt);
    SamePadding(t, z);
    NearLengthsDiffer(|pre + t|, z);
    var s := TailStep(Fold(BodyStep, Seeded(seed), Words(pre, 16, LaneAt)), PaddedLane(t));
    FinalizeTellsLengths(s, LenWord(|pre + t|), LenWord(|pre + u|));
    WordsOfWords(LengthWord(|pre + t|), LengthWord(|pre + u|));
  }

  lemma WordsOfWords(a: bv32, b: bv32)
    ensures a as bv64 == b as bv64 ==> a == b
  {
    assert (a as bv64) as bv32 == a && (b as bv64) as bv32 == b;
  }

  /** One key under two seeds never has one digest. */
  lemma SeedsNeverCollide(key: seq<Byte>, seed: bv32, seed': bv32)
    requires |key| < 0x8000_0000
    ensures Digest(key, seed) == Digest(key, seed') ==> seed == seed'
  {
    hide Hash, LaneAt, LaneBytes, BeforeTail, BodyStep, UnstepState, Words, Rest;
    DigestFromHash(key, seed);
    DigestFromHash(key, seed');
    var d := Hash(key, seed);
    HashFromBody(key, seed, d);
    HashFromBody(key, seed', d);
    BodyStepUndone();
    FoldPermutes(BodyStep, UnstepState, Seeded(seed), Words(key, 16, LaneAt), BeforeTail(|key|, Rest(key, 16), d));
    FoldPermutes(BodyStep, UnstepState, Seeded(seed'), Words(key, 16, LaneAt), BeforeTail(|key|, Rest(key, 16), d));
    assert (seed as bv64) as bv32 == seed && (seed' as bv64) as bv32 == seed';
  }
}
