/**
 MurmurHash3_x86_32 and MurmurHash3_x86_128 on byte strings: the loops of the source with their negative
 index, their values as functions of the key, and no-collision theorems.
 */
module Murmur3x86 {
  import opened Bytes
  import opened Folds
  import opened Murmur3Mix32

  // ---------- The hashes as functions ----------

  function LaneAt4(b: seq<Byte>): Lane4
    requires |b| == 16
  {
    Lane4(Load32(b[..4]), Load32(b[4..8]), Load32(b[8..12]), Load32(b[12..]))
  }

  function LaneBytes4(x: Lane4): (b: seq<Byte>)
    ensures |b| == 16
  {
    Store32(x.k1) + Store32(x.k2) + Store32(x.k3) + Store32(x.k4)
  }

  /** The tail as a word: zero-padded on the right. */
  function PaddedWord(t: seq<Byte>): bv32
    requires |t| < 4
  {
    Load32(t + Zeros(4 - |t|))
  }

  /** The tail as a lane: zero-padded on the right. */
  function PaddedLane4(t: seq<Byte>): Lane4
    requires |t| < 16
  {
    LaneAt4(t + Zeros(16 - |t|))
  }

  function Hash32(key: seq<Byte>, seed: bv32): bv32
    requires |key| < 0x8000_0000
  {
    Fmix32(Xor(Xor(Fold(WordStep, seed, Words(key, 4, Load32)), MixBlock(PaddedWord(Rest(key, 4)))), LengthWord(|key|)))
  }

  function Seeded4(seed: bv32): State4 { State4(seed, seed, seed, seed) }

  function Hash128(key: seq<Byte>, seed: bv32): State4
    requires |key| < 0x8000_0000
  {
    Finalize4(Tail4(Fold(Step4, Seeded4(seed), Words(key, 16, LaneAt4)), PaddedLane4(Rest(key, 16))), LengthWord(|key|))
  }

  // ---------- The tails ----------

  /** A tail byte shifted to its position in a word. */
  function Placed32(b: Byte, j: nat): bv32
    requires j < 4
  {
    if j == 0 then b as bv32
    else if j == 1 then (b as bv32) << 8
    else if j == 2 then (b as bv32) << 16
    else (b as bv32) << 24
  }

  /** The label `case i + 1` of a fall-through switch: taken by every tail that has a byte `i`. */
  function TailCase32(k: bv32, t: seq<Byte>, i: nat): bv32
    requires i < 16
  {
    if |t| > i then Xor(k, Placed32(t[i], i % 4)) else k
  }

  lemma XorZero32(k: bv32)
    ensures Xor(k, 0) == k
  {
  }

  lemma PlacedZero32(j: nat)
    requires j < 4
    ensures Placed32(0, j) == 0
  {
  }

  lemma MixesKeepZero32()
    ensures MixBlock(0) == 0 && Mix1(0) == 0 && Mix2(0) == 0 && Mix3(0) == 0 && Mix4(0) == 0
  {
  }

  /** Xoring a byte in below bytes that are already in place. */
  lemma XorJoins3(b: Byte)
    ensures Xor(0, Placed32(b, 3)) == Join32(0, 0, 0, b)
  {
  }

  lemma XorJoins2(b: Byte, b3: Byte)
    ensures Xor(Join32(0, 0, 0, b3), Placed32(b, 2)) == Join32(0, 0, b, b3)
  {
  }

  lemma XorJoins1(b: Byte, b2: Byte, b3: Byte)
    ensures Xor(Join32(0, 0, b2, b3), Placed32(b, 1)) == Join32(0, b, b2, b3)
  {
  }

  lemma XorJoins0(b: Byte, b1: Byte, b2: Byte, b3: Byte)
    ensures Xor(Join32(0, b1, b2, b3), Placed32(b, 0)) == Join32(b, b1, b2, b3)
  {
  }

  lemma XorsJoin(b0: Byte, b1: Byte, b2: Byte, b3: Byte)
    ensures Xor(Xor(Xor(Xor(0, Placed32(b3, 3)), Placed32(b2, 2)), Placed32(b1, 1)), Placed32(b0, 0)) == Join32(b0, b1, b2, b3)
  {
    hide Xor, Placed32, Join32;
    XorJoins3(b3);
    XorJoins2(b2, b3);
    XorJoins1(b1, b2, b3);
    XorJoins0(b0, b1, b2, b3);
  }

  /** Falling through four labels loads a word of the zero-padded tail. */
  lemma FourCases(t: seq<Byte>, p: seq<Byte>, at: nat)
    requires |t| <= |p| && at % 4 == 0 && at + 4 <= |p| <= 16
    requires forall i :: 0 <= i < |p| ==> p[i] == if i < |t| then t[i] else 0
    ensures TailCase32(TailCase32(TailCase32(TailCase32(0, t, at + 3), t, at + 2), t, at + 1), t, at)
         == Load32(p[at..at + 4])
  {
    hide Xor, Placed32, Join32;
    forall k: bv32, i: nat | i < |p|
      ensures TailCase32(k, t, i) == Xor(k, Placed32(p[i], i % 4))
    {
      PlacedZero32(i % 4);
      XorZero32(k);
    }
    XorsJoin(p[at], p[at + 1], p[at + 2], p[at + 3]);
    assert p[at..at + 4] == [p[at], p[at + 1], p[at + 2], p[at + 3]];
  }

  /** The switch over `len & 3`. */
  method TailSwitch32(h1: bv32, t: seq<Byte>) returns (r1: bv32)
    requires |t| < 4
    ensures r1 == Xor(h1, MixBlock(PaddedWord(t)))
  {
    hide Xor, Placed32, Load32, MixBlock;
    ghost var p := t + Zeros(4 - |t|);
    var k1: bv32 := 0;
    k1 := TailCase32(k1, t, 2);
    k1 := TailCase32(k1, t, 1);
    k1 := TailCase32(k1, t, 0);
    FourCases(t, p, 0);
    assert p[0..4] == p;
    MixesKeepZero32();
    XorZero32(h1);
    r1 := h1;
    if |t| >= 1 {
      k1 := MixBlock(k1);
      r1 := Xor(r1, k1);
    }
  }

  lemma NoCase(k: bv32, t: seq<Byte>, i: nat)
    requires |t| <= i < 16
    ensures TailCase32(k, t, i) == k
  {
  }

  /** A word of the padded tail that starts behind the tail is mixed to nothing. */
  lemma ZeroWord(t: seq<Byte>, at: nat)
    requires |t| <= at && at + 4 <= 16 && at % 4 == 0
    ensures Load32((t + Zeros(16 - |t|))[at..at + 4]) == 0
  {
    hide Xor, Placed32, Load32, TailCase32;
    FourCases(t, t + Zeros(16 - |t|), at);
    NoCase(0, t, at + 3);
    NoCase(0, t, at + 2);
    NoCase(0, t, at + 1);
    NoCase(0, t, at);
  }

  /** The switch over `len & 15`. */
  method TailSwitch128(s: State4, t: seq<Byte>) returns (r: State4)
    requires |t| < 16
    ensures r == Tail4(s, PaddedLane4(t))
  {
    hide Xor, Placed32, Load32, TailCase32, Mix1, Mix2, Mix3, Mix4;
    ghost var p := t + Zeros(16 - |t|);
    assert p[0..4] == p[..4] && p[12..16] == p[12..];
    MixesKeepZero32();
    var k1: bv32, k2: bv32, k3: bv32, k4: bv32 := 0, 0, 0, 0;
    r := s;

    NoCase(0, t, 15);
    FourCases(t, p, 12);
    k4 := TailCase32(k4, t, 14);
    k4 := TailCase32(k4, t, 13);
    k4 := TailCase32(k4, t, 12);
    if |t| >= 13 {
      k4 := Mix4(k4);
      r := r.(h4 := Xor(r.h4, k4));
    } else {
      ZeroWord(t, 12);
      XorZero32(s.h4);
    }

    FourCases(t, p, 8);
    k3 := TailCase32(k3, t, 11);
    k3 := TailCase32(k3, t, 10);
    k3 := TailCase32(k3, t, 9);
    k3 := TailCase32(k3, t, 8);
    if |t| >= 9 {
      k3 := Mix3(k3);
      r := r.(h3 := Xor(r.h3, k3));
    } else {
      ZeroWord(t, 8);
      XorZero32(s.h3);
    }

    FourCases(t, p, 4);
    k2 := TailCase32(k2, t, 7);
    k2 := TailCase32(k2, t, 6);
    k2 := TailCase32(k2, t, 5);
    k2 := TailCase32(k2, t, 4);
    if |t| >= 5 {
      k2 := Mix2(k2);
      r := r.(h2 := Xor(r.h2, k2));
    } else {
      ZeroWord(t, 4);
      XorZero32(s.h2);
    }

    FourCases(t, p, 0);
    k1 := TailCase32(k1, t, 3);
    k1 := TailCase32(k1, t, 2);
    k1 := TailCase32(k1, t, 1);
    k1 := TailCase32(k1, t, 0);
    if |t| >= 1 {
      k1 := Mix1(k1);
      r := r.(h1 := Xor(r.h1, k1));
    } else {
      ZeroWord(t, 0);
      XorZero32(s.h1);
    }
  }

  // ---------- The loops ----------

  /** `((uint32_t*)out)[at / 4] = w` */
  method StoreWord32(out: array<Byte>, at: nat, w: bv32)
    requires at + 4 <= out.Length
    modifies out
    ensures out[at..at + 4] == Store32(w)
    ensures forall j :: 0 <= j < out.Length && !(at <= j < at + 4) ==> out[j] == old(out[j])
  {
    hide Store32;
    var b := Store32(w);
    forall j | 0 <= j < 4 {
      out[at + j] := b[j];
    }
  }

  /** The digest is written through `out`, and nothing beyond its four bytes. */
  method MurmurHash3_x86_32(key: seq<Byte>, seed: bv32, out: array<Byte>)
    requires |key| < 0x8000_0000 && out.Length >= 4
    modifies out
    ensures out[..4] == Store32(Hash32(key, seed))
    ensures forall j :: 4 <= j < out.Length ==> out[j] == old(out[j])
  {
    hide Hash32, Store32;
    var h1 := Accumulate32(key, seed);
    StoreWord32(out, 0, h1);
  }

  /** The digest is written through `out`, and nothing beyond its sixteen bytes. */
  method MurmurHash3_x86_128(key: seq<Byte>, seed: bv32, out: array<Byte>)
    requires |key| < 0x8000_0000 && out.Length >= 16
    modifies out
    ensures var h := Hash128(key, seed);
            out[..16] == LaneBytes4(Lane4(h.h1, h.h2, h.h3, h.h4))
    ensures forall j :: 16 <= j < out.Length ==> out[j] == old(out[j])
  {
    hide Hash128, Store32;
    var h := Accumulate128(key, seed);
    StoreWord32(out, 0, h.h1);
    StoreWord32(out, 4, h.h2);
    StoreWord32(out, 8, h.h3);
    StoreWord32(out, 12, h.h4);
    assert out[..16] == out[0..4] + out[4..8] + out[8..12] + out[12..16];
  }

  /** The loop counts a negative index up to zero, from the end of the last block. */
  method Accumulate32(key: seq<Byte>, seed: bv32) returns (h1: bv32)
    requires |key| < 0x8000_0000
    ensures h1 == Hash32(key, seed)
  {
    hide Fold, Words, Rest, LengthWord, Load32, Xor, Rotl32, Stir, MixBlock, Fmix32, PaddedWord;
    var nblocks := |key| / 4;
    var blocks := 4 * nblocks;
    h1 := seed;
    ghost var words := Fold(WordStep, seed, Words(key, 4, Load32));
    assert key[0..] == key;

    var i := -nblocks;
    while i != 0
      invariant -nblocks <= i <= 0
      invariant Fold(WordStep, h1, Words(key[blocks + 4 * i..], 4, Load32)) == words
      invariant Rest(key[blocks + 4 * i..], 4) == Rest(key, 4)
      decreases -i
    {
      var at := blocks + 4 * i;
      NextWord(WordStep, h1, key, at, 4, Load32);
      var k1 := Load32(key[at..at + 4]);
      ghost var s, x := h1, k1;
      k1 := MixBlock(k1);
      h1 := Xor(h1, k1);
      h1 := Rotl32(h1, 13);
      h1 := Stir(h1, 0, 0xe6546b64);
      assert h1 == WordStep(s, x);
      i := i + 1;
    }
    NothingLeft(WordStep, h1, key, blocks, 4, Load32);

    h1 := TailSwitch32(h1, key[blocks..]);

    h1 := Xor(h1, LengthWord(|key|));
    h1 := Fmix32(h1);
  }

  /** The same for four accumulators. */
  method Accumulate128(key: seq<Byte>, seed: bv32) returns (h: State4)
    requires |key| < 0x8000_0000
    ensures h == Hash128(key, seed)
  {
    hide Fold, Words, Rest, LaneAt4, LengthWord, Load32, Xor, Rotl32, Add, Stir, Mix1, Mix2, Mix3, Mix4, Finalize4, PaddedLane4, Tail4;
    var nblocks := |key| / 16;
    var blocks := 16 * nblocks;
    var h1, h2, h3, h4 := seed, seed, seed, seed;
    ghost var lanes := Fold(Step4, Seeded4(seed), Words(key, 16, LaneAt4));
    assert key[0..] == key;

    var i := -nblocks;
    while i != 0
      invariant -nblocks <= i <= 0
      invariant Fold(Step4, State4(h1, h2, h3, h4), Words(key[blocks + 16 * i..], 16, LaneAt4)) == lanes
      invariant Rest(key[blocks + 16 * i..], 16) == Rest(key, 16)
      decreases -i
    {
      var at := blocks + 16 * i;
      NextWord(Step4, State4(h1, h2, h3, h4), key, at, 16, LaneAt4);
      var k1, k2 := Load32(key[at..at + 4]), Load32(key[at + 4..at + 8]);
      var k3, k4 := Load32(key[at + 8..at + 12]), Load32(key[at + 12..at + 16]);
      LaneInKey(key, at);
      ghost var s, x := State4(h1, h2, h3, h4), Lane4(k1, k2, k3, k4);

      k1 := Mix1(k1);
      h1 := Xor(h1, k1);
      h1 := Rotl32(h1, 19);
      h1 := Stir(h1, h2, 0x561ccd1b);

      k2 := Mix2(k2);
      h2 := Xor(h2, k2);
      h2 := Rotl32(h2, 17);
      h2 := Stir(h2, h3, 0x0bcaa747);

      k3 := Mix3(k3);
      h3 := Xor(h3, k3);
      h3 := Rotl32(h3, 15);
      h3 := Stir(h3, h4, 0x96cd1c35);

      k4 := Mix4(k4);
      h4 := Xor(h4, k4);
      h4 := Rotl32(h4, 13);
      h4 := Stir(h4, h1, 0x32ac3b17);
      assert State4(h1, h2, h3, h4) == Step4(s, x);
      i := i + 1;
    }
    NothingLeft(Step4, State4(h1, h2, h3, h4), key, blocks, 16, LaneAt4);

    var t := TailSwitch128(State4(h1, h2, h3, h4), key[blocks..]);
    h1, h2, h3, h4 := t.h1, t.h2, t.h3, t.h4;

    h := Finalization128(h1, h2, h3, h4, LengthWord(|key|));
  }

  /** The finalization of MurmurHash3_x86_128. */
  method Finalization128(a1: bv32, a2: bv32, a3: bv32, a4: bv32, len: bv32) returns (h: State4)
    ensures h == Finalize4(State4(a1, a2, a3, a4), len)
  {
    hide Xor, Add, Fmix32;
    var h1, h2, h3, h4 := Xor(a1, len), Xor(a2, len), Xor(a3, len), Xor(a4, len);
    h1 := Add(h1, h2);
    h1 := Add(h1, h3);
    h1 := Add(h1, h4);
    h2, h3, h4 := Add(h2, h1), Add(h3, h1), Add(h4, h1);
    h1, h2, h3, h4 := Fmix32(h1), Fmix32(h2), Fmix32(h3), Fmix32(h4);
    h1 := Add(h1, h2);
    h1 := Add(h1, h3);
    h1 := Add(h1, h4);
    h2, h3, h4 := Add(h2, h1), Add(h3, h1), Add(h4, h1);
    h := State4(h1, h2, h3, h4);
  }

  lemma SliceOfSlice(s: seq<Byte>, i: nat, j: nat, k: nat, l: nat)
    requires i <= j <= |s| && k <= l <= j - i
    ensures s[i..j][k..l] == s[i + k..i + l]
  {
    assert forall m :: 0 <= m < l - k ==> s[i..j][k..l][m] == s[i + k..i + l][m];
  }

  lemma LaneInKey(key: seq<Byte>, at: nat)
    requires at + 16 <= |key|
    ensures LaneAt4(key[at..at + 16])
         == Lane4(Load32(key[at..at + 4]), Load32(key[at + 4..at + 8]), Load32(key[at + 8..at + 12]), Load32(key[at + 12..at + 16]))
  {
    hide Load32;
    var b := key[at..at + 16];
    SliceOfSlice(key, at, at + 16, 0, 4);
    SliceOfSlice(key, at, at + 16, 4, 8);
    SliceOfSlice(key, at, at + 16, 8, 12);
    SliceOfSlice(key, at, at + 16, 12, 16);
    assert b[0..4] == b[..4] && b[12..16] == b[12..];
  }

  // ---------- No collisions: x86_32 ----------

  lemma WordStepUndone()
    ensures Undoes(WordStep, UnstepWord)
  {
    hide WordStep, UnstepWord, StepBlock;
    forall h: bv32, k: bv32, t: bv32
      ensures WordStep(h, k) == t <==> h == UnstepWord(t, k)
    {
      WordStepPermutes(h, k, t);
    }
  }

  lemma WordStepSolved()
    ensures Solves(WordStep, StepBlock)
  {
    hide WordStep, UnstepWord, StepBlock;
    forall h: bv32, k: bv32, t: bv32
      ensures WordStep(h, k) == t <==> k == StepBlock(h, t)
    {
      WordStepPermutes(h, k, t);
    }
  }

  /** What the body loop must have left for digest `d`. */
  function BeforeTail32(len: nat, t: seq<Byte>, d: bv32): bv32
    requires len < 0x8000_0000 && |t| < 4
  {
    Xor(Xor(Unfmix32(d), LengthWord(len)), MixBlock(PaddedWord(t)))
  }

  lemma Hash32FromBody(key: seq<Byte>, seed: bv32, d: bv32)
    requires |key| < 0x8000_0000
    ensures Hash32(key, seed) == d <==> Fold(WordStep, seed, Words(key, 4, Load32)) == BeforeTail32(|key|, Rest(key, 4), d)
  {
    hide Fmix32, Unfmix32, Xor, MixBlock, PaddedWord, LengthWord, Words, Fold, Rest;
    var h := Fold(WordStep, seed, Words(key, 4, Load32));
    var m := MixBlock(PaddedWord(Rest(key, 4)));
    FmixPermutes(Xor(Xor(h, m), LengthWord(|key|)), d);
    XorLaw(Xor(h, m), LengthWord(|key|), Unfmix32(d));
    XorLaw(h, m, Xor(Unfmix32(d), LengthWord(|key|)));
  }

  /** The one block that, between `pre` and `suf`, gives digest `d`. */
  function SolveBlock(pre: seq<Byte>, suf: seq<Byte>, seed: bv32, d: bv32): seq<Byte>
    requires |pre| + 4 + |suf| < 0x8000_0000
  {
    var before := Fold(WordStep, seed, Words(pre, 4, Load32));
    var after := Unfold(UnstepWord, BeforeTail32(|pre| + 4 + |suf|, Rest(suf, 4), d), Words(suf, 4, Load32));
    Store32(StepBlock(before, after))
  }

  /** Between fixed bytes, x86_32 is a bijection from one aligned 4-byte block to the digests. */
  lemma BlockBijection(pre: seq<Byte>, block: seq<Byte>, suf: seq<Byte>, seed: bv32, d: bv32)
    requires |pre| % 4 == 0 && |block| == 4 && |pre| + 4 + |suf| < 0x8000_0000
    ensures Hash32(pre + block + suf, seed) == d <==> block == SolveBlock(pre, suf, seed, d)
  {
    hide Hash32, BeforeTail32, WordStep, UnstepWord, StepBlock, Load32, Words, Rest;
    var key := pre + block + suf;
    WordsAround(pre, block, suf, 4, Load32);
    Hash32FromBody(key, seed, d);
    WordStepUndone();
    WordStepSolved();
    var target := BeforeTail32(|key|, Rest(suf, 4), d);
    OneWordDecides(WordStep, UnstepWord, StepBlock, seed, Words(pre, 4, Load32), Load32(block), Words(suf, 4, Load32), target);
    var after := Unfold(UnstepWord, target, Words(suf, 4, Load32));
    Word32RoundTrip(block, StepBlock(Fold(WordStep, seed, Words(pre, 4, Load32)), after));
  }

  lemma PaddedWordInjective(a: seq<Byte>, b: seq<Byte>)
    requires |a| == |b| < 4
    ensures PaddedWord(a) == PaddedWord(b) ==> a == b
  {
    hide Load32, Store32;
    var p, q := a + Zeros(4 - |a|), b + Zeros(4 - |b|);
    Word32RoundTrip(p, PaddedWord(a));
    Word32RoundTrip(q, PaddedWord(a));
    assert p[..|a|] == a && q[..|b|] == b;
  }

  /** Keys of one length that differ only in the last `len % 4` bytes have different x86_32 digests. */
  lemma Tail32NeverCollides(pre: seq<Byte>, a: seq<Byte>, b: seq<Byte>, seed: bv32)
    requires |pre| % 4 == 0 && |a| == |b| < 4 && |pre| + |a| < 0x8000_0000
    ensures Hash32(pre + a, seed) == Hash32(pre + b, seed) ==> a == b
  {
    hide Fmix32, Xor, MixBlock, PaddedWord, LengthWord, Words, Fold, Rest, WordStep, Unfmix32, UnmixBlock;
    WordsBefore(pre, a, 4, Load32);
    WordsBefore(pre, b, 4, Load32);
    var h, len := Fold(WordStep, seed, Words(pre, 4, Load32)), LengthWord(|pre| + |a|);
    var d := Hash32(pre + a, seed);
    TailOfDigest32(h, PaddedWord(a), len, d);
    TailOfDigest32(h, PaddedWord(b), len, d);
    PaddedWordInjective(a, b);
  }

  lemma TailOfDigest32(h: bv32, k: bv32, len: bv32, d: bv32)
    ensures Fmix32(Xor(Xor(h, MixBlock(k)), len)) == d <==> k == UnmixBlock(Xor(h, Xor(Unfmix32(d), len)))
  {
    hide Fmix32, Unfmix32, Xor, MixBlock, UnmixBlock;
    FmixPermutes(Xor(Xor(h, MixBlock(k)), len), d);
    XorLaw(Xor(h, MixBlock(k)), len, Unfmix32(d));
    XorLaw(h, MixBlock(k), Xor(Unfmix32(d), len));
    MixBlockPermutes(k, Xor(h, Xor(Unfmix32(d), len)));
  }

  /** Zeros appended within the last block change the x86_32 digest, by the length alone. */
  lemma AppendedZeros32NeverCollide(pre: seq<Byte>, t: seq<Byte>, z: nat, seed: bv32)
    requires |pre| % 4 == 0 && 0 < z && |t| + z < 4 && |pre| + |t| + z < 0x8000_0000
    ensures Hash32(pre + t + Zeros(z), seed) != Hash32(pre + t, seed)
  {
    hide Fmix32, Unfmix32, Xor, MixBlock, PaddedWord, LengthWord, Words, Fold, Rest, WordStep, Load32;
    var u := t + Zeros(z);
    assert pre + t + Zeros(z) == pre + u;
    WordsBefore(pre, t, 4, Load32);
    WordsBefore(pre, u, 4, Load32);
    assert PaddedWord(u) == PaddedWord(t) by {
      SamePaddedWord(t, z);
    }
    NearLengthsDiffer(|pre + t|, z);
    var d := Hash32(pre + t, seed);
    var x := Xor(Fold(WordStep, seed, Words(pre, 4, Load32)), MixBlock(PaddedWord(t)));
    FmixPermutes(Xor(x, LengthWord(|pre + t|)), d);
    FmixPermutes(Xor(x, LengthWord(|pre + u|)), d);
    XorLaw(x, LengthWord(|pre + t|), Unfmix32(d));
    XorLaw(x, LengthWord(|pre + u|), Unfmix32(d));
  }

  lemma SamePaddedWord(t: seq<Byte>, z: nat)
    requires |t| + z < 4
    ensures PaddedWord(t + Zeros(z)) == PaddedWord(t)
  {
    hide Load32;
    assert t + Zeros(z) + Zeros(4 - |t| - z) == t + Zeros(4 - |t|);
  }

  /** One key under two seeds never has one x86_32 digest. */
  lemma Seeds32NeverCollide(key: seq<Byte>, seed: bv32, seed': bv32)
    requires |key| < 0x8000_0000
    ensures Hash32(key, seed) == Hash32(key, seed') ==> seed == seed'
  {
    hide Hash32, BeforeTail32, WordStep, UnstepWord, Words, Rest;
    var d := Hash32(key, seed);
    Hash32FromBody(key, seed, d);
    Hash32FromBody(key, seed', d);
    WordStepUndone();
    FoldPermutes(WordStep, UnstepWord, seed, Words(key, 4, Load32), BeforeTail32(|key|, Rest(key, 4), d));
    FoldPermutes(WordStep, UnstepWord, seed', Words(key, 4, Load32), BeforeTail32(|key|, Rest(key, 4), d));
  }

  // ---------- No collisions: x86_128 ----------

  lemma Step4Undone()
    ensures Undoes(Step4, Unstep4)
  {
    hide Step4, Unstep4, StepLane4;
    forall s: State4, x: Lane4, t: State4
      ensures Step4(s, x) == t <==> s == Unstep4(t, x)
    {
      Step4Permutes(s, x, t);
    }
  }

  lemma Step4Solved()
    ensures Solves(Step4, StepLane4)
  {
    hide Step4, Unstep4, StepLane4;
    forall s: State4, x: Lane4, t: State4
      ensures Step4(s, x) == t <==> x == StepLane4(s, t)
    {
      Step4Permutes(s, x, t);
    }
  }

  /** Sixteen bytes and a lane determine each other. */
  lemma Lane4RoundTrip(b: seq<Byte>, x: Lane4)
    requires |b| == 16
    ensures LaneAt4(b) == x <==> b == LaneBytes4(x)
  {
    hide Load32, Store32;
    Word32RoundTrip(b[..4], x.k1);
    Word32RoundTrip(b[4..8], x.k2);
    Word32RoundTrip(b[8..12], x.k3);
    Word32RoundTrip(b[12..], x.k4);
    assert b == b[..4] + b[4..8] + b[8..12] + b[12..];
    var c := LaneBytes4(x);
    assert c[..4] == Store32(x.k1) && c[4..8] == Store32(x.k2) && c[8..12] == Store32(x.k3) && c[12..] == Store32(x.k4);
  }

  /** What the body loop must have left for digest `d`. */
  function BeforeTail128(len: nat, t: seq<Byte>, d: State4): State4
    requires len < 0x8000_0000 && |t| < 16
  {
    Tail4(Unfinalize4(d, LengthWord(len)), PaddedLane4(t))
  }

  lemma Hash128FromBody(key: seq<Byte>, seed: bv32, d: State4)
    requires |key| < 0x8000_0000
    ensures Hash128(key, seed) == d
       <==> Fold(Step4, Seeded4(seed), Words(key, 16, LaneAt4)) == BeforeTail128(|key|, Rest(key, 16), d)
  {
    hide Finalize4, Unfinalize4, Tail4, PaddedLane4, LengthWord, Words, Fold, Rest;
    var s := Fold(Step4, Seeded4(seed), Words(key, 16, LaneAt4));
    var x := PaddedLane4(Rest(key, 16));
    Finalize4Permutes(Tail4(s, x), LengthWord(|key|), d);
    Tail4Permutes(s, x, Unfinalize4(d, LengthWord(|key|)));
  }

  /** The one lane that, between `pre` and `suf`, gives digest `d`. */
  function SolveLane4(pre: seq<Byte>, suf: seq<Byte>, seed: bv32, d: State4): seq<Byte>
    requires |pre| + 16 + |suf| < 0x8000_0000
  {
    var before := Fold(Step4, Seeded4(seed), Words(pre, 16, LaneAt4));
    var after := Unfold(Unstep4, BeforeTail128(|pre| + 16 + |suf|, Rest(suf, 16), d), Words(suf, 16, LaneAt4));
    LaneBytes4(StepLane4(before, after))
  }

  /** Between fixed bytes, x86_128 is a bijection from one aligned 16-byte lane to the digests. */
  lemma Lane4Bijection(pre: seq<Byte>, lane: seq<Byte>, suf: seq<Byte>, seed: bv32, d: State4)
    requires |pre| % 16 == 0 && |lane| == 16 && |pre| + 16 + |suf| < 0x8000_0000
    ensures Hash128(pre + lane + suf, seed) == d <==> lane == SolveLane4(pre, suf, seed, d)
  {
    hide Hash128, BeforeTail128, Step4, Unstep4, StepLane4, LaneAt4, LaneBytes4, Words, Rest;
    var key := pre + lane + suf;
    WordsAround(pre, lane, suf, 16, LaneAt4);
    Hash128FromBody(key, seed, d);
    Step4Undone();
    Step4Solved();
    var target := BeforeTail128(|key|, Rest(suf, 16), d);
    OneWordDecides(Step4, Unstep4, StepLane4, Seeded4(seed), Words(pre, 16, LaneAt4), LaneAt4(lane), Words(suf, 16, LaneAt4), target);
    var after := Unfold(Unstep4, target, Words(suf, 16, LaneAt4));
    Lane4RoundTrip(lane, StepLane4(Fold(Step4, Seeded4(seed), Words(pre, 16, LaneAt4)), after));
  }

  lemma PaddedLane4Injective(a: seq<Byte>, b: seq<Byte>)
    requires |a| == |b| < 16
    ensures PaddedLane4(a) == PaddedLane4(b) ==> a == b
  {
    hide LaneAt4, LaneBytes4;
    var p, q := a + Zeros(16 - |a|), b + Zeros(16 - |b|);
    Lane4RoundTrip(p, PaddedLane4(a));
    Lane4RoundTrip(q, PaddedLane4(a));
    assert p[..|a|] == a && q[..|b|] == b;
  }

  /** Keys of one length that differ only in the last `len % 16` bytes have different x86_128 digests. */
  lemma Tail128NeverCollides(pre: seq<Byte>, a: seq<Byte>, b: seq<Byte>, seed: bv32)
    requires |pre| % 16 == 0 && |a| == |b| < 16 && |pre| + |a| < 0x8000_0000
    ensures Hash128(pre + a, seed) == Hash128(pre + b, seed) ==> a == b
  {
    hide Finalize4, Unfinalize4, Tail4, TailLane4, PaddedLane4, LengthWord, Words, Fold, Rest, Step4;
    WordsBefore(pre, a, 16, LaneAt4);
    WordsBefore(pre, b, 16, LaneAt4);
    var s, len := Fold(Step4, Seeded4(seed), Words(pre, 16, LaneAt4)), LengthWord(|pre| + |a|);
    var d := Hash128(pre + a, seed);
    TailOfDigest128(s, PaddedLane4(a), len, d);
    TailOfDigest128(s, PaddedLane4(b), len, d);
    PaddedLane4Injective(a, b);
  }

  lemma TailOfDigest128(s: State4, x: Lane4, len: bv32, d: State4)
    ensures Finalize4(Tail4(s, x), len) == d <==> x == TailLane4(s, Unfinalize4(d, len))
  {
    hide Finalize4, Unfinalize4, Tail4, TailLane4;
    Finalize4Permutes(Tail4(s, x), len, d);
    Tail4Permutes(s, x, Unfinalize4(d, len));
  }

  /** Zeros appended within the last lane change the x86_128 digest, by the length alone. */
  lemma AppendedZeros128NeverCollide(pre: seq<Byte>, t: seq<Byte>, z: nat, seed: bv32)
    requires |pre| % 16 == 0 && 0 < z && |t| + z < 16 && |pre| + |t| + z < 0x8000_0000
    ensures Hash128(pre + t + Zeros(z), seed) != Hash128(pre + t, seed)
  {
    hide Finalize4, Tail4, PaddedLane4, LengthWord, Words, Fold, Rest, Step4, LaneAt4;
    var u := t + Zeros(z);
    assert pre + t + Zeros(z) == pre + u;
    WordsBefore(pre, t, 16, LaneAt4);
    WordsBefore(pre, u, 16, LaneAt4);
    assert PaddedLane4(u) == PaddedLane4(t) by {
      SamePaddedLane4(t, z);
    }
    NearLengthsDiffer(|pre + t|, z);
    var s := Tail4(Fold(Step4, Seeded4(seed), Words(pre, 16, LaneAt4)), PaddedLane4(t));
    Finalize4TellsLengths(s, LengthWord(|pre + t|), LengthWord(|pre + u|));
  }

  lemma SamePaddedLane4(t: seq<Byte>, z: nat)
    requires |t| + z < 16
    ensures PaddedLane4(t + Zeros(z)) == PaddedLane4(t)
  {
    hide LaneAt4;
    assert t + Zeros(z) + Zeros(16 - |t| - z) == t + Zeros(16 - |t|);
  }

  /** One key under two seeds never has one x86_128 digest. */
  lemma Seeds128NeverCollide(key: seq<Byte>, seed: bv32, seed': bv32)
    requires |key| < 0x8000_0000
    ensures Hash128(key, seed) == Hash128(key, seed') ==> seed == seed'
  {
    hide Hash128, BeforeTail128, Step4, Unstep4, Words, Rest;
    var d := Hash128(key, seed);
    Hash128FromBody(key, seed, d);
    Hash128FromBody(key, seed', d);
    Step4Undone();
    FoldPermutes(Step4, Unstep4, Seeded4(seed), Words(key, 16, LaneAt4), BeforeTail128(|key|, Rest(key, 16), d));
    FoldPermutes(Step4, Unstep4, Seeded4(seed'), Words(key, 16, LaneAt4), BeforeTail128(|key|, Rest(key, 16), d));
  }
}
