/**
 Digests of given keys, with every byte written out: they pin constants, rotations, byte orders and the length word,
 which the permutation laws leave open.
 */
module HashVectors {
  import opened Bytes
  import opened Folds
  import Murmur3Mix
  import Murmur3
  import Murmur3Mix32
  import Murmur3x86

  /** The bytes 1 to 31: one lane, and a tail of fifteen bytes. */
  const FRONT: seq<Byte> := [1, 2, 3, 4, 5, 6, 7, 8, 9, 10, 11, 12, 13, 14, 15, 16]

  const BACK: seq<Byte> := [17, 18, 19, 20, 21, 22, 23, 24, 25, 26, 27, 28, 29, 30, 31]

  /** One word, and what is left. */
  lemma OneWord<X>(front: seq<Byte>, back: seq<Byte>, n: nat, load: seq<Byte> --> X)
    requires n > 0 && |front| == n && |back| < n && forall b: seq<Byte> :: |b| == n ==> load.requires(b)
    ensures Words(front + back, n, load) == [load(front)] && Rest(front + back, n) == back
  {
    assert (front + back)[..n] == front && (front + back)[n..] == back;
  }

  lemma FoldOne<S, X>(step: (S, X) -> S, s: S, x: X)
    ensures Fold(step, s, [x]) == step(s, x)
  {
  }

  // ---------- MurmurHash3_x64_128 ----------

  lemma Loads64()
    ensures Murmur3.LaneAt(FRONT) == Murmur3Mix.Lane(0x807060504030201, 0x100f0e0d0c0b0a09)
    ensures Murmur3.PaddedLane(BACK) == Murmur3Mix.Lane(0x1817161514131211, 0x1f1e1d1c1b1a19)
  {
    assert FRONT[..8] == [1, 2, 3, 4, 5, 6, 7, 8] && FRONT[8..] == [9, 10, 11, 12, 13, 14, 15, 16];
    var p := BACK + Zeros(1);
    assert p[..8] == [17, 18, 19, 20, 21, 22, 23, 24] && p[8..] == [25, 26, 27, 28, 29, 30, 31, 0];
  }

  lemma Body64()
    ensures Murmur3Mix.BodyStep(Murmur3.Seeded(0xad64fac3), Murmur3Mix.Lane(0x807060504030201, 0x100f0e0d0c0b0a09))
         == Murmur3Mix.State(0x93972866a8c7c41, 0x3f7b9bd51421f192)
  {
  }

  lemma Tail64()
    ensures Murmur3Mix.TailStep(Murmur3Mix.State(0x93972866a8c7c41, 0x3f7b9bd51421f192),
                                Murmur3Mix.Lane(0x1817161514131211, 0x1f1e1d1c1b1a19))
         == Murmur3Mix.State(0x57b1369b5e53d75a, 0xbf3c935c9d3f96f4)
  {
  }

  lemma Final64()
    ensures Murmur3Mix.Finalize(Murmur3Mix.State(0x57b1369b5e53d75a, 0xbf3c935c9d3f96f4), 31)
         == Murmur3Mix.State(0x17cbdcb89e9a8eba, 0x95f7eee8eac2d7d)
  {
  }

  lemma Lengths()
    ensures LengthWord(1) == 1 && LengthWord(7) == 7 && LengthWord(31) == 31
  {
    assert LengthWord(12) == 12;
    assert LengthWord(22) == 22;
  }

  lemma Bytes64()
    ensures Murmur3.LaneBytes(Murmur3Mix.Lane(0x17cbdcb89e9a8eba, 0x95f7eee8eac2d7d))
         == [0xba, 0x8e, 0x9a, 0x9e, 0xb8, 0xdc, 0xcb, 0x17, 0x7d, 0x2d, 0xac, 0x8e, 0xee, 0x7e, 0x5f, 0x09]
  {
  }

  lemma HashOfOneLane(front: seq<Byte>, back: seq<Byte>, seed: bv32)
    requires |front| == 16 && |back| < 16
    ensures Murmur3.Hash(front + back, seed)
         == Murmur3Mix.Finalize(
              Murmur3Mix.TailStep(Murmur3Mix.BodyStep(Murmur3.Seeded(seed), Murmur3.LaneAt(front)), Murmur3.PaddedLane(back)),
              LengthWord(16 + |back|) as bv64)
  {
    hide Murmur3.LaneAt, Murmur3.PaddedLane, Murmur3Mix.BodyStep, Murmur3Mix.TailStep, Murmur3Mix.Finalize, LengthWord,
         Murmur3.Seeded, Words, Rest, Fold;
    OneWord(front, back, 16, Murmur3.LaneAt);
    FoldOne(Murmur3Mix.BodyStep, Murmur3.Seeded(seed), Murmur3.LaneAt(front));
  }

  /** The digest of the bytes 1 to 31: one lane, and a tail of fifteen bytes. */
  lemma LaneAndTailDigest()
    ensures Murmur3.Digest([1, 2, 3, 4, 5, 6, 7, 8, 9, 10, 11, 12, 13, 14, 15, 16, 17, 18, 19, 20, 21, 22, 23, 24, 25, 26, 27,
                            28, 29, 30, 31], 0xad64fac3)
         == [0xba, 0x8e, 0x9a, 0x9e, 0xb8, 0xdc, 0xcb, 0x17, 0x7d, 0x2d, 0xac, 0x8e, 0xee, 0x7e, 0x5f, 0x09]
  {
    hide Murmur3.LaneAt, Murmur3.PaddedLane, Murmur3Mix.BodyStep, Murmur3Mix.TailStep, Murmur3Mix.Finalize, LengthWord,
         Murmur3.Seeded, Murmur3.LaneBytes, Murmur3.Hash;
    Loads64();
    Body64();
    Tail64();
    Lengths();
    Final64();
    Bytes64();
    HashOfOneLane(FRONT, BACK, 0xad64fac3);
    assert FRONT + BACK == [1, 2, 3, 4, 5, 6, 7, 8, 9, 10, 11, 12, 13, 14, 15, 16, 17, 18, 19, 20, 21, 22, 23, 24, 25, 26, 27,
                            28, 29, 30, 31];
  }

  lemma ZeroByteStages()
    ensures Murmur3Mix.TailStep(Murmur3.Seeded(0xad64fac3), Murmur3Mix.Lane(0, 0)) == Murmur3.Seeded(0xad64fac3)
    ensures Murmur3Mix.Finalize(Murmur3.Seeded(0xad64fac3), 1) == Murmur3Mix.State(0xc0c50cdef8c68dd5, 0x8fe6b9a5bfb2b902)
  {
  }

  lemma ZeroByteHash()
    ensures Murmur3.Hash([0], 0xad64fac3) == Murmur3Mix.State(0xc0c50cdef8c68dd5, 0x8fe6b9a5bfb2b902)
  {
    hide Murmur3.Seeded, Murmur3Mix.TailStep, Murmur3Mix.Finalize, LengthWord;
    Lengths();
    ZeroByteStages();
    assert Murmur3.PaddedLane([0]) == Murmur3Mix.Lane(0, 0) by {
      ZeroLane();
    }
  }

  lemma ZeroLane()
    ensures Murmur3.PaddedLane([0]) == Murmur3Mix.Lane(0, 0)
  {
    var p := [0] + Zeros(15);
    assert p[..8] == [0, 0, 0, 0, 0, 0, 0, 0] && p[8..] == [0, 0, 0, 0, 0, 0, 0, 0];
  }

  lemma ZeroByteBytes()
    ensures Murmur3.LaneBytes(Murmur3Mix.Lane(0xc0c50cdef8c68dd5, 0x8fe6b9a5bfb2b902))
         == [0xd5, 0x8d, 0xc6, 0xf8, 0xde, 0x0c, 0xc5, 0xc0, 0x02, 0xb9, 0xb2, 0xbf, 0xa5, 0xb9, 0xe6, 0x8f]
  {
  }

  /** The digest of one zero byte, which is a tail alone. */
  lemma ZeroByteDigest()
    ensures Murmur3.Digest([0], 0xad64fac3)
         == [0xd5, 0x8d, 0xc6, 0xf8, 0xde, 0x0c, 0xc5, 0xc0, 0x02, 0xb9, 0xb2, 0xbf, 0xa5, 0xb9, 0xe6, 0x8f]
  {
    ZeroByteHash();
    ZeroByteBytes();
    hide Murmur3.Hash, Murmur3.LaneBytes;
  }

  // ---------- MurmurHash3_x86_32 ----------

  lemma Stages32()
    ensures Load32([1, 2, 3, 4]) == 0x4030201 && Murmur3x86.PaddedWord([5, 6, 7]) == 0x70605
    ensures Murmur3Mix32.WordStep(0xad64fac3, 0x4030201) == 0x5ae8201b
    ensures Murmur3Mix32.Fmix32(Murmur3Mix32.Xor(Murmur3Mix32.Xor(0x5ae8201b, Murmur3Mix32.MixBlock(0x70605)), 7))
         == 0x5fb81c13
    ensures Store32(0x5fb81c13) == [0x13, 0x1c, 0xb8, 0x5f]
  {
    assert [5, 6, 7] + Zeros(1) == [5, 6, 7, 0];
  }

  lemma HashOfOneBlock(front: seq<Byte>, back: seq<Byte>, seed: bv32)
    requires |front| == 4 && |back| < 4
    ensures Murmur3x86.Hash32(front + back, seed)
         == Murmur3Mix32.Fmix32(Murmur3Mix32.Xor(
              Murmur3Mix32.Xor(Murmur3Mix32.WordStep(seed, Load32(front)), Murmur3Mix32.MixBlock(Murmur3x86.PaddedWord(back))),
              LengthWord(4 + |back|)))
  {
    hide Murmur3x86.PaddedWord, Murmur3Mix32.WordStep, Murmur3Mix32.Fmix32, Murmur3Mix32.Xor, Murmur3Mix32.MixBlock, LengthWord,
         Load32, Words, Rest, Fold;
    OneWord(front, back, 4, Load32);
    FoldOne(Murmur3Mix32.WordStep, seed, Load32(front));
  }

  /** The digest of the bytes 1 to 7: one block, and a tail of three bytes. */
  lemma BlockAndTailDigest()
    ensures Store32(Murmur3x86.Hash32([1, 2, 3, 4, 5, 6, 7], 0xad64fac3)) == [0x13, 0x1c, 0xb8, 0x5f]
  {
    hide Murmur3x86.PaddedWord, Murmur3Mix32.WordStep, Murmur3Mix32.Fmix32, Murmur3Mix32.Xor, Murmur3Mix32.MixBlock, LengthWord,
         Load32, Store32, Murmur3x86.Hash32;
    Stages32();
    Lengths();
    var front: seq<Byte>, back: seq<Byte> := [1, 2, 3, 4], [5, 6, 7];
    HashOfOneBlock(front, back, 0xad64fac3);
    assert front + back == [1, 2, 3, 4, 5, 6, 7];
    assert Murmur3x86.Hash32(front + back, 0xad64fac3) == 0x5fb81c13;
  }

  // ---------- MurmurHash3_x86_128 ----------

  lemma Loads128()
    ensures Murmur3x86.LaneAt4(FRONT) == Murmur3Mix32.Lane4(0x4030201, 0x8070605, 0xc0b0a09, 0x100f0e0d)
    ensures Murmur3x86.PaddedLane4(BACK) == Murmur3Mix32.Lane4(0x14131211, 0x18171615, 0x1c1b1a19, 0x1f1e1d)
  {
    assert FRONT[..4] == [1, 2, 3, 4] && FRONT[4..8] == [5, 6, 7, 8] && FRONT[8..12] == [9, 10, 11, 12];
    assert FRONT[12..] == [13, 14, 15, 16];
    var p := BACK + Zeros(1);
    assert p[..4] == [17, 18, 19, 20] && p[4..8] == [21, 22, 23, 24] && p[8..12] == [25, 26, 27, 28];
    assert p[12..] == [29, 30, 31, 0];
  }

  lemma Body128()
    ensures Murmur3Mix32.Step4(Murmur3x86.Seeded4(0xad64fac3),
                               Murmur3Mix32.Lane4(0x4030201, 0x8070605, 0xc0b0a09, 0x100f0e0d))
         == Murmur3Mix32.State4(0x807a996f, 0x1c2ab108, 0xa4695883, 0x38889b41)
  {
  }

  lemma Tail128()
    ensures Murmur3Mix32.Tail4(Murmur3Mix32.State4(0x807a996f, 0x1c2ab108, 0xa4695883, 0x38889b41),
                               Murmur3Mix32.Lane4(0x14131211, 0x18171615, 0x1c1b1a19, 0x1f1e1d))
         == Murmur3Mix32.State4(0xbd070496, 0x4899c5cb, 0xfafdaf28, 0x3dca9b95)
  {
  }

  lemma Final128()
    ensures Murmur3Mix32.Finalize4(Murmur3Mix32.State4(0xbd070496, 0x4899c5cb, 0xfafdaf28, 0x3dca9b95), 31)
         == Murmur3Mix32.State4(0xdf5e13b6, 0x7e42a9d3, 0x1b1d10b9, 0x4b791fde)
  {
  }

  lemma HashOfOneLane4(front: seq<Byte>, back: seq<Byte>, seed: bv32)
    requires |front| == 16 && |back| < 16
    ensures Murmur3x86.Hash128(front + back, seed)
         == Murmur3Mix32.Finalize4(
              Murmur3Mix32.Tail4(Murmur3Mix32.Step4(Murmur3x86.Seeded4(seed), Murmur3x86.LaneAt4(front)), Murmur3x86.PaddedLane4(back)),
              LengthWord(16 + |back|))
  {
    hide Murmur3x86.LaneAt4, Murmur3x86.PaddedLane4, Murmur3Mix32.Step4, Murmur3Mix32.Tail4, Murmur3Mix32.Finalize4, LengthWord,
         Murmur3x86.Seeded4, Words, Rest, Fold;
    OneWord(front, back, 16, Murmur3x86.LaneAt4);
    FoldOne(Murmur3Mix32.Step4, Murmur3x86.Seeded4(seed), Murmur3x86.LaneAt4(front));
  }

  lemma Bytes128()
    ensures Murmur3x86.LaneBytes4(Murmur3Mix32.Lane4(0xdf5e13b6, 0x7e42a9d3, 0x1b1d10b9, 0x4b791fde))
         == [0xb6, 0x13, 0x5e, 0xdf, 0xd3, 0xa9, 0x42, 0x7e, 0xb9, 0x10, 0x1d, 0x1b, 0xde, 0x1f, 0x79, 0x4b]
  {
  }

  /** The digest of the bytes 1 to 31: one lane, and a tail of fifteen bytes. */
  lemma LaneAndTailDigest128()
    ensures var h := Murmur3x86.Hash128([1, 2, 3, 4, 5, 6, 7, 8, 9, 10, 11, 12, 13, 14, 15, 16, 17, 18, 19, 20, 21, 22, 23, 24,
                                         25, 26, 27, 28, 29, 30, 31], 0xad64fac3);
            Murmur3x86.LaneBytes4(Murmur3Mix32.Lane4(h.h1, h.h2, h.h3, h.h4))
            == [0xb6, 0x13, 0x5e, 0xdf, 0xd3, 0xa9, 0x42, 0x7e, 0xb9, 0x10, 0x1d, 0x1b, 0xde, 0x1f, 0x79, 0x4b]
  {
    hide Murmur3x86.LaneAt4, Murmur3x86.PaddedLane4, Murmur3Mix32.Step4, Murmur3Mix32.Tail4, Murmur3Mix32.Finalize4, LengthWord,
         Murmur3x86.Seeded4, Murmur3x86.Hash128, Murmur3x86.LaneBytes4;
    Loads128();
    Body128();
    Tail128();
    Lengths();
    Final128();
    Bytes128();
    HashOfOneLane4(FRONT, BACK, 0xad64fac3);
    assert FRONT + BACK == [1, 2, 3, 4, 5, 6, 7, 8, 9, 10, 11, 12, 13, 14, 15, 16, 17, 18, 19, 20, 21, 22, 23, 24, 25, 26, 27,
                            28, 29, 30, 31];
  }
}
