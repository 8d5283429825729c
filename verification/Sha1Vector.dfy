/**
 The digest of "abc", the first example of the standard: it pins the constants that both sides write down.
 */
module Sha1Vector {
  import opened Bytes
  import opened Fips180

  /** The one block that "abc" is padded to. */
  const BLOCK: seq<Byte> := [0x61, 0x62, 0x63, 0x80] + Zeros(52) + [0, 0, 0, 0, 0, 0, 0, 24]

  lemma LengthBytes()
    ensures BigEndian64(24) == [0, 0, 0, 0, 0, 0, 0, 24]
  {
  }

  lemma PaddedAbc()
    ensures Pad([0x61, 0x62, 0x63]) == BLOCK && |BLOCK| == 64
  {
    assert PadLength(3) == 52;
    LengthBytes();
    hide BigEndian64;
    assert [0x61, 0x62, 0x63] + [0x80] + Zeros(52) == [0x61, 0x62, 0x63, 0x80] + Zeros(52);
  }

  lemma FirstWords()
    ensures |BLOCK| == 64 && W(BLOCK, 0) == 0x61626380 && W(BLOCK, 15) == 24
    ensures forall t :: 0 < t < 15 ==> W(BLOCK, t) == 0
  {
    forall t | 0 < t < 15
      ensures W(BLOCK, t) == 0
    {
      assert BLOCK[4 * t] == 0 && BLOCK[4 * t + 1] == 0 && BLOCK[4 * t + 2] == 0 && BLOCK[4 * t + 3] == 0;
    }
  }

  /** The next word of the schedule. */
  lemma NextWord(t: nat, w: Word)
    requires 16 <= t && |BLOCK| == 64
    requires Rotl(Mix4(W(BLOCK, t - 3), W(BLOCK, t - 8), W(BLOCK, t - 14), W(BLOCK, t - 16)), 1) == w
    ensures W(BLOCK, t) == w
  {
  }

  lemma Words16()
    ensures |BLOCK| == 64
    ensures W(BLOCK, 16) == 0xc2c4c700 && W(BLOCK, 17) == 0x00000000
    ensures W(BLOCK, 18) == 0x00000030 && W(BLOCK, 19) == 0x85898e01
    ensures W(BLOCK, 20) == 0x00000000 && W(BLOCK, 21) == 0x00000060
    ensures W(BLOCK, 22) == 0x0b131c03 && W(BLOCK, 23) == 0x00000030
    ensures W(BLOCK, 24) == 0x85898ec1 && W(BLOCK, 25) == 0x16263806
    ensures W(BLOCK, 26) == 0x00000000 && W(BLOCK, 27) == 0x00000180
    ensures W(BLOCK, 28) == 0x2c4c700c && W(BLOCK, 29) == 0x000000f0
    ensures W(BLOCK, 30) == 0x93afb507 && W(BLOCK, 31) == 0x5898e048
  {
    hide W;
    FirstWords();
    NextWord(16, 0xc2c4c700);
    NextWord(17, 0x00000000);
    NextWord(18, 0x00000030);
    NextWord(19, 0x85898e01);
    NextWord(20, 0x00000000);
    NextWord(21, 0x00000060);
    NextWord(22, 0x0b131c03);
    NextWord(23, 0x00000030);
    NextWord(24, 0x85898ec1);
    NextWord(25, 0x16263806);
    NextWord(26, 0x00000000);
    NextWord(27, 0x00000180);
    NextWord(28, 0x2c4c700c);
    NextWord(29, 0x000000f0);
    NextWord(30, 0x93afb507);
    NextWord(31, 0x5898e048);
  }

  lemma Words32()
    ensures |BLOCK| == 64
    ensures W(BLOCK, 32) == 0x8e9a9202 && W(BLOCK, 33) == 0x00000600
    ensures W(BLOCK, 34) == 0xb131c0f0 && W(BLOCK, 35) == 0x16263bc6
    ensures W(BLOCK, 36) == 0x4ebed41e && W(BLOCK, 37) == 0x626380a1
    ensures W(BLOCK, 38) == 0x16263806 && W(BLOCK, 39) == 0x000018c0
    ensures W(BLOCK, 40) == 0xd2e138c4 && W(BLOCK, 41) == 0x00000f00
    ensures W(BLOCK, 42) == 0x3afb5079 && W(BLOCK, 43) == 0x898e04e5
    ensures W(BLOCK, 44) == 0xe2ba3c2b && W(BLOCK, 45) == 0x000060c0
    ensures W(BLOCK, 46) == 0x053a37cd && W(BLOCK, 47) == 0x74458547
  {
    hide W;
    Words16();
    NextWord(32, 0x8e9a9202);
    NextWord(33, 0x00000600);
    NextWord(34, 0xb131c0f0);
    NextWord(35, 0x16263bc6);
    NextWord(36, 0x4ebed41e);
    NextWord(37, 0x626380a1);
    NextWord(38, 0x16263806);
    NextWord(39, 0x000018c0);
    NextWord(40, 0xd2e138c4);
    NextWord(41, 0x00000f00);
    NextWord(42, 0x3afb5079);
    NextWord(43, 0x898e04e5);
    NextWord(44, 0xe2ba3c2b);
    NextWord(45, 0x000060c0);
    NextWord(46, 0x053a37cd);
    NextWord(47, 0x74458547);
  }

  lemma Words48()
    ensures |BLOCK| == 64
    ensures W(BLOCK, 48) == 0xda9415ed && W(BLOCK, 49) == 0x26380a16
    ensures W(BLOCK, 50) == 0x626383a1 && W(BLOCK, 51) == 0x4ebf54de
    ensures W(BLOCK, 52) == 0x3835b44b && W(BLOCK, 53) == 0x0000f600
    ensures W(BLOCK, 54) == 0x1e84c7a3 && W(BLOCK, 55) == 0x98e04d98
    ensures W(BLOCK, 56) == 0x651d16a0 && W(BLOCK, 57) == 0x62658ca1
    ensures W(BLOCK, 58) == 0x458544d6 && W(BLOCK, 59) == 0x44584cb7
    ensures W(BLOCK, 60) == 0x7ba06619 && W(BLOCK, 61) == 0x6380aea2
    ensures W(BLOCK, 62) == 0x0ae55269 && W(BLOCK, 63) == 0x627b49a1
  {
    hide W;
    Words32();
    NextWord(48, 0xda9415ed);
    NextWord(49, 0x26380a16);
    NextWord(50, 0x626383a1);
    NextWord(51, 0x4ebf54de);
    NextWord(52, 0x3835b44b);
    NextWord(53, 0x0000f600);
    NextWord(54, 0x1e84c7a3);
    NextWord(55, 0x98e04d98);
    NextWord(56, 0x651d16a0);
    NextWord(57, 0x62658ca1);
    NextWord(58, 0x458544d6);
    NextWord(59, 0x44584cb7);
    NextWord(60, 0x7ba06619);
    NextWord(61, 0x6380aea2);
    NextWord(62, 0x0ae55269);
    NextWord(63, 0x627b49a1);
  }

  lemma Words64()
    ensures |BLOCK| == 64
    ensures W(BLOCK, 64) == 0x7cd45c9d && W(BLOCK, 65) == 0x000f0000
    ensures W(BLOCK, 66) == 0xfb50753a && W(BLOCK, 67) == 0xec6765e8
    ensures W(BLOCK, 68) == 0xba3c2be2 && W(BLOCK, 69) == 0x0060c000
    ensures W(BLOCK, 70) == 0x3a37cd05 && W(BLOCK, 71) == 0x458546f4
    ensures W(BLOCK, 72) == 0xb8599dd6 && W(BLOCK, 73) == 0x380a1a26
    ensures W(BLOCK, 74) == 0x01e02203 && W(BLOCK, 75) == 0xe7cc3456
    ensures W(BLOCK, 76) == 0xe6e60b69 && W(BLOCK, 77) == 0x00f60a00
    ensures W(BLOCK, 78) == 0x5795ef4f && W(BLOCK, 79) == 0x822e0879
  {
    hide W;
    Words48();
    NextWord(64, 0x7cd45c9d);
    NextWord(65, 0x000f0000);
    NextWord(66, 0xfb50753a);
    NextWord(67, 0xec6765e8);
    NextWord(68, 0xba3c2be2);
    NextWord(69, 0x0060c000);
    NextWord(70, 0x3a37cd05);
    NextWord(71, 0x458546f4);
    NextWord(72, 0xb8599dd6);
    NextWord(73, 0x380a1a26);
    NextWord(74, 0x01e02203);
    NextWord(75, 0xe7cc3456);
    NextWord(76, 0xe6e60b69);
    NextWord(77, 0x00f60a00);
    NextWord(78, 0x5795ef4f);
    NextWord(79, 0x822e0879);
  }

  /** The next round gives `a` its new value, and moves the others on. */
  lemma NextRound(t: nat, r: Registers, w: Word, a: Word) returns (r': Registers)
    requires |BLOCK| == 64 && Rounds(INITIAL_HASH, BLOCK, t) == r && W(BLOCK, t) == w
    requires Sum5(Rotl(r.a, 5), F(t, r.b, r.c, r.d), r.e, K(t), w) == a
    ensures r' == Registers(a, r.a, Rotl(r.b, 30), r.c, r.d) && Rounds(INITIAL_HASH, BLOCK, t + 1) == r'
  {
    hide W;
    r' := Round(r, t, w);
  }

  lemma RoundsTo16()
    ensures |BLOCK| == 64
    ensures Rounds(INITIAL_HASH, BLOCK, 16) == Registers(0x20bdd62f, 0x196bee77, 0x644a3da5, 0x1181ed99, 0x18c623f9)
  {
    hide W, Rounds;
    FirstWords();
    NoRounds();
    var r := INITIAL_HASH;
    r := NextRound(0, r, 0x61626380, 0x0116fc33);
    r := NextRound(1, r, 0x00000000, 0x8990536d);
    r := NextRound(2, r, 0x00000000, 0xa1390f08);
    r := NextRound(3, r, 0x00000000, 0xcdd8e11b);
    r := NextRound(4, r, 0x00000000, 0xcfd499de);
    r := NextRound(5, r, 0x00000000, 0x3fc7ca40);
    r := NextRound(6, r, 0x00000000, 0x993e30c1);
    r := NextRound(7, r, 0x00000000, 0x9e8c07d4);
    r := NextRound(8, r, 0x00000000, 0x4b6ae328);
    r := NextRound(9, r, 0x00000000, 0x8351f929);
    r := NextRound(10, r, 0x00000000, 0xfbda9e89);
    r := NextRound(11, r, 0x00000000, 0x63188fe4);
    r := NextRound(12, r, 0x00000000, 0x4607b664);
    r := NextRound(13, r, 0x00000000, 0x9128f695);
    r := NextRound(14, r, 0x00000000, 0x196bee77);
    r := NextRound(15, r, 0x00000018, 0x20bdd62f);
  }

  lemma RoundsTo32()
    ensures |BLOCK| == 64
    ensures Rounds(INITIAL_HASH, BLOCK, 32) == Registers(0x3b845d33, 0x1267b407, 0x717eebd7, 0xa0dc2d4b, 0xd2aa1365)
  {
    hide W, Rounds;
    Words16();
    RoundsTo16();
    var r := Registers(0x20bdd62f, 0x196bee77, 0x644a3da5, 0x1181ed99, 0x18c623f9);
    r := NextRound(16, r, 0xc2c4c700, 0x4e925823);
    r := NextRound(17, r, 0x00000000, 0x82aa6728);
    r := NextRound(18, r, 0x00000030, 0xdc64901d);
    r := NextRound(19, r, 0x85898e01, 0xfd9e1d7d);
    r := NextRound(20, r, 0x00000000, 0x1a37b0ca);
    r := NextRound(21, r, 0x00000060, 0x33a23bfc);
    r := NextRound(22, r, 0x0b131c03, 0x21283486);
    r := NextRound(23, r, 0x00000030, 0xd541f12d);
    r := NextRound(24, r, 0x85898ec1, 0xc7567dc6);
    r := NextRound(25, r, 0x16263806, 0x48413ba4);
    r := NextRound(26, r, 0x00000000, 0xbe35fbd5);
    r := NextRound(27, r, 0x00000180, 0x4aa84d97);
    r := NextRound(28, r, 0x2c4c700c, 0x8370b52e);
    r := NextRound(29, r, 0x000000f0, 0xc5fbaf5d);
    r := NextRound(30, r, 0x93afb507, 0x1267b407);
    r := NextRound(31, r, 0x5898e048, 0x3b845d33);
  }

  lemma RoundsTo48()
    ensures |BLOCK| == 64
    ensures Rounds(INITIAL_HASH, BLOCK, 48) == Registers(0xbead02ca, 0xa01b846c, 0x8714787c, 0x503ca382, 0xfb86c6ab)
  {
    hide W, Rounds;
    Words32();
    RoundsTo32();
    var r := Registers(0x3b845d33, 0x1267b407, 0x717eebd7, 0xa0dc2d4b, 0xd2aa1365);
    r := NextRound(32, r, 0x8e9a9202, 0x046faa0a);
    r := NextRound(33, r, 0x00000600, 0x2c0ebc11);
    r := NextRound(34, r, 0xb131c0f0, 0x21796ad4);
    r := NextRound(35, r, 0x16263bc6, 0xdcbbb0cb);
    r := NextRound(36, r, 0x4ebed41e, 0x0f511fd8);
    r := NextRound(37, r, 0x626380a1, 0xdc63973f);
    r := NextRound(38, r, 0x16263806, 0x4c986405);
    r := NextRound(39, r, 0x000018c0, 0x32de1cba);
    r := NextRound(40, r, 0xd2e138c4, 0xfc87dedf);
    r := NextRound(41, r, 0x00000f00, 0x970a0d5c);
    r := NextRound(42, r, 0x3afb5079, 0x7f193dc5);
    r := NextRound(43, r, 0x898e04e5, 0xee1b1aaf);
    r := NextRound(44, r, 0xe2ba3c2b, 0x40f28e09);
    r := NextRound(45, r, 0x000060c0, 0x1c51e1f2);
    r := NextRound(46, r, 0x053a37cd, 0xa01b846c);
    r := NextRound(47, r, 0x74458547, 0xbead02ca);
  }

  lemma RoundsTo64()
    ensures |BLOCK| == 64
    ensures Rounds(INITIAL_HASH, BLOCK, 64) == Registers(0x6b61c9e1, 0xb66c020b, 0x9523272c, 0xf5d5b051, 0x8fd4b796)
  {
    hide W, Rounds;
    Words48();
    RoundsTo48();
    var r := Registers(0xbead02ca, 0xa01b846c, 0x8714787c, 0x503ca382, 0xfb86c6ab);
    r := NextRound(48, r, 0xda9415ed, 0xbaf39337);
    r := NextRound(49, r, 0x26380a16, 0x120731c5);
    r := NextRound(50, r, 0x626383a1, 0x641db2ce);
    r := NextRound(51, r, 0x4ebf54de, 0x3847ad66);
    r := NextRound(52, r, 0x3835b44b, 0xe490436d);
    r := NextRound(53, r, 0x0000f600, 0x27e9f1d8);
    r := NextRound(54, r, 0x1e84c7a3, 0x7b71f76d);
    r := NextRound(55, r, 0x98e04d98, 0x5e6456af);
    r := NextRound(56, r, 0x651d16a0, 0xc846093f);
    r := NextRound(57, r, 0x62658ca1, 0xd262ff50);
    r := NextRound(58, r, 0x458544d6, 0x09d785fd);
    r := NextRound(59, r, 0x44584cb7, 0x3f52de5a);
    r := NextRound(60, r, 0x7ba06619, 0xd756c147);
    r := NextRound(61, r, 0x6380aea2, 0x548c9cb2);
    r := NextRound(62, r, 0x0ae55269, 0xb66c020b);
    r := NextRound(63, r, 0x627b49a1, 0x6b61c9e1);
  }

  lemma RoundsTo80()
    ensures |BLOCK| == 64
    ensures Rounds(INITIAL_HASH, BLOCK, 80) == Registers(0x42541b35, 0x5738d5e1, 0x21834873, 0x681e6df6, 0xd8fdf6ad)
  {
    hide W, Rounds;
    Words64();
    RoundsTo64();
    var r := Registers(0x6b61c9e1, 0xb66c020b, 0x9523272c, 0xf5d5b051, 0x8fd4b796);
    r := NextRound(64, r, 0x7cd45c9d, 0x19dfa7ac);
    r := NextRound(65, r, 0x000f0000, 0x101655f9);
    r := NextRound(66, r, 0xfb50753a, 0x0c3df2b4);
    r := NextRound(67, r, 0xec6765e8, 0x78dd4d2b);
    r := NextRound(68, r, 0xba3c2be2, 0x497093c0);
    r := NextRound(69, r, 0x0060c000, 0x3f2588c2);
    r := NextRound(70, r, 0x3a37cd05, 0xc199f8c7);
    r := NextRound(71, r, 0x458546f4, 0x39859de7);
    r := NextRound(72, r, 0xb8599dd6, 0xedb42de4);
    r := NextRound(73, r, 0x380a1a26, 0x11793f6f);
    r := NextRound(74, r, 0x01e02203, 0x5ee76897);
    r := NextRound(75, r, 0xe7cc3456, 0x63f7dab7);
    r := NextRound(76, r, 0xe6e60b69, 0xa079b7d9);
    r := NextRound(77, r, 0x00f60a00, 0x860d21cc);
    r := NextRound(78, r, 0x5795ef4f, 0x5738d5e1);
    r := NextRound(79, r, 0x822e0879, 0x42541b35);
  }

  lemma NoRounds()
    ensures |BLOCK| == 64 && Rounds(INITIAL_HASH, BLOCK, 0) == INITIAL_HASH
  {
  }

  lemma AbsorbedAbc()
    ensures Absorb(INITIAL_HASH, BLOCK) == Registers(0xa9993e36, 0x4706816a, 0xba3e2571, 0x7850c26c, 0x9cd0d89d)
  {
    hide Rounds;
    RoundsTo80();
    assert BLOCK[..64] == BLOCK && BLOCK[64..] == [];
  }

  lemma DigestBytes()
    ensures HashBytes(Registers(0xa9993e36, 0x4706816a, 0xba3e2571, 0x7850c26c, 0x9cd0d89d))
         == [0xa9, 0x99, 0x3e, 0x36, 0x47, 0x06, 0x81, 0x6a, 0xba, 0x3e,
             0x25, 0x71, 0x78, 0x50, 0xc2, 0x6c, 0x9c, 0xd0, 0xd8, 0x9d]
  {
  }

  /** SHA1("abc") */
  lemma Abc()
    ensures SHA1([0x61, 0x62, 0x63])
         == [0xa9, 0x99, 0x3e, 0x36, 0x47, 0x06, 0x81, 0x6a, 0xba, 0x3e,
             0x25, 0x71, 0x78, 0x50, 0xc2, 0x6c, 0x9c, 0xd0, 0xd8, 0x9d]
  {
    hide Pad, Absorb, HashBytes;
    PaddedAbc();
    AbsorbedAbc();
    DigestBytes();
  }
}
