/**
 The mixing steps of MurmurHash3_x86_32 and MurmurHash3_x86_128, and the proof that every one of them is
 a permutation. Constants and rotations are parameters of a few shapes whose laws are proved once.
 */
module Murmur3Mix32 {

  /** The four 32-bit accumulators; also the digest. */
  datatype State4 = State4(h1: bv32, h2: bv32, h3: bv32, h4: bv32)

  /** Sixteen input bytes as four words. */
  datatype Lane4 = Lane4(k1: bv32, k2: bv32, k3: bv32, k4: bv32)

  // ---------- Word operations ----------

  function Rotl32(x: bv32, r: bv32): bv32
    requires 0 < r < 32
  {
    (x << r) | (x >> (32 - r))
  }

  function Mul(x: bv32, c: bv32): bv32 { x * c }

  function Add(x: bv32, y: bv32): bv32 { x + y }

  function Sub(x: bv32, y: bv32): bv32 { x - y }

  function Xor(x: bv32, y: bv32): bv32 { x ^ y }

  function XorShift16(h: bv32): bv32 { h ^ (h >> 16) }

  function XorShift13(h: bv32): bv32 { h ^ (h >> 13) }

  function UnxorShift13(h: bv32): bv32 { h ^ (h >> 13) ^ (h >> 26) }

  /** h += other; h = h * 5 + c */
  function Stir(h: bv32, other: bv32, c: bv32): bv32 { (h + other) * 5 + c }

  function Unstir(h: bv32, other: bv32, c: bv32): bv32 { (h - c) * 0xcccccccd - other }

  /** Multiplication by `c` is undone by multiplication by `inverse`. */
  ghost predicate Units(c: bv32, inverse: bv32) {
    forall x: bv32 :: Mul(Mul(x, c), inverse) == x && Mul(Mul(x, inverse), c) == x
  }

  /** Rotation by `r` is undone by rotation by `back`. */
  ghost predicate Turns(r: bv32, back: bv32) {
    && 0 < r < 32 && 0 < back < 32
    && forall x: bv32 :: Rotl32(Rotl32(x, r), back) == x && Rotl32(Rotl32(x, back), r) == x
  }

  lemma LawC1(x: bv32)
    ensures Mul(Mul(x, 0x239b961b), 0x89c95413) == x && Mul(Mul(x, 0x89c95413), 0x239b961b) == x
  {
    assert Mul(x * 0x239b961b, 0x89c95413) == x && Mul(x * 0x89c95413, 0x239b961b) == x;
  }

  lemma UnitsC1()
    ensures Units(0x239b961b, 0x89c95413) && Units(0x89c95413, 0x239b961b)
  {
    hide Mul;
    forall x: bv32 { LawC1(x); }
  }

  lemma LawC2(x: bv32)
    ensures Mul(Mul(x, 0xab0e9789), 0xdf130eb9) == x && Mul(Mul(x, 0xdf130eb9), 0xab0e9789) == x
  {
    assert Mul(x * 0xab0e9789, 0xdf130eb9) == x && Mul(x * 0xdf130eb9, 0xab0e9789) == x;
  }

  lemma UnitsC2()
    ensures Units(0xab0e9789, 0xdf130eb9) && Units(0xdf130eb9, 0xab0e9789)
  {
    hide Mul;
    forall x: bv32 { LawC2(x); }
  }

  lemma LawC3(x: bv32)
    ensures Mul(Mul(x, 0x38b34ae5), 0x747862ed) == x && Mul(Mul(x, 0x747862ed), 0x38b34ae5) == x
  {
    assert Mul(x * 0x38b34ae5, 0x747862ed) == x && Mul(x * 0x747862ed, 0x38b34ae5) == x;
  }

  lemma UnitsC3()
    ensures Units(0x38b34ae5, 0x747862ed) && Units(0x747862ed, 0x38b34ae5)
  {
    hide Mul;
    forall x: bv32 { LawC3(x); }
  }

  lemma LawC4(x: bv32)
    ensures Mul(Mul(x, 0xa1e38b93), 0x58d64a9b) == x && Mul(Mul(x, 0x58d64a9b), 0xa1e38b93) == x
  {
    assert Mul(x * 0xa1e38b93, 0x58d64a9b) == x && Mul(x * 0x58d64a9b, 0xa1e38b93) == x;
  }

  lemma UnitsC4()
    ensures Units(0xa1e38b93, 0x58d64a9b) && Units(0x58d64a9b, 0xa1e38b93)
  {
    hide Mul;
    forall x: bv32 { LawC4(x); }
  }

  lemma LawB1(x: bv32)
    ensures Mul(Mul(x, 0xcc9e2d51), 0xdee13bb1) == x && Mul(Mul(x, 0xdee13bb1), 0xcc9e2d51) == x
  {
    assert Mul(x * 0xcc9e2d51, 0xdee13bb1) == x && Mul(x * 0xdee13bb1, 0xcc9e2d51) == x;
  }

  lemma UnitsB1()
    ensures Units(0xcc9e2d51, 0xdee13bb1) && Units(0xdee13bb1, 0xcc9e2d51)
  {
    hide Mul;
    forall x: bv32 { LawB1(x); }
  }

  lemma LawB2(x: bv32)
    ensures Mul(Mul(x, 0x1b873593), 0x56ed309b) == x && Mul(Mul(x, 0x56ed309b), 0x1b873593) == x
  {
    assert Mul(x * 0x1b873593, 0x56ed309b) == x && Mul(x * 0x56ed309b, 0x1b873593) == x;
  }

  lemma UnitsB2()
    ensures Units(0x1b873593, 0x56ed309b) && Units(0x56ed309b, 0x1b873593)
  {
    hide Mul;
    forall x: bv32 { LawB2(x); }
  }

  lemma LawF1(x: bv32)
    ensures Mul(Mul(x, 0x85ebca6b), 0xa5cb9243) == x && Mul(Mul(x, 0xa5cb9243), 0x85ebca6b) == x
  {
    assert Mul(x * 0x85ebca6b, 0xa5cb9243) == x && Mul(x * 0xa5cb9243, 0x85ebca6b) == x;
  }

  lemma UnitsF1()
    ensures Units(0x85ebca6b, 0xa5cb9243) && Units(0xa5cb9243, 0x85ebca6b)
  {
    hide Mul;
    forall x: bv32 { LawF1(x); }
  }

  lemma LawF2(x: bv32)
    ensures Mul(Mul(x, 0xc2b2ae35), 0x7ed1b41d) == x && Mul(Mul(x, 0x7ed1b41d), 0xc2b2ae35) == x
  {
    assert Mul(x * 0xc2b2ae35, 0x7ed1b41d) == x && Mul(x * 0x7ed1b41d, 0xc2b2ae35) == x;
  }

  lemma UnitsF2()
    ensures Units(0xc2b2ae35, 0x7ed1b41d) && Units(0x7ed1b41d, 0xc2b2ae35)
  {
    hide Mul;
    forall x: bv32 { LawF2(x); }
  }

  lemma Turns13()
    ensures Turns(13, 19)
  {
    hide Rotl32;
    forall x: bv32 { RotlLaw13(x); }
  }

  lemma RotlLaw13(x: bv32)
    ensures Rotl32(Rotl32(x, 13), 19) == x && Rotl32(Rotl32(x, 19), 13) == x
  {
  }

  lemma Turns15()
    ensures Turns(15, 17)
  {
    hide Rotl32;
    forall x: bv32 { RotlLaw15(x); }
  }

  lemma RotlLaw15(x: bv32)
    ensures Rotl32(Rotl32(x, 15), 17) == x && Rotl32(Rotl32(x, 17), 15) == x
  {
  }

  lemma Turns16()
    ensures Turns(16, 16)
  {
    hide Rotl32;
    forall x: bv32 { RotlLaw16(x); }
  }

  lemma RotlLaw16(x: bv32)
    ensures Rotl32(Rotl32(x, 16), 16) == x && Rotl32(Rotl32(x, 16), 16) == x
  {
  }

  lemma Turns17()
    ensures Turns(17, 15)
  {
    hide Rotl32;
    forall x: bv32 { RotlLaw17(x); }
  }

  lemma RotlLaw17(x: bv32)
    ensures Rotl32(Rotl32(x, 17), 15) == x && Rotl32(Rotl32(x, 15), 17) == x
  {
  }

  lemma Turns18()
    ensures Turns(18, 14)
  {
    hide Rotl32;
    forall x: bv32 { RotlLaw18(x); }
  }

  lemma RotlLaw18(x: bv32)
    ensures Rotl32(Rotl32(x, 18), 14) == x && Rotl32(Rotl32(x, 14), 18) == x
  {
  }

  lemma Turns19()
    ensures Turns(19, 13)
  {
    hide Rotl32;
    forall x: bv32 { RotlLaw19(x); }
  }

  lemma RotlLaw19(x: bv32)
    ensures Rotl32(Rotl32(x, 19), 13) == x && Rotl32(Rotl32(x, 13), 19) == x
  {
  }

  lemma XorTwice(x: bv32, y: bv32)
    ensures Xor(Xor(x, y), y) == x && Xor(x, Xor(x, y)) == y
  {
    assert Xor(x ^ y, y) == x && Xor(x, x ^ y) == y;
  }

  lemma XorLaw(x: bv32, y: bv32, z: bv32)
    ensures Xor(x, y) == z <==> x == Xor(z, y)
    ensures Xor(x, y) == z <==> y == Xor(x, z)
  {
    hide Xor;
    XorTwice(x, y);
    XorTwice(z, y);
    XorTwice(x, z);
  }

  lemma AddLaws(x: bv32, y: bv32)
    ensures Sub(Add(x, y), y) == x && Sub(Add(x, y), x) == y && Add(Sub(x, y), y) == x
  {
    assert Sub(x + y, y) == x && Sub(x + y, x) == y && Add(x - y, y) == x;
  }

  lemma StirLaws(h: bv32, other: bv32, c: bv32)
    ensures Unstir(Stir(h, other, c), other, c) == h
    ensures Stir(Unstir(h, other, c), other, c) == h
  {
    assert Unstir((h + other) * 5 + c, other, c) == h;
    assert Stir((h - c) * 0xcccccccd - other, other, c) == h;
  }

  lemma XorShiftLaws(h: bv32)
    ensures XorShift16(XorShift16(h)) == h
    ensures UnxorShift13(XorShift13(h)) == h && XorShift13(UnxorShift13(h)) == h
  {
    assert XorShift16(h ^ (h >> 16)) == h;
    assert UnxorShift13(h ^ (h >> 13)) == h && XorShift13(h ^ (h >> 13) ^ (h >> 26)) == h;
  }

  // ---------- The shapes of the mixing steps ----------

  /** k *= a; k = ROTL32(k, r); k *= b */
  function Mix(k: bv32, a: bv32, r: bv32, b: bv32): bv32
    requires 0 < r < 32
  {
    Mul(Rotl32(Mul(k, a), r), b)
  }

  lemma MixPermutes(k: bv32, m: bv32, a: bv32, a': bv32, r: bv32, back: bv32, b: bv32, b': bv32)
    requires Units(a, a') && Units(b, b') && Turns(r, back)
    ensures Mix(k, a, r, b) == m <==> k == Mix(m, b', back, a')
  {
    hide Mul, Rotl32;
    var x, y := Mul(k, a), Mul(m, b');
    assert Rotl32(Rotl32(x, r), back) == x && Rotl32(Rotl32(y, back), r) == y;
    assert Mul(Mul(Rotl32(x, r), b), b') == Rotl32(x, r) && Mul(Mul(k, a), a') == k;
    assert Mul(Mul(Rotl32(y, back), a'), a) == Rotl32(y, back) && Mul(Mul(m, b'), b) == m;
  }

  /** h ^= m; h = ROTL32(h, r); h += other; h = h * 5 + c */
  function Quarter(h: bv32, m: bv32, r: bv32, other: bv32, c: bv32): bv32
    requires 0 < r < 32
  {
    Stir(Rotl32(Xor(h, m), r), other, c)
  }

  /** What `h ^ m` was, given what it became; `back` undoes the rotation. */
  function Before(t: bv32, back: bv32, other: bv32, c: bv32): bv32
    requires 0 < back < 32
  {
    Rotl32(Unstir(t, other, c), back)
  }

  lemma QuarterPermutes(h: bv32, m: bv32, r: bv32, back: bv32, other: bv32, c: bv32, t: bv32)
    requires Turns(r, back)
    ensures Quarter(h, m, r, other, c) == t <==> Xor(h, m) == Before(t, back, other, c)
  {
    hide Mul, Rotl32, Xor, Stir, Unstir;
    var x, y := Xor(h, m), Unstir(t, other, c);
    StirLaws(Rotl32(x, r), other, c);
    StirLaws(t, other, c);
    assert Rotl32(Rotl32(x, r), back) == x && Rotl32(Rotl32(y, back), r) == y;
  }

  function Fmix32(h: bv32): bv32 {
    XorShift16(Mul(XorShift13(Mul(XorShift16(h), 0x85ebca6b)), 0xc2b2ae35))
  }

  function Unfmix32(h: bv32): bv32 {
    XorShift16(Mul(UnxorShift13(Mul(XorShift16(h), 0x7ed1b41d)), 0xa5cb9243))
  }

  lemma FmixPermutes(h: bv32, d: bv32)
    ensures Fmix32(h) == d <==> h == Unfmix32(d)
  {
    hide Mul, XorShift16, XorShift13, UnxorShift13;
    UnitsF1();
    UnitsF2();
    var a := XorShift16(h);
    var b := Mul(a, 0x85ebca6b);
    var e := Mul(XorShift13(b), 0xc2b2ae35);
    XorShiftLaws(h);
    XorShiftLaws(b);
    XorShiftLaws(e);
    var a' := XorShift16(d);
    var b' := Mul(a', 0x7ed1b41d);
    var e' := Mul(UnxorShift13(b'), 0xa5cb9243);
    XorShiftLaws(d);
    XorShiftLaws(b');
    XorShiftLaws(e');
    assert Mul(Mul(a, 0x85ebca6b), 0xa5cb9243) == a && Mul(Mul(XorShift13(b), 0xc2b2ae35), 0x7ed1b41d) == XorShift13(b);
    assert Mul(Mul(a', 0x7ed1b41d), 0xc2b2ae35) == a' && Mul(Mul(UnxorShift13(b'), 0xa5cb9243), 0x85ebca6b) == UnxorShift13(b');
  }

  // ---------- MurmurHash3_x86_32 ----------

  function MixBlock(k: bv32): bv32 { Mix(k, 0xcc9e2d51, 15, 0x1b873593) }

  function UnmixBlock(m: bv32): bv32 { Mix(m, 0x56ed309b, 17, 0xdee13bb1) }

  lemma MixBlockPermutes(k: bv32, m: bv32)
    ensures MixBlock(k) == m <==> k == UnmixBlock(m)
  {
    hide Units, Mix, Turns;
    UnitsB1();
    UnitsB2();
    Turns15();
    MixPermutes(k, m, 0xcc9e2d51, 0xdee13bb1, 15, 17, 0x1b873593, 0x56ed309b);
  }

  function WordStep(h: bv32, k: bv32): bv32 { Quarter(h, MixBlock(k), 13, 0, 0xe6546b64) }

  function UnstepWord(t: bv32, k: bv32): bv32 { Xor(Before(t, 19, 0, 0xe6546b64), MixBlock(k)) }

  /** The block that leads from `h` to `t` in the body. */
  function StepBlock(h: bv32, t: bv32): bv32 { UnmixBlock(Xor(h, Before(t, 19, 0, 0xe6546b64))) }

  /** The body step is a permutation of the state for a fixed block, and of the block for a fixed state. */
  lemma WordStepPermutes(h: bv32, k: bv32, t: bv32)
    ensures WordStep(h, k) == t <==> h == UnstepWord(t, k)
    ensures WordStep(h, k) == t <==> k == StepBlock(h, t)
  {
    hide Units, Turns, Xor, MixBlock, UnmixBlock, Quarter, Before;
    Turns13();
    var x := Before(t, 19, 0, 0xe6546b64);
    QuarterPermutes(h, MixBlock(k), 13, 19, 0, 0xe6546b64, t);
    XorLaw(h, MixBlock(k), x);
    MixBlockPermutes(k, Xor(h, x));
  }

  // ---------- MurmurHash3_x86_128 ----------

  function Mix1(k: bv32): bv32 { Mix(k, 0x239b961b, 15, 0xab0e9789) }

  function Mix2(k: bv32): bv32 { Mix(k, 0xab0e9789, 16, 0x38b34ae5) }

  function Mix3(k: bv32): bv32 { Mix(k, 0x38b34ae5, 17, 0xa1e38b93) }

  function Mix4(k: bv32): bv32 { Mix(k, 0xa1e38b93, 18, 0x239b961b) }

  function Unmix1(m: bv32): bv32 { Mix(m, 0xdf130eb9, 17, 0x89c95413) }

  function Unmix2(m: bv32): bv32 { Mix(m, 0x747862ed, 16, 0xdf130eb9) }

  function Unmix3(m: bv32): bv32 { Mix(m, 0x58d64a9b, 15, 0x747862ed) }

  function Unmix4(m: bv32): bv32 { Mix(m, 0x89c95413, 14, 0x58d64a9b) }

  lemma MixesPermute(k: bv32, m: bv32)
    ensures (Mix1(k) == m <==> k == Unmix1(m)) && (Mix2(k) == m <==> k == Unmix2(m))
    ensures (Mix3(k) == m <==> k == Unmix3(m)) && (Mix4(k) == m <==> k == Unmix4(m))
  {
    hide Units, Turns, Mix;
    UnitsC1();
    UnitsC2();
    UnitsC3();
    UnitsC4();
    Turns15();
    Turns16();
    Turns17();
    Turns18();
    MixPermutes(k, m, 0x239b961b, 0x89c95413, 15, 17, 0xab0e9789, 0xdf130eb9);
    MixPermutes(k, m, 0xab0e9789, 0xdf130eb9, 16, 16, 0x38b34ae5, 0x747862ed);
    MixPermutes(k, m, 0x38b34ae5, 0x747862ed, 17, 15, 0xa1e38b93, 0x58d64a9b);
    MixPermutes(k, m, 0xa1e38b93, 0x58d64a9b, 18, 14, 0x239b961b, 0x89c95413);
  }

  /** One round of the body: each accumulator takes in its neighbour, the last one the new first. */
  function Step4(s: State4, x: Lane4): State4 {
    var h1 := Quarter(s.h1, Mix1(x.k1), 19, s.h2, 0x561ccd1b);
    var h2 := Quarter(s.h2, Mix2(x.k2), 17, s.h3, 0x0bcaa747);
    var h3 := Quarter(s.h3, Mix3(x.k3), 15, s.h4, 0x96cd1c35);
    var h4 := Quarter(s.h4, Mix4(x.k4), 13, h1, 0x32ac3b17);
    State4(h1, h2, h3, h4)
  }

  function Before1(t: State4, h2: bv32): bv32 { Before(t.h1, 13, h2, 0x561ccd1b) }

  function Before2(t: State4, h3: bv32): bv32 { Before(t.h2, 15, h3, 0x0bcaa747) }

  function Before3(t: State4, h4: bv32): bv32 { Before(t.h3, 17, h4, 0x96cd1c35) }

  function Before4(t: State4): bv32 { Before(t.h4, 19, t.h1, 0x32ac3b17) }

  /** The state from which lane `x` leads to `t`: the last accumulator first. */
  function Unstep4(t: State4, x: Lane4): State4 {
    var h4 := Xor(Before4(t), Mix4(x.k4));
    var h3 := Xor(Before3(t, h4), Mix3(x.k3));
    var h2 := Xor(Before2(t, h3), Mix2(x.k2));
    State4(Xor(Before1(t, h2), Mix1(x.k1)), h2, h3, h4)
  }

  /** The lane that leads from `s` to `t` in the body. */
  function StepLane4(s: State4, t: State4): Lane4 {
    Lane4(Unmix1(Xor(s.h1, Before1(t, s.h2))), Unmix2(Xor(s.h2, Before2(t, s.h3))),
          Unmix3(Xor(s.h3, Before3(t, s.h4))), Unmix4(Xor(s.h4, Before4(t))))
  }

  /** The body step is a permutation of the state for a fixed lane, and of the lane for a fixed state. */
  lemma Step4Permutes(s: State4, x: Lane4, t: State4)
    ensures Step4(s, x) == t <==> s == Unstep4(t, x)
    ensures Step4(s, x) == t <==> x == StepLane4(s, t)
  {
    hide Units, Turns, Xor, Mix1, Mix2, Mix3, Mix4, Unmix1, Unmix2, Unmix3, Unmix4, Quarter, Before;
    Turns13();
    Turns15();
    Turns17();
    Turns19();
    QuarterPermutes(s.h1, Mix1(x.k1), 19, 13, s.h2, 0x561ccd1b, t.h1);
    QuarterPermutes(s.h2, Mix2(x.k2), 17, 15, s.h3, 0x0bcaa747, t.h2);
    QuarterPermutes(s.h3, Mix3(x.k3), 15, 17, s.h4, 0x96cd1c35, t.h3);
    QuarterPermutes(s.h4, Mix4(x.k4), 13, 19, t.h1, 0x32ac3b17, t.h4);
    XorLaw(s.h1, Mix1(x.k1), Before1(t, s.h2));
    XorLaw(s.h2, Mix2(x.k2), Before2(t, s.h3));
    XorLaw(s.h3, Mix3(x.k3), Before3(t, s.h4));
    XorLaw(s.h4, Mix4(x.k4), Before4(t));
    MixesPermute(x.k1, Xor(s.h1, Before1(t, s.h2)));
    MixesPermute(x.k2, Xor(s.h2, Before2(t, s.h3)));
    MixesPermute(x.k3, Xor(s.h3, Before3(t, s.h4)));
    MixesPermute(x.k4, Xor(s.h4, Before4(t)));
  }

  /** The tail, as one lane. */
  function Tail4(s: State4, x: Lane4): State4 {
    State4(Xor(s.h1, Mix1(x.k1)), Xor(s.h2, Mix2(x.k2)), Xor(s.h3, Mix3(x.k3)), Xor(s.h4, Mix4(x.k4)))
  }

  function TailLane4(s: State4, t: State4): Lane4 {
    Lane4(Unmix1(Xor(s.h1, t.h1)), Unmix2(Xor(s.h2, t.h2)), Unmix3(Xor(s.h3, t.h3)), Unmix4(Xor(s.h4, t.h4)))
  }

  lemma Tail4Permutes(s: State4, x: Lane4, t: State4)
    ensures Tail4(s, x) == t <==> s == Tail4(t, x)
    ensures Tail4(s, x) == t <==> x == TailLane4(s, t)
  {
    hide Xor, Mix1, Mix2, Mix3, Mix4, Unmix1, Unmix2, Unmix3, Unmix4;
    XorLaw(s.h1, Mix1(x.k1), t.h1);
    XorLaw(s.h2, Mix2(x.k2), t.h2);
    XorLaw(s.h3, Mix3(x.k3), t.h3);
    XorLaw(s.h4, Mix4(x.k4), t.h4);
    MixesPermute(x.k1, Xor(s.h1, t.h1));
    MixesPermute(x.k2, Xor(s.h2, t.h2));
    MixesPermute(x.k3, Xor(s.h3, t.h3));
    MixesPermute(x.k4, Xor(s.h4, t.h4));
  }

  /** h1 += h2; h1 += h3; h1 += h4; h2 += h1; h3 += h1; h4 += h1 */
  function CrossAdd4(s: State4): State4 {
    var h1 := Add(Add(Add(s.h1, s.h2), s.h3), s.h4);
    State4(h1, Add(s.h2, h1), Add(s.h3, h1), Add(s.h4, h1))
  }

  function Uncross4(t: State4): State4 {
    var h2, h3, h4 := Sub(t.h2, t.h1), Sub(t.h3, t.h1), Sub(t.h4, t.h1);
    State4(Sub(Sub(Sub(t.h1, h4), h3), h2), h2, h3, h4)
  }

  lemma UncrossCross(s: State4)
    ensures Uncross4(CrossAdd4(s)) == s
  {
    hide Add, Sub;
    var a := Add(s.h1, s.h2);
    var b := Add(a, s.h3);
    var c := Add(b, s.h4);
    AddLaws(s.h1, s.h2);
    AddLaws(a, s.h3);
    AddLaws(b, s.h4);
    AddLaws(s.h2, c);
    AddLaws(s.h3, c);
    AddLaws(s.h4, c);
  }

  lemma CrossUncross(t: State4)
    ensures CrossAdd4(Uncross4(t)) == t
  {
    hide Add, Sub;
    var u := Uncross4(t);
    AddLaws(t.h2, t.h1);
    AddLaws(t.h3, t.h1);
    AddLaws(t.h4, t.h1);
    AddLaws(t.h1, u.h4);
    AddLaws(Sub(t.h1, u.h4), u.h3);
    AddLaws(Sub(Sub(t.h1, u.h4), u.h3), u.h2);
  }

  lemma Cross4Permutes(s: State4, t: State4)
    ensures CrossAdd4(s) == t <==> s == Uncross4(t)
  {
    hide CrossAdd4, Uncross4;
    UncrossCross(s);
    CrossUncross(t);
  }

  function XorAll(s: State4, len: bv32): State4 {
    State4(Xor(s.h1, len), Xor(s.h2, len), Xor(s.h3, len), Xor(s.h4, len))
  }

  function FmixAll(s: State4): State4 { State4(Fmix32(s.h1), Fmix32(s.h2), Fmix32(s.h3), Fmix32(s.h4)) }

  function UnfmixAll(s: State4): State4 { State4(Unfmix32(s.h1), Unfmix32(s.h2), Unfmix32(s.h3), Unfmix32(s.h4)) }

  function Finalize4(s: State4, len: bv32): State4 { CrossAdd4(FmixAll(CrossAdd4(XorAll(s, len)))) }

  function Unfinalize4(d: State4, len: bv32): State4 { XorAll(Uncross4(UnfmixAll(Uncross4(d))), len) }

  lemma XorAllPermutes(s: State4, len: bv32, t: State4)
    ensures XorAll(s, len) == t <==> s == XorAll(t, len)
  {
    hide Xor;
    XorLaw(s.h1, len, t.h1);
    XorLaw(s.h2, len, t.h2);
    XorLaw(s.h3, len, t.h3);
    XorLaw(s.h4, len, t.h4);
  }

  lemma FmixAllPermutes(s: State4, t: State4)
    ensures FmixAll(s) == t <==> s == UnfmixAll(t)
  {
    hide Fmix32, Unfmix32;
    FmixPermutes(s.h1, t.h1);
    FmixPermutes(s.h2, t.h2);
    FmixPermutes(s.h3, t.h3);
    FmixPermutes(s.h4, t.h4);
  }

  /** Finalization is a permutation of the 128-bit states, for every length. */
  lemma Finalize4Permutes(s: State4, len: bv32, d: State4)
    ensures Finalize4(s, len) == d <==> s == Unfinalize4(d, len)
  {
    hide CrossAdd4, Uncross4, FmixAll, UnfmixAll, XorAll;
    var b := Uncross4(d);
    var a := UnfmixAll(b);
    Cross4Permutes(FmixAll(CrossAdd4(XorAll(s, len))), d);
    FmixAllPermutes(CrossAdd4(XorAll(s, len)), b);
    Cross4Permutes(XorAll(s, len), a);
    XorAllPermutes(s, len, Uncross4(a));
  }

  /** A state finalized with different lengths gives different digests. */
  lemma Finalize4TellsLengths(s: State4, a: bv32, b: bv32)
    ensures Finalize4(s, a) == Finalize4(s, b) ==> a == b
  {
    hide Xor, CrossAdd4, Uncross4, FmixAll, UnfmixAll, Finalize4;
    var d := Finalize4(s, a);
    Finalize4Permutes(s, a, d);
    Finalize4Permutes(s, b, d);
    var y := Uncross4(UnfmixAll(Uncross4(d))).h1;
    XorLaw(y, a, s.h1);
    XorLaw(y, b, s.h1);
  }
}
