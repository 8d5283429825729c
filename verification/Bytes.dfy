/** Bytes, and the fixed-width words that the hash functions read from them. */
module Bytes {

  type Byte = bv8

  /** `n` zero bytes: a freshly resized buffer. */
  function Zeros(n: nat): (r: seq<Byte>)
    ensures |r| == n && forall i :: 0 <= i < n ==> r[i] == 0
  {
    seq(n, i => 0)
  }

  /** The word whose lowest byte is `b` and whose other bytes are those of `w`, moved up by one. */
  function Push(w: bv64, b: Byte): bv64 { (w << 8) | (b as bv64) }

  /** The word without its lowest byte. */
  function Pop(w: bv64): bv64 { w >> 8 }

  /** The byte `shift` bits up in a word: the C cast `(uint8_t)(w >> shift)`. */
  function ByteAt64(w: bv64, shift: bv64): Byte
    requires shift < 64
  {
    ((w >> shift) & 0xff) as Byte
  }

  /** The 64-bit word a little-endian machine loads from eight bytes. */
  function Load64(b: seq<Byte>): bv64
    requires |b| == 8
  {
    Push(Push(Push(Push(Push(Push(Push(Push(0, b[7]), b[6]), b[5]), b[4]), b[3]), b[2]), b[1]), b[0])
  }

  /** The eight bytes a little-endian machine stores for a 64-bit word. */
  function Store64(w: bv64): (b: seq<Byte>)
    ensures |b| == 8
  {
    [ByteAt64(w, 0), ByteAt64(w, 8), ByteAt64(w, 16), ByteAt64(w, 24),
     ByteAt64(w, 32), ByteAt64(w, 40), ByteAt64(w, 48), ByteAt64(w, 56)]
  }

  lemma PushMovesBytes(w: bv64, b: Byte)
    ensures ByteAt64(Push(w, b), 0) == b
    ensures ByteAt64(Push(w, b), 8) == ByteAt64(w, 0) && ByteAt64(Push(w, b), 16) == ByteAt64(w, 8)
    ensures ByteAt64(Push(w, b), 24) == ByteAt64(w, 16) && ByteAt64(Push(w, b), 32) == ByteAt64(w, 24)
    ensures ByteAt64(Push(w, b), 40) == ByteAt64(w, 32) && ByteAt64(Push(w, b), 48) == ByteAt64(w, 40)
    ensures ByteAt64(Push(w, b), 56) == ByteAt64(w, 48)
  {
  }

  lemma PopMovesBytes(w: bv64)
    ensures Push(Pop(w), ByteAt64(w, 0)) == w
    ensures ByteAt64(Pop(w), 0) == ByteAt64(w, 8) && ByteAt64(Pop(w), 8) == ByteAt64(w, 16)
    ensures ByteAt64(Pop(w), 16) == ByteAt64(w, 24) && ByteAt64(Pop(w), 24) == ByteAt64(w, 32)
    ensures ByteAt64(Pop(w), 32) == ByteAt64(w, 40) && ByteAt64(Pop(w), 40) == ByteAt64(w, 48)
    ensures ByteAt64(Pop(w), 48) == ByteAt64(w, 56)
  {
  }

  lemma PopEightTimes(w: bv64)
    ensures Pop(Pop(Pop(Pop(Pop(Pop(Pop(Pop(w)))))))) == 0
  {
    assert Pop(w >> 8) == w >> 16 && Pop(w >> 16) == w >> 24 && Pop(w >> 24) == w >> 32;
    assert Pop(w >> 32) == w >> 40 && Pop(w >> 40) == w >> 48 && Pop(w >> 48) == w >> 56 && Pop(w >> 56) == 0;
  }

  lemma LoadStore64(w: bv64)
    ensures Load64(Store64(w)) == w
  {
    hide Push, Pop, ByteAt64;
    var w1 := Pop(w);
    var w2 := Pop(w1);
    var w3 := Pop(w2);
    var w4 := Pop(w3);
    var w5 := Pop(w4);
    var w6 := Pop(w5);
    var w7 := Pop(w6);
    PopMovesBytes(w);
    PopMovesBytes(w1);
    PopMovesBytes(w2);
    PopMovesBytes(w3);
    PopMovesBytes(w4);
    PopMovesBytes(w5);
    PopMovesBytes(w6);
    PopMovesBytes(w7);
    PopEightTimes(w);
  }

  lemma StoreLoad64(b: seq<Byte>)
    requires |b| == 8
    ensures Store64(Load64(b)) == b
  {
    hide Push, ByteAt64;
    var w7 := Push(0, b[7]);
    var w6 := Push(w7, b[6]);
    var w5 := Push(w6, b[5]);
    var w4 := Push(w5, b[4]);
    var w3 := Push(w4, b[3]);
    var w2 := Push(w3, b[2]);
    var w1 := Push(w2, b[1]);
    PushMovesBytes(0, b[7]);
    PushMovesBytes(w7, b[6]);
    PushMovesBytes(w6, b[5]);
    PushMovesBytes(w5, b[4]);
    PushMovesBytes(w4, b[3]);
    PushMovesBytes(w3, b[2]);
    PushMovesBytes(w2, b[1]);
    PushMovesBytes(w1, b[0]);
  }

  // ---------- 32-bit words ----------

  /** The 32-bit word a little-endian machine loads from four bytes. */
  function Load32(b: seq<Byte>): bv32
    requires |b| == 4
  {
    Join32(b[0], b[1], b[2], b[3])
  }

  function Join32(b0: Byte, b1: Byte, b2: Byte, b3: Byte): bv32 {
    (b0 as bv32) | ((b1 as bv32) << 8) | ((b2 as bv32) << 16) | ((b3 as bv32) << 24)
  }

  function ByteAt32(w: bv32, shift: bv32): Byte
    requires shift < 32
  {
    ((w >> shift) & 0xff) as Byte
  }

  /** The four bytes a little-endian machine stores for a 32-bit word. */
  function Store32(w: bv32): (b: seq<Byte>)
    ensures |b| == 4
  {
    [ByteAt32(w, 0), ByteAt32(w, 8), ByteAt32(w, 16), ByteAt32(w, 24)]
  }

  lemma JoinSplits(b0: Byte, b1: Byte, b2: Byte, b3: Byte)
    ensures var w := Join32(b0, b1, b2, b3);
            ByteAt32(w, 0) == b0 && ByteAt32(w, 8) == b1 && ByteAt32(w, 16) == b2 && ByteAt32(w, 24) == b3
  {
  }

  lemma SplitJoins(w: bv32)
    ensures Join32(ByteAt32(w, 0), ByteAt32(w, 8), ByteAt32(w, 16), ByteAt32(w, 24)) == w
  {
  }

  /** Four bytes and a word determine each other. */
  lemma Word32RoundTrip(b: seq<Byte>, w: bv32)
    requires |b| == 4
    ensures Load32(b) == w <==> b == Store32(w)
  {
    hide Join32, ByteAt32;
    JoinSplits(b[0], b[1], b[2], b[3]);
    SplitJoins(w);
    assert b == [b[0], b[1], b[2], b[3]];
  }

  // ---------- Lengths ----------

  function Plus32(v: bv32, w: bv32): bv32 { v + w }

  /** An `int` that is not negative, converted to an unsigned word: words count as numbers do, modulo 2^32. */
  function LengthWord(n: nat): bv32 {
    if n == 0 then 0 else Plus32(LengthWord(n - 1), 1)
  }

  lemma PlusOne(v: bv32, w: bv32)
    ensures Plus32(Plus32(v, w), 1) == Plus32(v, Plus32(w, 1))
  {
    assert Plus32(v + w, 1) == Plus32(v, w + 1);
  }

  lemma PlusZero(v: bv32, w: bv32)
    ensures Plus32(v, w) == v <==> w == 0
  {
  }

  lemma {:induction false} LengthsAdd(n: nat, z: nat)
    ensures LengthWord(n + z) == Plus32(LengthWord(n), LengthWord(z))
  {
    hide Plus32;
    if z > 0 {
      LengthsAdd(n, z - 1);
      PlusOne(LengthWord(n), LengthWord(z - 1));
    } else {
      PlusZero(LengthWord(n), 0);
    }
  }

  lemma SmallLengths(z: nat)
    requires 0 < z < 16
    ensures LengthWord(z) != 0
  {
    assert LengthWord(4) == 4;
    assert LengthWord(8) == 8;
    assert LengthWord(12) == 12;
    assert LengthWord(15) == 15;
  }

  /** Lengths that are less than sixteen apart are different words. */
  lemma NearLengthsDiffer(n: nat, z: nat)
    requires 0 < z < 16
    ensures LengthWord(n + z) != LengthWord(n)
  {
    hide LengthWord, Plus32;
    LengthsAdd(n, z);
    SmallLengths(z);
    PlusZero(LengthWord(n), LengthWord(z));
  }
}
