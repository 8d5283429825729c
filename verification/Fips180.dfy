/** SHA-1 as FIPS 180-4 defines it: the reference that `Sha1` is proved against. */
module Fips180 {
  import opened Bytes

  type Word = bv32

  /** The five working variables, and also the hash value H(i). */
  datatype Registers = Registers(a: Word, b: Word, c: Word, d: Word, e: Word)

  // ---------- Section 4: functions and constants ----------

  function Rotl(x: Word, n: bv32): Word
    requires 0 < n < 32
  {
    (x << n) | (x >> (32 - n))
  }

  function Ch(x: Word, y: Word, z: Word): Word { (x & y) ^ (!x & z) }

  function Parity(x: Word, y: Word, z: Word): Word { x ^ y ^ z }

  function Maj(x: Word, y: Word, z: Word): Word { (x & y) ^ (x & z) ^ (y & z) }

  /** Section 4.1.1 */
  function F(t: nat, x: Word, y: Word, z: Word): Word {
    if t < 20 then Ch(x, y, z)
    else if t < 40 then Parity(x, y, z)
    else if t < 60 then Maj(x, y, z)
    else Parity(x, y, z)
  }

  /** Section 4.2.1 */
  function K(t: nat): Word {
    if t < 20 then 0x5a827999
    else if t < 40 then 0x6ed9eba1
    else if t < 60 then 0x8f1bbcdc
    else 0xca62c1d6
  }

  // ---------- Section 5: preprocessing ----------

  /** The two's-complement-free value of a count as eight bytes, most significant first. */
  function BigEndian64(n: nat): (b: seq<Byte>)
    requires n < 0x1_0000_0000_0000_0000
    ensures |b| == 8
  {
    [NatByte(n / 0x100_0000_0000_0000), NatByte(n / 0x1_0000_0000_0000 % 256),
     NatByte(n / 0x100_0000_0000 % 256), NatByte(n / 0x1_0000_0000 % 256),
     NatByte(n / 0x100_0000 % 256), NatByte(n / 0x1_0000 % 256), NatByte(n / 0x100 % 256), NatByte(n % 256)]
  }

  function NatByte(n: nat): Byte
    requires n < 256
  {
    n as Byte
  }

  /** The number of zero bytes: the least k with n + 1 + k congruent to 56 modulo 64. */
  function PadLength(n: nat): (k: nat)
    ensures k < 64 && (n + 1 + k) % 64 == 56
  {
    (119 - n % 64) % 64
  }

  /** Section 5.1.1: a one bit, zeros, and the length in bits. */
  function Pad(msg: seq<Byte>): seq<Byte>
    requires 8 * |msg| < 0x1_0000_0000_0000_0000
  {
    msg + [0x80] + Zeros(PadLength(|msg|)) + BigEndian64(8 * |msg|)
  }

  /** Section 5.2.1: four bytes are a word, most significant first. */
  function BigEndianWord(b0: Byte, b1: Byte, b2: Byte, b3: Byte): Word {
    ((b0 as Word) << 24) | ((b1 as Word) << 16) | ((b2 as Word) << 8) | (b3 as Word)
  }

  function MessageWord(block: seq<Byte>, t: nat): Word
    requires |block| == 64 && t < 16
  {
    BigEndianWord(block[4 * t], block[4 * t + 1], block[4 * t + 2], block[4 * t + 3])
  }

  /** Section 5.3.1 */
  const INITIAL_HASH := Registers(0x67452301, 0xefcdab89, 0x98badcfe, 0x10325476, 0xc3d2e1f0)

  // ---------- Section 6.1.2: the hash computation ----------

  /** Step 1: the message schedule. */
  function W(block: seq<Byte>, t: nat): Word
    requires |block| == 64
  {
    if t < 16 then MessageWord(block, t)
    else Rotl(Mix4(W(block, t - 3), W(block, t - 8), W(block, t - 14), W(block, t - 16)), 1)
  }

  function Mix4(w: Word, x: Word, y: Word, z: Word): Word { w ^ x ^ y ^ z }

  function Sum5(v: Word, w: Word, x: Word, y: Word, z: Word): Word { v + w + x + y + z }

  /** Step 3, for one t. */
  function Round(r: Registers, t: nat, w: Word): Registers {
    Registers(Sum5(Rotl(r.a, 5), F(t, r.b, r.c, r.d), r.e, K(t), w), r.a, Rotl(r.b, 30), r.c, r.d)
  }

  /** Steps 2 and 3: the working variables after rounds 0 to t - 1. */
  function Rounds(h: Registers, block: seq<Byte>, t: nat): Registers
    requires |block| == 64
  {
    if t == 0 then h else Round(Rounds(h, block, t - 1), t - 1, W(block, t - 1))
  }

  function Add(x: Word, y: Word): Word { x + y }

  function AddAll(h: Registers, r: Registers): Registers {
    Registers(Add(h.a, r.a), Add(h.b, r.b), Add(h.c, r.c), Add(h.d, r.d), Add(h.e, r.e))
  }

  /** Steps 1 to 4: the next hash value. */
  function Compress(h: Registers, block: seq<Byte>): Registers
    requires |block| == 64
  {
    AddAll(h, Rounds(h, block, 80))
  }

  /** All whole blocks of a message, in order. */
  function Absorb(h: Registers, msg: seq<Byte>): Registers
    decreases |msg|
  {
    if |msg| < 64 then h else Absorb(Compress(h, msg[..64]), msg[64..])
  }

  /** The bytes after the last whole block. */
  function Rest(msg: seq<Byte>): (r: seq<Byte>)
    ensures |r| < 64
  {
    if |msg| < 64 then msg else Rest(msg[64..])
  }

  function WordBytes(w: Word): (b: seq<Byte>)
    ensures |b| == 4
  {
    [ByteAt32(w, 24), ByteAt32(w, 16), ByteAt32(w, 8), ByteAt32(w, 0)]
  }

  function HashBytes(h: Registers): (b: seq<Byte>)
    ensures |b| == 20
  {
    WordBytes(h.a) + WordBytes(h.b) + WordBytes(h.c) + WordBytes(h.d) + WordBytes(h.e)
  }

  function SHA1(msg: seq<Byte>): (digest: seq<Byte>)
    requires 8 * |msg| < 0x1_0000_0000_0000_0000
    ensures |digest| == 20
  {
    HashBytes(Absorb(INITIAL_HASH, Pad(msg)))
  }

  // ---------- Laws ----------

  /** The padded message is a whole number of blocks. */
  lemma PadFillsBlocks(msg: seq<Byte>)
    requires 8 * |msg| < 0x1_0000_0000_0000_0000
    ensures |Pad(msg)| % 64 == 0
  {
    hide BigEndian64;
    var m := |msg| + 1 + PadLength(|msg|);
    assert |Pad(msg)| == m + 8 && m % 64 == 56;
  }

  lemma {:induction false} AbsorbConcat(h: Registers, pre: seq<Byte>, suf: seq<Byte>)
    requires |pre| % 64 == 0
    ensures Absorb(h, pre + suf) == Absorb(Absorb(h, pre), suf)
    ensures Rest(pre + suf) == Rest(suf)
    decreases |pre|
  {
    hide Compress;
    if pre == [] {
      assert pre + suf == suf;
    } else {
      assert (pre + suf)[..64] == pre[..64] && (pre + suf)[64..] == pre[64..] + suf;
      AbsorbConcat(Compress(h, pre[..64]), pre[64..], suf);
    }
  }

  lemma {:induction false} RestLength(msg: seq<Byte>)
    ensures |Rest(msg)| == |msg| % 64
  {
    if |msg| >= 64 {
      RestLength(msg[64..]);
    }
  }

  /** A message is its whole blocks and then the rest. */
  lemma {:induction false} SplitAtRest(h: Registers, msg: seq<Byte>)
    ensures var n := |msg| - |Rest(msg)|;
            && n >= 0 && n % 64 == 0 && msg[n..] == Rest(msg)
            && Absorb(h, msg) == Absorb(h, msg[..n])
    decreases |msg|
  {
    hide Compress;
    RestLength(msg);
    if |msg| >= 64 {
      var m := |msg| - |Rest(msg)|;
      SplitAtRest(Compress(h, msg[..64]), msg[64..]);
      assert msg[..m][..64] == msg[..64] && msg[..m][64..] == msg[64..][..m - 64];
    }
  }

  lemma AbsorbBlock(h: Registers, pre: seq<Byte>, block: seq<Byte>)
    requires |pre| % 64 == 0 && |block| == 64
    ensures Absorb(h, pre + block) == Compress(Absorb(h, pre), block)
    ensures Rest(pre + block) == []
  {
    hide Compress;
    AbsorbConcat(h, pre, block);
    assert block[..64] == block && block[64..] == [];
  }

  lemma AbsorbPart(h: Registers, pre: seq<Byte>, part: seq<Byte>)
    requires |pre| % 64 == 0 && |part| < 64
    ensures Absorb(h, pre + part) == Absorb(h, pre)
    ensures Rest(pre + part) == part
  {
    AbsorbConcat(h, pre, part);
  }
}
