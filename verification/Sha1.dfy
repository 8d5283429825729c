/**
 CSHA1, the streaming SHA-1 of the bundled SQL wrapper: its circular message schedule and unrolled
 rounds, its partial-block buffer, its split bit counter and its padding loop, proved to compute the
 SHA-1 of `Fips180` on every message however it is split into updates.
 */
module Sha1 {
  import opened Bytes
  import opened Fips180

  // ---------- The source's word expressions ----------

  /** A little-endian load of four message bytes, as `memcpy` leaves them in the workspace. */
  function RawWord(block: seq<Byte>, t: nat): Word
    requires |block| == 64 && t < 16
  {
    Join32(block[4 * t], block[4 * t + 1], block[4 * t + 2], block[4 * t + 3])
  }

  /** SHABLK0: swap the bytes of a word with two rotations and two masks. */
  function SwapBytes(x: Word): Word {
    (Rotl(x, 24) & 0xff00ff00) | (Rotl(x, 8) & 0x00ff00ff)
  }

  /** The first and second rounds' `((w&(x^y))^y)`. */
  function ChRewritten(w: Word, x: Word, y: Word): Word { (w & (x ^ y)) ^ y }

  /** The third rounds' `(((w|x)&y)|(w&x))`. */
  function MajRewritten(w: Word, x: Word, y: Word): Word { ((w | x) & y) | (w & x) }

  lemma SwapReadsBigEndian(b0: Byte, b1: Byte, b2: Byte, b3: Byte)
    ensures SwapBytes(Join32(b0, b1, b2, b3)) == BigEndianWord(b0, b1, b2, b3)
  {
  }

  lemma ChAgrees(w: Word, x: Word, y: Word)
    ensures ChRewritten(w, x, y) == Ch(w, x, y)
  {
    assert (w & (x ^ y)) ^ y == (w & x) ^ (!w & y);
  }

  lemma MajAgrees(w: Word, x: Word, y: Word)
    ensures MajRewritten(w, x, y) == Maj(w, x, y)
  {
    assert ((w | x) & y) | (w & x) == (w & x) ^ (w & y) ^ (x & y);
  }

  /** `z += f + word + k + rol` */
  function PlusEquals(z: Word, f: Word, word: Word, k: Word, rol: Word): Word { z + (f + word + k + rol) }

  /** The same five terms as in FIPS 180-4, in another order. */
  lemma SumReordered(z: Word, f: Word, word: Word, k: Word, rol: Word)
    ensures PlusEquals(z, f, word, k, rol) == Sum5(rol, f, z, k, word)
  {
  }

  lemma SwapReadsMessageWord(block: seq<Byte>, i: nat)
    requires |block| == 64 && i < 16
    ensures SwapBytes(RawWord(block, i)) == W(block, i)
  {
    hide SwapBytes, Join32, BigEndianWord;
    SwapReadsBigEndian(block[4 * i], block[4 * i + 1], block[4 * i + 2], block[4 * i + 3]);
  }

  // ---------- The circular schedule ----------

  /**
   Before round `i` the sixteen words hold the last sixteen schedule words, the word of index t in slot
   t mod 16; slots not reached yet still hold the message as it was loaded.
   */
  ghost predicate Circular(b: seq<Word>, block: seq<Byte>, i: nat)
    requires |block| == 64
  {
    && |b| == 16
    && (forall t :: 0 <= t < i && i - 16 <= t ==> b[t % 16] == W(block, t))
    && (forall j :: i <= j < 16 ==> b[j] == RawWord(block, j))
  }

  lemma CircularStep(b: seq<Word>, block: seq<Byte>, i: nat, w: Word)
    requires |block| == 64
    requires Circular(b, block, i) && w == W(block, i)
    ensures Circular(b[i % 16 := w], block, i + 1)
  {
    hide W, RawWord;
    forall t | 0 <= t < i + 1 && i + 1 - 16 <= t
      ensures b[i % 16 := w][t % 16] == W(block, t)
    {
      if t < i {
        assert t % 16 != i % 16;
      }
    }
  }

  /** SHABLK reads the words of index i - 3, i - 8, i - 14 and i - 16 at their slots. */
  lemma {:induction false} SlotsOfSchedule(b: seq<Word>, block: seq<Byte>, i: nat)
    requires |block| == 64 && i >= 16
    requires Circular(b, block, i)
    ensures Rotl(Mix4(b[(i + 13) % 16], b[(i + 8) % 16], b[(i + 2) % 16], b[i % 16]), 1) == W(block, i)
  {
    hide Rotl, Mix4, RawWord;
    assert (i + 13) % 16 == (i - 3) % 16;
    assert (i + 8) % 16 == (i - 8) % 16;
    assert (i + 2) % 16 == (i - 14) % 16;
    assert i % 16 == (i - 16) % 16;
  }

  // ---------- The bit counter ----------

  lemma SplitSum(x: nat, y: nat)
    ensures var s := x % 0x1_0000_0000 + y % 0x1_0000_0000;
            && (x + y) % 0x1_0000_0000 == s % 0x1_0000_0000
            && (s % 0x1_0000_0000 < y % 0x1_0000_0000 <==> s >= 0x1_0000_0000)
            && (x + y) / 0x1_0000_0000 == x / 0x1_0000_0000 + y / 0x1_0000_0000 + (if s >= 0x1_0000_0000 then 1 else 0)
  {
  }

  lemma ModSum(x: nat, y: nat)
    ensures (x % 0x1_0000_0000 + y) % 0x1_0000_0000 == (x + y) % 0x1_0000_0000
  {
  }

  /** Detecting the carry by `sum < added` and adding the high bits apart is addition modulo 2^64. */
  lemma CarryLaw(n: nat, uLen: nat, c0: nat, c1: nat)
    requires c0 == (8 * n % 0x1_0000_0000 + uLen * 8 % 0x1_0000_0000) % 0x1_0000_0000
    requires var q := 8 * n / 0x1_0000_0000 % 0x1_0000_0000;
             c1 == if c0 < uLen * 8 % 0x1_0000_0000 then (q + 1) % 0x1_0000_0000 else q
    ensures c0 == 8 * (n + uLen) % 0x1_0000_0000
    ensures (c1 + uLen / 0x2000_0000) % 0x1_0000_0000 == 8 * (n + uLen) / 0x1_0000_0000 % 0x1_0000_0000
  {
    var x, y := 8 * n, uLen * 8;
    assert 8 * (n + uLen) == x + y;
    SplitSum(x, y);
    assert y / 0x1_0000_0000 == uLen / 0x2000_0000;
    var q := x / 0x1_0000_0000;
    if c0 < y % 0x1_0000_0000 {
      ModSum(q, 1);
      ModSum(q + 1, uLen / 0x2000_0000);
    } else {
      ModSum(q, uLen / 0x2000_0000);
    }
  }

  /** `m_count[0] & 504`: the position in the block, in bits. */
  function BlockBits(c: nat): nat { c / 8 % 64 * 8 }

  lemma BlockBitsOfLength(n: nat)
    ensures BlockBits(8 * n % 0x1_0000_0000) == n % 64 * 8
    ensures 8 * n % 0x1_0000_0000 / 8 % 64 == n % 64
  {
    var q := 8 * n / 0x1_0000_0000;
    LowBits(n, q);
    ModWhole(n, q);
  }

  lemma LowBits(n: nat, q: nat)
    requires q == 8 * n / 0x1_0000_0000
    ensures n >= q * 0x2000_0000
    ensures 8 * n % 0x1_0000_0000 / 8 == n - q * 0x2000_0000
  {
    assert 8 * n % 0x1_0000_0000 == 8 * (n - q * 0x2000_0000);
  }

  lemma ModWhole(n: nat, q: nat)
    requires n >= q * 0x2000_0000
    ensures (n - q * 0x2000_0000) % 64 == n % 64
  {
  }

  /** `(c >> ((3 - k) * 8)) & 255` */
  function CountByte(c: nat, k: nat): Byte
    requires k < 4
  {
    NatByte((if k == 0 then c / 0x100_0000 else if k == 1 then c / 0x1_0000 else if k == 2 then c / 0x100 else c) % 256)
  }

  lemma HighCountBytes(v: nat, hi: nat)
    requires v < 0x1_0000_0000_0000_0000 && hi == v / 0x1_0000_0000
    ensures hi < 0x1_0000_0000
    ensures hi / 0x100_0000 == v / 0x100_0000_0000_0000 < 256
    ensures hi / 0x1_0000 == v / 0x1_0000_0000_0000
    ensures hi / 0x100 == v / 0x100_0000_0000
  {
  }

  lemma LowQuotients(v: nat, lo: nat, q: nat)
    requires v == lo + q * 0x1_0000_0000
    ensures v / 0x100_0000 == lo / 0x100_0000 + q * 0x100
    ensures v / 0x1_0000 == lo / 0x1_0000 + q * 0x1_0000
    ensures v / 0x100 == lo / 0x100 + q * 0x100_0000
  {
  }

  lemma LowMods(a: nat, b: nat, c: nat, d: nat, q: nat)
    ensures (a + q * 0x100) % 256 == a % 256
    ensures (b + q * 0x1_0000) % 256 == b % 256
    ensures (c + q * 0x100_0000) % 256 == c % 256
    ensures (d + q * 0x1_0000_0000) % 256 == d % 256
  {
    ModShift(a, q);
    ModShift(b, q * 0x100);
    ModShift(c, q * 0x1_0000);
    ModShift(d, q * 0x100_0000);
  }

  lemma ModShift(a: nat, q: nat)
    ensures (a + q * 256) % 256 == a % 256
  {
  }

  lemma HighCountBytesAreLength(v: nat, hi: nat)
    requires v < 0x1_0000_0000_0000_0000 && hi == v / 0x1_0000_0000
    ensures [CountByte(hi, 0), CountByte(hi, 1), CountByte(hi, 2), CountByte(hi, 3)] == BigEndian64(v)[..4]
  {
    hide NatByte;
    HighCountBytes(v, hi);
    SmallMod(hi / 0x100_0000);
  }

  lemma SmallMod(a: nat)
    requires a < 256
    ensures a % 256 == a
  {
  }

  lemma LowCountBytesAreLength(v: nat, lo: nat)
    requires v < 0x1_0000_0000_0000_0000 && lo == v % 0x1_0000_0000
    ensures [CountByte(lo, 0), CountByte(lo, 1), CountByte(lo, 2), CountByte(lo, 3)] == BigEndian64(v)[4..]
  {
    hide NatByte;
    var hi := v / 0x1_0000_0000;
    LowQuotients(v, lo, hi);
    LowMods(lo / 0x100_0000, lo / 0x1_0000, lo / 0x100, lo, hi);
  }

  /** The bytes of the two count words, high word first, are the length in the padding. */
  lemma CountBytesAreLength(v: nat, hi: nat, lo: nat)
    requires v < 0x1_0000_0000_0000_0000
    requires hi == v / 0x1_0000_0000 % 0x1_0000_0000 && lo == v % 0x1_0000_0000
    ensures [CountByte(hi, 0), CountByte(hi, 1), CountByte(hi, 2), CountByte(hi, 3),
             CountByte(lo, 0), CountByte(lo, 1), CountByte(lo, 2), CountByte(lo, 3)] == BigEndian64(v)
  {
    hide CountByte, BigEndian64;
    HighCountBytesAreLength(v, v / 0x1_0000_0000);
    LowCountBytesAreLength(v, lo);
    var b := BigEndian64(v);
    assert b == b[..4] + b[4..];
  }

  /** The shift that brings byte `i % 4` of a word down, most significant first. */
  function DigestShift(i: nat): bv32 {
    if i % 4 == 0 then 24 else if i % 4 == 1 then 16 else if i % 4 == 2 then 8 else 0
  }

  function Register(h: Registers, i: nat): Word
    requires i < 5
  {
    if i == 0 then h.a else if i == 1 then h.b else if i == 2 then h.c else if i == 3 then h.d else h.e
  }

  lemma DigestByte(h: Registers, i: nat)
    requires i < 20
    ensures HashBytes(h)[i] == ByteAt32(Register(h, i / 4), DigestShift(i))
  {
    hide WordBytes, ByteAt32;
    DigestWord(h, i / 4, i % 4);
    ByteOfWord(Register(h, i / 4), i % 4);
  }

  lemma DigestWord(h: Registers, q: nat, r: nat)
    requires q < 5 && r < 4
    ensures HashBytes(h)[4 * q + r] == WordBytes(Register(h, q))[r]
  {
    hide WordBytes;
    var ab := WordBytes(h.a) + WordBytes(h.b);
    var abcd := ab + WordBytes(h.c) + WordBytes(h.d);
    if q < 2 {
      assert HashBytes(h)[4 * q + r] == ab[4 * q + r];
    } else if q < 4 {
      assert HashBytes(h)[4 * q + r] == abcd[4 * q + r];
    }
  }

  lemma ByteOfWord(w: Word, r: nat)
    requires r < 4
    ensures WordBytes(w)[r] == ByteAt32(w, DigestShift(r))
  {
    hide ByteAt32;
  }

  /** One number of zero bytes up to 63 ends on the length field. */
  lemma OnlyPadLength(n: nat, k: nat)
    requires k <= PadLength(n)
    ensures (n + 1 + k) % 64 == 56 <==> k == PadLength(n)
  {
    var d := PadLength(n) - k;
    assert (n + 1 + PadLength(n)) % 64 == 56;
  }

  /** Bytes that do not fill the buffer only lengthen the rest. */
  lemma AbsorbNothing(before: seq<Byte>, data: seq<Byte>)
    requires |Rest(before)| + |data| < 64
    ensures Absorb(INITIAL_HASH, before + data) == Absorb(INITIAL_HASH, before)
    ensures Rest(before + data) == Rest(before) + data
  {
    hide Absorb, Rest, INITIAL_HASH;
    SplitAtRest(INITIAL_HASH, before);
    var n := |before| - |Rest(before)|;
    AbsorbPart(INITIAL_HASH, before[..n], Rest(before) + data);
    assert before == before[..n] + before[n..];
    Reassociated(before[..n], before[n..], data);
  }

  lemma Reassociated(a: seq<Byte>, b: seq<Byte>, c: seq<Byte>)
    ensures a + (b + c) == (a + b) + c
  {
  }

  /** What is left of the data after its last whole block is the new rest. */
  lemma AbsorbTail(before: seq<Byte>, data: seq<Byte>, i: nat)
    requires i <= |data| < i + 64 && |before + data[..i]| % 64 == 0
    ensures Absorb(INITIAL_HASH, before + data) == Absorb(INITIAL_HASH, before + data[..i])
    ensures Rest(before + data) == data[i..]
  {
    hide Absorb, Rest, INITIAL_HASH;
    AbsorbPart(INITIAL_HASH, before + data[..i], data[i..]);
    assert before + data[..i] + data[i..] == before + data;
  }

  // ---------- The streaming object ----------

  class CSHA1 {
    const m_state: array<Word>
    const m_count: array<nat>
    const m_buffer: array<Byte>
    const m_digest: array<Byte>
    const m_block: array<Word>

    /** Everything passed to Update since the last Reset. */
    ghost var Message: seq<Byte>

    ghost predicate Allocated() {
      && m_state.Length == 5 && m_count.Length == 2 && m_buffer.Length == 64
      && m_digest.Length == 20 && m_block.Length == 16
      && m_state != m_block && m_buffer != m_digest
    }

    /** The hash value held in `m_state`. */
    function Chaining(): Registers
      requires m_state.Length == 5
      reads m_state
    {
      Registers(m_state[0], m_state[1], m_state[2], m_state[3], m_state[4])
    }

    /**
     The whole blocks of the message are in the state, what is left of it is at the start of the buffer,
     and the two count words are its length in bits modulo 2^64.
     */
    ghost predicate Valid()
      reads this, m_state, m_count, m_buffer
    {
      && Allocated()
      && Chaining() == Absorb(INITIAL_HASH, Message)
      && m_buffer[..|Rest(Message)|] == Rest(Message)
      && m_count[0] == 8 * |Message| % 0x1_0000_0000
      && m_count[1] == 8 * |Message| / 0x1_0000_0000 % 0x1_0000_0000
    }

    ghost predicate InRound(h: Registers, block: seq<Byte>, i: nat, r: Registers)
      reads m_block
    {
      && |block| == 64
      && m_block.Length == 16
      && r == Rounds(h, block, i)
      && Circular(m_block[..], block, i)
    }

    /** SHABLK: replace the oldest schedule word by the next one. */
    method Reschedule(i: nat, ghost block: seq<Byte>)
      requires |block| == 64 && m_block.Length == 16 && i >= 16
      requires Circular(m_block[..], block, i)
      modifies m_block
      ensures m_block[i % 16] == W(block, i)
      ensures Circular(m_block[..], block, i + 1)
    {
      hide W, Rotl, Mix4;
      SlotsOfSchedule(m_block[..], block, i);
      var next := Rotl(Mix4(m_block[(i + 13) % 16], m_block[(i + 8) % 16], m_block[(i + 2) % 16], m_block[i % 16]), 1);
      CircularStep(m_block[..], block, i, next);
      m_block[i % 16] := next;
    }

    /** Rounds 0 to 15: byte-swap the message word in place. */
    method R0(v: Word, w: Word, x: Word, y: Word, z: Word, i: nat, ghost h: Registers, ghost block: seq<Byte>)
      returns (z': Word, w': Word)
      requires 0 <= i < 16
      requires InRound(h, block, i, Registers(v, w, x, y, z))
      modifies m_block
      ensures InRound(h, block, i + 1, Registers(z', v, w', x, y))
    {
      hide W, RawWord, SwapBytes, Rotl, Ch, Maj, Parity, Sum5, PlusEquals, ChRewritten, MajRewritten;
      SwapReadsMessageWord(block, i);
      CircularStep(m_block[..], block, i, SwapBytes(m_block[i]));
      m_block[i] := SwapBytes(m_block[i]);
      z' := PlusEquals(z, ChRewritten(w, x, y), m_block[i], 0x5a827999, Rotl(v, 5));
      w' := Rotl(w, 30);
      ChAgrees(w, x, y);
      SumReordered(z, F(i, w, x, y), m_block[i], 0x5a827999, Rotl(v, 5));
    }

    /** Rounds 16 to 19. */
    method R1(v: Word, w: Word, x: Word, y: Word, z: Word, i: nat, ghost h: Registers, ghost block: seq<Byte>)
      returns (z': Word, w': Word)
      requires 16 <= i < 20
      requires InRound(h, block, i, Registers(v, w, x, y, z))
      modifies m_block
      ensures InRound(h, block, i + 1, Registers(z', v, w', x, y))
    {
      hide W, RawWord, SwapBytes, Rotl, Ch, Maj, Parity, Sum5, PlusEquals, ChRewritten, MajRewritten;
      Reschedule(i, block);
      z' := PlusEquals(z, ChRewritten(w, x, y), m_block[i % 16], 0x5a827999, Rotl(v, 5));
      w' := Rotl(w, 30);
      ChAgrees(w, x, y);
      SumReordered(z, F(i, w, x, y), m_block[i % 16], 0x5a827999, Rotl(v, 5));
    }

    /** Rounds 20 to 39. */
    method R2(v: Word, w: Word, x: Word, y: Word, z: Word, i: nat, ghost h: Registers, ghost block: seq<Byte>)
      returns (z': Word, w': Word)
      requires 20 <= i < 40
      requires InRound(h, block, i, Registers(v, w, x, y, z))
      modifies m_block
      ensures InRound(h, block, i + 1, Registers(z', v, w', x, y))
    {
      hide W, RawWord, SwapBytes, Rotl, Ch, Maj, Parity, Sum5, PlusEquals, ChRewritten, MajRewritten;
      Reschedule(i, block);
      z' := PlusEquals(z, Parity(w, x, y), m_block[i % 16], 0x6ed9eba1, Rotl(v, 5));
      w' := Rotl(w, 30);
      SumReordered(z, F(i, w, x, y), m_block[i % 16], 0x6ed9eba1, Rotl(v, 5));
    }

    /** Rounds 40 to 59. */
    method R3(v: Word, w: Word, x: Word, y: Word, z: Word, i: nat, ghost h: Registers, ghost block: seq<Byte>)
      returns (z': Word, w': Word)
      requires 40 <= i < 60
      requires InRound(h, block, i, Registers(v, w, x, y, z))
      modifies m_block
      ensures InRound(h, block, i + 1, Registers(z', v, w', x, y))
    {
      hide W, RawWord, SwapBytes, Rotl, Ch, Maj, Parity, Sum5, PlusEquals, ChRewritten, MajRewritten;
      Reschedule(i, block);
      z' := PlusEquals(z, MajRewritten(w, x, y), m_block[i % 16], 0x8f1bbcdc, Rotl(v, 5));
      w' := Rotl(w, 30);
      MajAgrees(w, x, y);
      SumReordered(z, F(i, w, x, y), m_block[i % 16], 0x8f1bbcdc, Rotl(v, 5));
    }

    /** Rounds 60 to 79. */
    method R4(v: Word, w: Word, x: Word, y: Word, z: Word, i: nat, ghost h: Registers, ghost block: seq<Byte>)
      returns (z': Word, w': Word)
      requires 60 <= i < 80
      requires InRound(h, block, i, Registers(v, w, x, y, z))
      modifies m_block
      ensures InRound(h, block, i + 1, Registers(z', v, w', x, y))
    {
      hide W, RawWord, SwapBytes, Rotl, Ch, Maj, Parity, Sum5, PlusEquals, ChRewritten, MajRewritten;
      Reschedule(i, block);
      z' := PlusEquals(z, Parity(w, x, y), m_block[i % 16], 0xca62c1d6, Rotl(v, 5));
      w' := Rotl(w, 30);
      SumReordered(z, F(i, w, x, y), m_block[i % 16], 0xca62c1d6, Rotl(v, 5));
    }

    method Rounds0to19(a0: Word, b0: Word, c0: Word, d0: Word, e0: Word, ghost h: Registers, ghost block: seq<Byte>)
      returns (a: Word, b: Word, c: Word, d: Word, e: Word)
      requires InRound(h, block, 0, Registers(a0, b0, c0, d0, e0))
      modifies m_block
      ensures InRound(h, block, 20, Registers(a, b, c, d, e))
    {
      hide *;
      a, b, c, d, e := a0, b0, c0, d0, e0;
      e, b := R0(a, b, c, d, e, 0, h, block);
      d, a := R0(e, a, b, c, d, 1, h, block);
      c, e := R0(d, e, a, b, c, 2, h, block);
      b, d := R0(c, d, e, a, b, 3, h, block);
      a, c := R0(b, c, d, e, a, 4, h, block);
      e, b := R0(a, b, c, d, e, 5, h, block);
      d, a := R0(e, a, b, c, d, 6, h, block);
      c, e := R0(d, e, a, b, c, 7, h, block);
      b, d := R0(c, d, e, a, b, 8, h, block);
      a, c := R0(b, c, d, e, a, 9, h, block);
      e, b := R0(a, b, c, d, e, 10, h, block);
      d, a := R0(e, a, b, c, d, 11, h, block);
      c, e := R0(d, e, a, b, c, 12, h, block);
      b, d := R0(c, d, e, a, b, 13, h, block);
      a, c := R0(b, c, d, e, a, 14, h, block);
      e, b := R0(a, b, c, d, e, 15, h, block);
      d, a := R1(e, a, b, c, d, 16, h, block);
      c, e := R1(d, e, a, b, c, 17, h, block);
      b, d := R1(c, d, e, a, b, 18, h, block);
      a, c := R1(b, c, d, e, a, 19, h, block);
    }

    method Rounds20to39(a0: Word, b0: Word, c0: Word, d0: Word, e0: Word, ghost h: Registers, ghost block: seq<Byte>)
      returns (a: Word, b: Word, c: Word, d: Word, e: Word)
      requires InRound(h, block, 20, Registers(a0, b0, c0, d0, e0))
      modifies m_block
      ensures InRound(h, block, 40, Registers(a, b, c, d, e))
    {
      hide *;
      a, b, c, d, e := a0, b0, c0, d0, e0;
      e, b := R2(a, b, c, d, e, 20, h, block);
      d, a := R2(e, a, b, c, d, 21, h, block);
      c, e := R2(d, e, a, b, c, 22, h, block);
      b, d := R2(c, d, e, a, b, 23, h, block);
      a, c := R2(b, c, d, e, a, 24, h, block);
      e, b := R2(a, b, c, d, e, 25, h, block);
      d, a := R2(e, a, b, c, d, 26, h, block);
      c, e := R2(d, e, a, b, c, 27, h, block);
      b, d := R2(c, d, e, a, b, 28, h, block);
      a, c := R2(b, c, d, e, a, 29, h, block);
      e, b := R2(a, b, c, d, e, 30, h, block);
      d, a := R2(e, a, b, c, d, 31, h, block);
      c, e := R2(d, e, a, b, c, 32, h, block);
      b, d := R2(c, d, e, a, b, 33, h, block);
      a, c := R2(b, c, d, e, a, 34, h, block);
      e, b := R2(a, b, c, d, e, 35, h, block);
      d, a := R2(e, a, b, c, d, 36, h, block);
      c, e := R2(d, e, a, b, c, 37, h, block);
      b, d := R2(c, d, e, a, b, 38, h, block);
      a, c := R2(b, c, d, e, a, 39, h, block);
    }

    method Rounds40to59(a0: Word, b0: Word, c0: Word, d0: Word, e0: Word, ghost h: Registers, ghost block: seq<Byte>)
      returns (a: Word, b: Word, c: Word, d: Word, e: Word)
      requires InRound(h, block, 40, Registers(a0, b0, c0, d0, e0))
      modifies m_block
      ensures InRound(h, block, 60, Registers(a, b, c, d, e))
    {
      hide *;
      a, b, c, d, e := a0, b0, c0, d0, e0;
      e, b := R3(a, b, c, d, e, 40, h, block);
      d, a := R3(e, a, b, c, d, 41, h, block);
      c, e := R3(d, e, a, b, c, 42, h, block);
      b, d := R3(c, d, e, a, b, 43, h, block);
      a, c := R3(b, c, d, e, a, 44, h, block);
      e, b := R3(a, b, c, d, e, 45, h, block);
      d, a := R3(e, a, b, c, d, 46, h, block);
      c, e := R3(d, e, a, b, c, 47, h, block);
      b, d := R3(c, d, e, a, b, 48, h, block);
      a, c := R3(b, c, d, e, a, 49, h, block);
      e, b := R3(a, b, c, d, e, 50, h, block);
      d, a := R3(e, a, b, c, d, 51, h, block);
      c, e := R3(d, e, a, b, c, 52, h, block);
      b, d := R3(c, d, e, a, b, 53, h, block);
      a, c := R3(b, c, d, e, a, 54, h, block);
      e, b := R3(a, b, c, d, e, 55, h, block);
      d, a := R3(e, a, b, c, d, 56, h, block);
      c, e := R3(d, e, a, b, c, 57, h, block);
      b, d := R3(c, d, e, a, b, 58, h, block);
      a, c := R3(b, c, d, e, a, 59, h, block);
    }

    method Rounds60to79(a0: Word, b0: Word, c0: Word, d0: Word, e0: Word, ghost h: Registers, ghost block: seq<Byte>)
      returns (a: Word, b: Word, c: Word, d: Word, e: Word)
      requires InRound(h, block, 60, Registers(a0, b0, c0, d0, e0))
      modifies m_block
      ensures InRound(h, block, 80, Registers(a, b, c, d, e))
    {
      hide *;
      a, b, c, d, e := a0, b0, c0, d0, e0;
      e, b := R4(a, b, c, d, e, 60, h, block);
      d, a := R4(e, a, b, c, d, 61, h, block);
      c, e := R4(d, e, a, b, c, 62, h, block);
      b, d := R4(c, d, e, a, b, 63, h, block);
      a, c := R4(b, c, d, e, a, 64, h, block);
      e, b := R4(a, b, c, d, e, 65, h, block);
      d, a := R4(e, a, b, c, d, 66, h, block);
      c, e := R4(d, e, a, b, c, 67, h, block);
      b, d := R4(c, d, e, a, b, 68, h, block);
      a, c := R4(b, c, d, e, a, 69, h, block);
      e, b := R4(a, b, c, d, e, 70, h, block);
      d, a := R4(e, a, b, c, d, 71, h, block);
      c, e := R4(d, e, a, b, c, 72, h, block);
      b, d := R4(c, d, e, a, b, 73, h, block);
      a, c := R4(b, c, d, e, a, 74, h, block);
      e, b := R4(a, b, c, d, e, 75, h, block);
      d, a := R4(e, a, b, c, d, 76, h, block);
      c, e := R4(d, e, a, b, c, 77, h, block);
      b, d := R4(c, d, e, a, b, 78, h, block);
      a, c := R4(b, c, d, e, a, 79, h, block);
    }

    /** `memcpy(m_block, pBuffer, 64)` */
    method LoadBlock(pBuffer: seq<Byte>)
      requires |pBuffer| == 64 && m_block.Length == 16
      modifies m_block
      ensures Circular(m_block[..], pBuffer, 0)
    {
      hide W, RawWord;
      for t := 0 to 16
        invariant forall j :: 0 <= j < t ==> m_block[j] == RawWord(pBuffer, j)
      {
        m_block[t] := RawWord(pBuffer, t);
      }
    }

    /** One application of the compression function to the state, through eighty rotating-role rounds. */
    method Transform(pState: array<Word>, pBuffer: seq<Byte>)
      requires Allocated() && pState == m_state && |pBuffer| == 64
      modifies m_state, m_block
      ensures Chaining() == Compress(old(Chaining()), pBuffer)
    {
      hide W, RawWord, Add, Round, Circular;
      ghost var h := Chaining();
      var a, b, c, d, e := pState[0], pState[1], pState[2], pState[3], pState[4];
      LoadBlock(pBuffer);
      a, b, c, d, e := Rounds0to19(a, b, c, d, e, h, pBuffer);
      a, b, c, d, e := Rounds20to39(a, b, c, d, e, h, pBuffer);
      a, b, c, d, e := Rounds40to59(a, b, c, d, e, h, pBuffer);
      a, b, c, d, e := Rounds60to79(a, b, c, d, e, h, pBuffer);
      pState[0] := Add(pState[0], a);
      pState[1] := Add(pState[1], b);
      pState[2] := Add(pState[2], c);
      pState[3] := Add(pState[3], d);
      pState[4] := Add(pState[4], e);
    }

    constructor ()
      ensures Valid() && Message == []
      ensures fresh(m_state) && fresh(m_count) && fresh(m_buffer) && fresh(m_digest) && fresh(m_block)
    {
      m_state := new Word[5];
      m_count := new nat[2];
      m_buffer := new Byte[64];
      m_digest := new Byte[20];
      m_block := new Word[16];
      Message := [];
      new;
      Reset();
    }

    method Reset()
      requires Allocated()
      modifies this, m_state, m_count
      ensures Valid() && Message == []
    {
      m_state[0] := 0x67452301;
      m_state[1] := 0xefcdab89;
      m_state[2] := 0x98badcfe;
      m_state[3] := 0x10325476;
      m_state[4] := 0xc3d2e1f0;

      m_count[0] := 0;
      m_count[1] := 0;
      Message := [];
    }

    /** Add `8 * uLen` to the 64-bit count kept in two words, with the carry computed from wrap-around. */
    method CountBits(uLen: nat, ghost n: nat)
      requires Allocated() && uLen < 0x1_0000_0000
      requires m_count[0] == 8 * n % 0x1_0000_0000
      requires m_count[1] == 8 * n / 0x1_0000_0000 % 0x1_0000_0000
      modifies m_count
      ensures m_count[0] == 8 * (n + uLen) % 0x1_0000_0000
      ensures m_count[1] == 8 * (n + uLen) / 0x1_0000_0000 % 0x1_0000_0000
    {
      var added := uLen * 8 % 0x1_0000_0000;
      m_count[0] := (m_count[0] + added) % 0x1_0000_0000;
      if m_count[0] < added {
        m_count[1] := (m_count[1] + 1) % 0x1_0000_0000;
      }
      CarryLaw(n, uLen, m_count[0], m_count[1]);
      m_count[1] := (m_count[1] + uLen / 0x2000_0000) % 0x1_0000_0000;
    }

    /** `memcpy(&m_buffer[j], bytes, ...)` */
    method CopyToBuffer(j: nat, bytes: seq<Byte>)
      requires m_buffer.Length == 64 && j + |bytes| <= 64
      modifies m_buffer
      ensures m_buffer[..] == old(m_buffer[..j]) + bytes + old(m_buffer[j + |bytes|..])
    {
      forall k | 0 <= k < |bytes| {
        m_buffer[j + k] := bytes[k];
      }
    }

    /** The two transforms of Update: one on the filled buffer, then one for each further whole block. */
    method AbsorbBlocks(j: nat, pbData: seq<Byte>, ghost before: seq<Byte>) returns (i: nat)
      requires Allocated()
      requires j + |pbData| < 0x1_0000_0000
      requires Chaining() == Absorb(INITIAL_HASH, before)
      requires j == |Rest(before)| && m_buffer[..j] == Rest(before)
      requires j + |pbData| > 63
      modifies m_state, m_buffer, m_block
      ensures i <= |pbData| < i + 64
      ensures |before + pbData[..i]| % 64 == 0
      ensures Chaining() == Absorb(INITIAL_HASH, before + pbData[..i])
    {
      hide Compress, Absorb, Rest, INITIAL_HASH;
      var uLen := |pbData|;
      SplitAtRest(INITIAL_HASH, before);
      ghost var whole, part := before[..|before| - j], Rest(before);
      assert before == whole + part;

      i := 64 - j;
      CopyToBuffer(j, pbData[..i]);
      assert m_buffer[..] == part + pbData[..i];
      Transform(m_state, m_buffer[..]);
      AbsorbBlock(INITIAL_HASH, whole, part + pbData[..i]);
      assert whole + (part + pbData[..i]) == before + pbData[..i];

      while i + 63 < uLen
        invariant i <= uLen && (i + j) % 64 == 0
        invariant i + 63 < 0x1_0000_0000
        invariant |before + pbData[..i]| % 64 == 0
        invariant Chaining() == Absorb(INITIAL_HASH, before + pbData[..i])
      {
        Transform(m_state, pbData[i..i + 64]);
        AbsorbBlock(INITIAL_HASH, before + pbData[..i], pbData[i..i + 64]);
        assert before + pbData[..i] + pbData[i..i + 64] == before + pbData[..i + 64];
        i := i + 64;
      }
    }

    /** Append to the message. The length bound keeps the 32-bit sum `j + uLen` from wrapping around. */
    method Update(pbData: seq<Byte>)
      requires Valid() && |Message| % 64 + |pbData| < 0x1_0000_0000
      modifies this, m_state, m_count, m_buffer, m_block
      ensures Valid() && Message == old(Message) + pbData
    {
      hide Absorb, Rest, INITIAL_HASH;
      ghost var before := Message;
      var uLen := |pbData|;
      var j := m_count[0] / 8 % 64;
      BlockBitsOfLength(|before|);
      RestLength(before);

      CountBits(uLen, |before|);

      var i;
      if j + uLen > 63 {
        i := AbsorbBlocks(j, pbData, before);
        AbsorbTail(before, pbData, i);
        j := 0;
      } else {
        i := 0;
        AbsorbNothing(before, pbData);
      }

      if uLen - i != 0 {
        CopyToBuffer(j, pbData[i..]);
      }
      Message := before + pbData;
    }

    /** The two count words as bytes, most significant first. */
    method CountBytes() returns (finalcount: seq<Byte>)
      requires Valid() && 8 * |Message| < 0x1_0000_0000_0000_0000
      ensures finalcount == BigEndian64(8 * |Message|)
    {
      hide CountByte, BigEndian64, Absorb, Rest;
      finalcount := [];
      for i := 0 to 8
        invariant |finalcount| == i
        invariant forall k :: 0 <= k < i ==> finalcount[k] == CountByte(m_count[if k >= 4 then 0 else 1], k % 4)
      {
        finalcount := finalcount + [CountByte(m_count[if i >= 4 then 0 else 1], i % 4)];
      }
      CountBytesAreLength(8 * |Message|, m_count[1], m_count[0]);
    }

    /** Zero bytes, one at a time, until eight bytes are left in the block. */
    method PadWithZeros(ghost msg: seq<Byte>)
      requires Valid() && Message == msg + [0x80]
      modifies this, m_state, m_count, m_buffer, m_block
      ensures Valid() && Message == msg + [0x80] + Zeros(PadLength(|msg|))
    {
      hide Absorb, Rest, BlockBits, INITIAL_HASH;
      ghost var k := 0;
      assert Message == msg + [0x80] + Zeros(0);
      while BlockBits(m_count[0]) != 448
        invariant Valid()
        invariant k <= PadLength(|msg|)
        invariant Message == msg + [0x80] + Zeros(k)
        decreases PadLength(|msg|) - k
      {
        BlockBitsOfLength(|Message|);
        OnlyPadLength(|msg|, k);
        Update([0]);
        assert msg + [0x80] + Zeros(k) + [0] == msg + [0x80] + Zeros(k + 1);
        k := k + 1;
      }
      BlockBitsOfLength(|Message|);
      OnlyPadLength(|msg|, k);
    }

    /** Pad the message, absorb the padding, and write the digest. */
    method Final()
      requires Valid() && 8 * |Message| < 0x1_0000_0000_0000_0000
      modifies this, m_state, m_count, m_buffer, m_block, m_digest
      ensures m_digest[..] == SHA1(old(Message))
    {
      hide Absorb, Rest, BigEndian64, HashBytes, INITIAL_HASH;
      ghost var msg := Message;
      var finalcount := CountBytes();
      Update([0x80]);
      PadWithZeros(msg);
      Update(finalcount);
      assert Message == Pad(msg);
      WriteDigest();
    }

    /** Spread the five state words over the twenty digest bytes. */
    method WriteDigest()
      requires Allocated()
      modifies m_digest
      ensures m_digest[..] == HashBytes(Chaining())
    {
      hide ByteAt32, HashBytes;
      ghost var h := Chaining();
      for i := 0 to 20
        invariant forall k :: 0 <= k < i ==> m_digest[k] == HashBytes(h)[k]
        invariant Chaining() == h
      {
        DigestByte(h, i);
        m_digest[i] := ByteAt32(m_state[i / 4], DigestShift(i));
      }
    }
  }

  // ---------- From start to end ----------

  function Concat(pieces: seq<seq<Byte>>): seq<Byte> {
    if pieces == [] then [] else Concat(pieces[..|pieces| - 1]) + pieces[|pieces| - 1]
  }

  /** A message in any split into pieces that `Update` takes has the digest of FIPS 180-4. */
  method HashPieces(pieces: seq<seq<Byte>>) returns (digest: seq<Byte>)
    requires forall i :: 0 <= i < |pieces| ==> |Concat(pieces[..i])| % 64 + |pieces[i]| < 0x1_0000_0000
    requires 8 * |Concat(pieces)| < 0x1_0000_0000_0000_0000
    ensures digest == SHA1(Concat(pieces))
  {
    hide SHA1;
    var sha := new CSHA1();
    for i := 0 to |pieces|
      invariant sha.Valid() && sha.Message == Concat(pieces[..i])
      invariant fresh(sha) && fresh(sha.m_state) && fresh(sha.m_count) && fresh(sha.m_buffer) && fresh(sha.m_digest) && fresh(sha.m_block)
    {
      sha.Update(pieces[i]);
      assert pieces[..i + 1][..i] == pieces[..i];
    }
    assert pieces[..|pieces|] == pieces;
    sha.Final();
    digest := sha.m_digest[..];
  }
}
