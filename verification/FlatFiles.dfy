/**
 Sparse files as plain byte strings. Writes, reads, growth and block-aligned shrinks are those of an
 ordinary file; a shrink inside a block keeps the old tail bytes, and the exact condition for that to
 show is stated.
 */
module FlatFiles {
  import opened Basics
  import opened Bytes
  import opened StoreModel
  import opened StoreExact
  import opened StoreBuffers

  /** The bytes of a file up to its size. */
  function Contents(c: Config, a: Sparse, f: FileId): (s: seq<Byte>)
    requires SizedFiles(c, a) && f in a.sizes && a.sizes[f] >= 0
    ensures |s| == a.sizes[f]
  {
    seq(a.sizes[f], p requires 0 <= p < a.sizes[f] => ByteAt(c, a, f, p))
  }

  /** What lies beyond the end of the file, in its last block or in holes, is zero. */
  ghost predicate ZeroBeyond(c: Config, a: Sparse, f: FileId)
    requires SizedFiles(c, a) && f in a.sizes
  {
    forall p :: p >= a.sizes[f] ==> ByteAt(c, a, f, p) == 0
  }

  /** An ordinary file after a write: zeros fill any gap, then the buffer goes over its range. */
  function PlainWrite(s: seq<Byte>, offset: nat, buf: seq<Byte>): (r: seq<Byte>)
    ensures |r| == Max(|s|, offset + |buf|)
  {
    var grown := s + Zeros(Max(|s|, offset + |buf|) - |s|);
    grown[..offset] + buf + grown[offset + |buf|..]
  }

  lemma PlainWriteByte(s: seq<Byte>, offset: nat, buf: seq<Byte>, p: nat)
    requires p < Max(|s|, offset + |buf|)
    ensures PlainWrite(s, offset, buf)[p]
         == if offset <= p < offset + |buf| then buf[p - offset] else if p < |s| then s[p] else 0
  {
  }

  /** A write makes of the contents what it makes of an ordinary file, and leaves every other file alone. */
  lemma WriteIsPlain(c: Config, a: Sparse, f: FileId, offset: nat, buf: seq<Byte>)
    requires SizedFiles(c, a) && f in a.sizes && a.sizes[f] >= 0 && ZeroBeyond(c, a, f)
    ensures var a' := FilesAfterWrite(c, a, f, offset, buf);
            && a'.sizes == a.sizes[f := Max(a.sizes[f], offset + |buf|)]
            && Contents(c, a', f) == PlainWrite(Contents(c, a, f), offset, buf)
            && ZeroBeyond(c, a', f)
            && (forall g :: g in a.sizes && g != f && a.sizes[g] >= 0 ==> Contents(c, a', g) == Contents(c, a, g))
  {
    hide ByteAt, PlainWrite;
    var a' := FilesAfterWrite(c, a, f, offset, buf);
    forall g: FileId, p: int
      ensures ByteAt(c, a', g, p)
           == if g == f && offset <= p < offset + |buf| then buf[p - offset] else ByteAt(c, a, g, p)
    {
      WriteByte(c, a, f, offset, buf, g, p);
    }
    forall p | 0 <= p < a'.sizes[f]
      ensures Contents(c, a', f)[p] == PlainWrite(Contents(c, a, f), offset, buf)[p]
    {
      PlainWriteByte(Contents(c, a, f), offset, buf, p);
    }
  }

  lemma WriteByte(c: Config, a: Sparse, f: FileId, offset: nat, buf: seq<Byte>, g: FileId, p: int)
    requires SizedFiles(c, a) && f in a.sizes
    ensures ByteAt(c, FilesAfterWrite(c, a, f, offset, buf), g, p)
         == if g == f && offset <= p < offset + |buf| then buf[p - offset] else ByteAt(c, a, g, p)
  {
    hide Written;
    WriteSplices(c, a.(sizes := a.sizes[f := Max(a.sizes[f], offset + |buf|)]), f, offset, buf, g, p);
  }

  /** What `readBuf` returns is a slice of the contents. */
  lemma ReadIsPlain(c: Config, a: Sparse, f: FileId, offset: nat, size: nat)
    requires SizedFiles(c, a) && f in a.sizes && offset <= a.sizes[f]
    ensures var len := Min(size, a.sizes[f] - offset);
            seq(len, i requires 0 <= i < len => ByteAt(c, a, f, offset + i)) == Contents(c, a, f)[offset..offset + len]
  {
    hide ByteAt;
  }

  /** Growing a file appends zeros. */
  lemma GrowIsPlain(c: Config, a: Sparse, f: FileId, newSize: int)
    requires SizedFiles(c, a) && f in a.sizes && 0 <= a.sizes[f] <= newSize && ZeroBeyond(c, a, f)
    ensures var a' := a.(sizes := a.sizes[f := newSize]);
            Contents(c, a', f) == Contents(c, a, f) + Zeros(newSize - a.sizes[f]) && ZeroBeyond(c, a', f)
  {
    var a' := a.(sizes := a.sizes[f := newSize]);
    assert forall p :: ByteAt(c, a', f, p) == ByteAt(c, a, f, p);
  }

  /** The first position of a block that begins at or beyond `size`. */
  function BlockEnd(c: Config, size: int): int { BlocksOf(c, size) * c.blockSize }

  /** A position lies before the boundary if its block begins before the size. */
  lemma BeforeBlockEnd(c: Config, size: int, p: int)
    requires 0 <= size && p >= 0
    ensures p / c.blockSize * c.blockSize < size <==> p < BlockEnd(c, size)
    ensures p / c.blockSize >= 0 && 0 <= p % c.blockSize < c.blockSize
  {
    hide BlocksOf;
    var b := c.blockSize;
    var n, e := p / b, BlocksOf(c, size);
    Joined(b, p);
    NonNegativeQuotient(p, b);
    BlocksBelow(c, size, n);
    NextMultiple(n, b);
    Ordered(n, e, b);
  }

  lemma Ordered(n: int, e: int, b: int)
    requires b > 0
    ensures n < e ==> (n + 1) * b <= e * b
    ensures n >= e ==> n * b >= e * b
  {
  }

  /** After a shrink the bytes below the next block boundary are the old ones, and the rest are zero. */
  lemma ShrinkByte(c: Config, a: Sparse, f: FileId, newSize: int, p: int)
    requires SizedFiles(c, a) && 0 <= newSize && p >= 0
    ensures SizedFiles(c, FilesAfterShrink(c, a, f, newSize))
    ensures ByteAt(c, FilesAfterShrink(c, a, f, newSize), f, p) == if p < BlockEnd(c, newSize) then ByteAt(c, a, f, p) else 0
  {
    hide BlockEnd;
    BeforeBlockEnd(c, newSize, p);
  }

  lemma BlockEndCovers(c: Config, size: int)
    requires size >= 0
    ensures BlockEnd(c, size) >= size
    ensures BlockEnd(c, size) == size <==> size % c.blockSize == 0
  {
    var b := c.blockSize;
    var e := BlocksOf(c, size);
    if size > 0 {
      Joined(b, size - 1);
      NextMultiple((size - 1) / b, b);
      if BlockEnd(c, size) == size {
        Split(b, size, e, 0);
      }
      if size % b == 0 {
        Joined(b, size);
        var d := size / b;
        assert size == d * b && size - 1 == (d - 1) * b + (b - 1) by {
          NextMultiple(d - 1, b);
        }
        Split(b, size - 1, d - 1, b - 1);
      }
    } else {
      Split(b, 0, 0, 0);
    }
  }

  /**
   A shrink cuts the contents. The file goes on behaving like an ordinary one if and only if no byte that
   was kept between the new size and the end of its block is nonzero; block-aligned sizes keep none.
   */
  lemma ShrinkIsPlain(c: Config, a: Sparse, f: FileId, newSize: int)
    requires SizedFiles(c, a) && f in a.sizes && 0 <= newSize < a.sizes[f]
    ensures var a' := FilesAfterShrink(c, a, f, newSize);
            && SizedFiles(c, a')
            && Contents(c, a', f) == Contents(c, a, f)[..newSize]
            && (ZeroBeyond(c, a', f) <==> forall p :: newSize <= p < BlockEnd(c, newSize) ==> ByteAt(c, a, f, p) == 0)
    ensures newSize % c.blockSize == 0 ==> ZeroBeyond(c, FilesAfterShrink(c, a, f, newSize), f)
  {
    hide ByteAt, FilesAfterShrink, BlockEnd;
    var a' := FilesAfterShrink(c, a, f, newSize);
    assert SizedFiles(c, a') by {
      ShrinkByte(c, a, f, newSize, 0);
    }
    assert a'.sizes == a.sizes[f := newSize] by {
      ShrinkSizes(c, a, f, newSize);
    }
    forall p | p >= 0
      ensures ByteAt(c, a', f, p) == if p < BlockEnd(c, newSize) then ByteAt(c, a, f, p) else 0
    {
      ShrinkByte(c, a, f, newSize, p);
    }
    BlockEndCovers(c, newSize);
    assert Contents(c, a', f) == Contents(c, a, f)[..newSize];
  }

  lemma ShrinkSizes(c: Config, a: Sparse, f: FileId, newSize: int)
    ensures FilesAfterShrink(c, a, f, newSize).sizes == a.sizes[f := newSize]
  {
  }

  /**
   A shrink and a later growth: beyond the cut the old bytes are back up to the end of their block. The file
   is cut and zero-filled if and only if those bytes, as far as the growth reaches, are zeros.
   */
  lemma ShrinkThenGrow(c: Config, a: Sparse, f: FileId, newSize: int, later: int)
    requires SizedFiles(c, a) && f in a.sizes && 0 <= newSize < a.sizes[f] && newSize <= later
    ensures SizedFiles(c, FilesAfterShrink(c, a, f, newSize))
    ensures var a' := FilesAfterShrink(c, a, f, newSize);
            var s := Contents(c, a'.(sizes := a'.sizes[f := later]), f);
            && s[..newSize] == Contents(c, a, f)[..newSize]
            && (forall p :: newSize <= p < later ==> s[p] == if p < BlockEnd(c, newSize) then ByteAt(c, a, f, p) else 0)
            && (s == Contents(c, a, f)[..newSize] + Zeros(later - newSize) <==>
                 forall p :: newSize <= p < later && p < BlockEnd(c, newSize) ==> ByteAt(c, a, f, p) == 0)
  {
    hide FilesAfterShrink, BlockEnd;
    ShrinkByte(c, a, f, newSize, 0);
    var a' := FilesAfterShrink(c, a, f, newSize);
    var a'' := a'.(sizes := a'.sizes[f := later]);
    forall p | p >= 0
      ensures ByteAt(c, a'', f, p) == if p < BlockEnd(c, newSize) then ByteAt(c, a, f, p) else 0
    {
      ShrinkByte(c, a, f, newSize, p);
    }
    BlockEndCovers(c, newSize);
    hide ByteAt;
    var s, t := Contents(c, a'', f), Contents(c, a, f)[..newSize] + Zeros(later - newSize);
    assert s[..newSize] == Contents(c, a, f)[..newSize];
    assert forall p :: newSize <= p < later ==> t[p] == 0;
    if forall p :: newSize <= p < later && p < BlockEnd(c, newSize) ==> ByteAt(c, a, f, p) == 0 {
      assert s == t;
    } else {
      var p :| newSize <= p < later && p < BlockEnd(c, newSize) && ByteAt(c, a, f, p) != 0;
      assert s[p] != t[p];
    }
  }
}
