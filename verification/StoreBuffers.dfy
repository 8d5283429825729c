/**
 The chunk loops of `writeBuf`, `readBuf` and `truncate`: what they make of whole buffers and sizes, in
 terms of the bytes of files.
 */
module StoreBuffers {
  import opened Basics
  import opened Bytes
  import opened StoreModel
  import opened StoreIntegrity
  import opened StoreExact
  import opened StoreSteps
  import opened StoreRuns

  // ---------- The loops ----------

  /** The loop of `writeBuf`: `buf` from byte `offset` of block `n` on, one chunk a block. */
  ghost function WriteFrom(
      c: Config, st: Store, h: Handle, n: int, offset: int, buf: seq<Byte>, now: int): Outcome<(Store, Handle)>
    requires Integrity(c, st) && HandleOk(st, h) && 0 <= offset < c.blockSize
    decreases |buf|
  {
    RowsAreStored(c, st);
    var len := Min(|buf|, c.blockSize - offset);
    var (st1, h1) :- WriteChunk(c, st, h, n, offset, buf[..len], now);
    WriteChunkKeepsIntegrity(c, st, h, n, offset, buf[..len], now);
    if len == |buf| then Done((st1, h1)) else WriteFrom(c, st1, h1, n + 1, 0, buf[len..], now)
  }

  /** `writeBuf`: grow the file if needed, then write. */
  ghost function WriteBuf(c: Config, st: Store, h: Handle, buf: seq<Byte>, offset: int, now: int): Outcome<(Store, Handle)>
    requires Integrity(c, st) && HandleOk(st, h) && 0 <= offset
  {
    var (st1, h1) := if |buf| + offset > h.size then Ftruncate(st, h, |buf| + offset) else (st, h);
    FtruncateKeepsIntegrity(c, st, h, |buf| + offset);
    WriteFrom(c, st1, h1, offset / c.blockSize, offset % c.blockSize, buf, now)
  }

  lemma FtruncateKeepsIntegrity(c: Config, st: Store, h: Handle, newSize: int)
    requires Integrity(c, st) && HandleOk(st, h)
    ensures var (st', h') := Ftruncate(st, h, newSize);
            Integrity(c, st') && HandleOk(st', h')
  {
    hide Integrity;
    var (st', h') := Ftruncate(st, h, newSize);
    SizesKeepIntegrity(c, st, st'.sizes);
  }

  /** The loop of `readBuf`: `len` bytes from byte `offset` of block `n` on. */
  ghost function ReadFrom(
      c: Config, st: Store, h: Handle, n: int, offset: int, len: int, now: int): Outcome<(Store, Handle, seq<Byte>)>
    requires Integrity(c, st) && HandleOk(st, h) && 0 <= offset < c.blockSize && 0 <= len
    decreases len
  {
    RowsAreStored(c, st);
    var chunk := Min(len, c.blockSize - offset);
    var (st1, h1, bytes) :- ReadChunk(c, st, h, n, offset, chunk, now);
    ReadChunkKeepsIntegrity(c, st, h, n, offset, chunk, now);
    if chunk == len then Done((st1, h1, bytes))
    else
      var (st2, h2, rest) :- ReadFrom(c, st1, h1, n + 1, 0, len - chunk, now);
      Done((st2, h2, bytes + rest))
  }

  /** `readBuf`: no further than the end of the file. Behind it, it copies a negative number of bytes. */
  ghost function ReadBuf(
      c: Config, st: Store, h: Handle, size: int, offset: int, now: int): Outcome<(Store, Handle, seq<Byte>)>
    requires Integrity(c, st) && HandleOk(st, h) && 0 <= size && 0 <= offset
  {
    if h.size < offset then Aborted
    else ReadFrom(c, st, h, offset / c.blockSize, offset % c.blockSize, Min(size, h.size - offset), now)
  }

  /** The loop of `truncate`: release blocks `cur` to `end - 1`. */
  ghost function ReleaseFrom(c: Config, st: Store, h: Handle, cur: int, end: int): Outcome<(Store, Handle)>
    decreases end - cur
  {
    if cur >= end then Done((st, h))
    else
      var (st1, h1) :- ReleaseBlock(c, st, h, cur);
      ReleaseFrom(c, st1, h1, cur + 1, end)
  }

  /** The number of blocks that `size` bytes reach into. */
  function BlocksOf(c: Config, size: int): int {
    if size == 0 then 0 else (size - 1) / c.blockSize + 1
  }

  /** `truncate` for a size that is not negative. */
  ghost function Truncate(c: Config, st: Store, h: Handle, newSize: int): Outcome<(Store, Handle)>
    requires newSize >= 0
  {
    if h.size <= newSize then Done(Ftruncate(st, h, newSize))
    else
      var (st1, h1) :- ReleaseFrom(c, st, h, BlocksOf(c, newSize), if h.size != 0 then BlocksOf(c, h.size) else 1);
      Done(Ftruncate(st1, h1, newSize))
  }

  // ---------- Positions ----------

  lemma NextMultiple(n: int, b: int)
    ensures (n + 1) * b == n * b + b
  {
  }

  lemma SmallMultiple(b: int, d: int)
    requires b > 0 && -b < d * b < b
    ensures d == 0
  {
    assert d >= 1 ==> d * b >= 1 * b;
    assert d <= -1 ==> d * b <= -1 * b;
  }

  lemma Distribute(q: int, n: int, b: int)
    ensures (q - n) * b == q * b - n * b
  {
  }

  /** A position splits into block and byte in one way. */
  lemma Split(b: int, p: int, n: int, j: int)
    requires b > 0 && p == n * b + j && 0 <= j < b
    ensures p / b == n && p % b == j
  {
    var q, r := p / b, p % b;
    Joined(b, p);
    Distribute(q, n, b);
    SmallMultiple(b, q - n);
  }

  lemma Joined(b: int, p: int)
    requires b > 0
    ensures p == p / b * b + p % b && 0 <= p % b < b
  {
  }

  /** Blocks below the block count are those that begin before the size. */
  lemma BlocksBelow(c: Config, size: int, n: int)
    requires size >= 0 && n >= 0
    ensures n < BlocksOf(c, size) <==> n * c.blockSize < size
  {
    var b := c.blockSize;
    if size > 0 {
      var q := (size - 1) / b;
      Joined(b, size - 1);
      if n <= q {
        assert n * b <= q * b;
      } else {
        assert n * b >= (q + 1) * b;
        NextMultiple(q, b);
      }
    } else {
      assert n * b >= 0;
    }
  }

  lemma EmptyFileHasNoBlocks(c: Config, st: Store, f: FileId)
    requires Placed(c, st) && f in st.sizes && st.sizes[f] == 0
    ensures forall k :: k in st.fileBlocks ==> k.file != f
  {
    forall k | k in st.fileBlocks
      ensures k.file != f
    {
      assert k.offset >= 0 && k.offset * c.blockSize >= 0;
    }
  }

  // ---------- Bytes of sparse files ----------

  /** Byte `p` of a file, whether or not the file's size reaches that far. */
  function ByteAt(c: Config, a: Sparse, f: FileId, p: int): Byte
    requires SizedFiles(c, a)
  {
    BlockAt(c, a, Key(f, p / c.blockSize))[p % c.blockSize]
  }

  /** The blocks after the loop of `writeBuf`. */
  function Written(c: Config, a: Sparse, f: FileId, n: int, offset: int, buf: seq<Byte>): (r: Sparse)
    requires SizedFiles(c, a) && 0 <= offset < c.blockSize
    ensures SizedFiles(c, r) && r.sizes == a.sizes
    decreases |buf|
  {
    var k := Key(f, n);
    var len := Min(|buf|, c.blockSize - offset);
    var a1 := a.(blocks := a.blocks[k := Splice(BlockAt(c, a, k), offset, buf[..len])]);
    if len == |buf| then a1 else Written(c, a1, f, n + 1, 0, buf[len..])
  }

  lemma SplicedByte(base: Block, offset: int, chunk: seq<Byte>, j: int)
    requires 0 <= offset && offset + |chunk| <= |base| && 0 <= j < |base|
    ensures Splice(base, offset, chunk)[j] == if offset <= j < offset + |chunk| then chunk[j - offset] else base[j]
  {
  }

  /** One chunk: what the first step of the loop makes of byte `j` of block `m`. */
  lemma FirstChunk(c: Config, a: Sparse, f: FileId, n: int, offset: int, chunk: seq<Byte>, m: int, j: int)
    requires SizedFiles(c, a) && 0 <= offset && offset + |chunk| <= c.blockSize && 0 <= j < c.blockSize
    ensures var a1 := a.(blocks := a.blocks[Key(f, n) := Splice(BlockAt(c, a, Key(f, n)), offset, chunk)]);
            && SizedFiles(c, a1)
            && BlockAt(c, a1, Key(f, m))[j]
               == if m == n && offset <= j < offset + |chunk| then chunk[j - offset] else BlockAt(c, a, Key(f, m))[j]
  {
    SplicedByte(BlockAt(c, a, Key(f, n)), offset, chunk, j);
  }

  /** The bytes in `d` blocks. */
  function Span(c: Config, d: int): int { d * c.blockSize }

  lemma SpanLaws(c: Config, d: int)
    ensures d == 0 ==> Span(c, d) == 0
    ensures d >= 1 ==> Span(c, d) >= c.blockSize
    ensures d <= -1 ==> Span(c, d) <= -c.blockSize
    ensures Span(c, d - 1) == Span(c, d) - c.blockSize
  {
    if d >= 1 {
      assert d * c.blockSize >= 1 * c.blockSize;
    } else if d <= -1 {
      assert d * c.blockSize <= -1 * c.blockSize;
    }
    NextMultiple(d - 1, c.blockSize);
  }

  /** The chunks tile the range once: byte `j` of block `m` comes from the buffer exactly when it lies in the range. */
  lemma {:induction false} WrittenBytes(c: Config, a: Sparse, f: FileId, n: int, offset: int, buf: seq<Byte>, m: int, j: int)
    requires SizedFiles(c, a) && 0 <= offset < c.blockSize && 0 <= j < c.blockSize
    ensures var p := Span(c, m - n) + j - offset;
            BlockAt(c, Written(c, a, f, n, offset, buf), Key(f, m))[j]
            == if 0 <= p < |buf| then buf[p] else BlockAt(c, a, Key(f, m))[j]
    decreases |buf|
  {
    hide Splice, Span;
    var len := Min(|buf|, c.blockSize - offset);
    var a1 := a.(blocks := a.blocks[Key(f, n) := Splice(BlockAt(c, a, Key(f, n)), offset, buf[..len])]);
    FirstChunk(c, a, f, n, offset, buf[..len], m, j);
    SpanLaws(c, m - n);
    if len < |buf| {
      WrittenBytes(c, a1, f, n + 1, 0, buf[len..], m, j);
      assert m - (n + 1) == m - n - 1;
    }
  }

  lemma {:induction false} WrittenElsewhere(c: Config, a: Sparse, f: FileId, n: int, offset: int, buf: seq<Byte>, k: Key)
    requires SizedFiles(c, a) && 0 <= offset < c.blockSize && k.file != f
    ensures BlockAt(c, Written(c, a, f, n, offset, buf), k) == BlockAt(c, a, k)
    decreases |buf|
  {
    hide Splice;
    var len := Min(|buf|, c.blockSize - offset);
    if len < |buf| {
      var data := Splice(BlockAt(c, a, Key(f, n)), offset, buf[..len]);
      WrittenElsewhere(c, a.(blocks := a.blocks[Key(f, n) := data]), f, n + 1, 0, buf[len..], k);
    }
  }

  /** The bytes after a write: the buffer in its range, the old byte everywhere else, in every file. */
  lemma WriteSplices(c: Config, a: Sparse, f: FileId, offset: int, buf: seq<Byte>, g: FileId, p: int)
    requires SizedFiles(c, a) && 0 <= offset
    ensures ByteAt(c, Written(c, a, f, offset / c.blockSize, offset % c.blockSize, buf), g, p)
         == if g == f && offset <= p < offset + |buf| then buf[p - offset] else ByteAt(c, a, g, p)
  {
    hide Written;
    var b := c.blockSize;
    Joined(b, offset);
    Joined(b, p);
    if g == f {
      WrittenBytes(c, a, f, offset / b, offset % b, buf, p / b, p % b);
      Distribute(p / b, offset / b, b);
    } else {
      WrittenElsewhere(c, a, f, offset / b, offset % b, buf, Key(g, p / b));
    }
  }

  /** The bytes the loop of `readBuf` collects. */
  function ReadOut(c: Config, a: Sparse, f: FileId, n: int, offset: int, len: int): (r: seq<Byte>)
    requires SizedFiles(c, a) && 0 <= offset < c.blockSize && 0 <= len
    ensures |r| == len
    decreases len
  {
    var chunk := Min(len, c.blockSize - offset);
    var bytes := BlockAt(c, a, Key(f, n))[offset..offset + chunk];
    if chunk == len then bytes else bytes + ReadOut(c, a, f, n + 1, 0, len - chunk)
  }

  lemma {:induction false} ReadOutBytes(c: Config, a: Sparse, f: FileId, n: int, offset: int, len: int, m: int, j: int)
    requires SizedFiles(c, a) && 0 <= offset < c.blockSize && 0 <= len && 0 <= j < c.blockSize
    requires 0 <= Span(c, m - n) + j - offset < len
    ensures ReadOut(c, a, f, n, offset, len)[Span(c, m - n) + j - offset] == BlockAt(c, a, Key(f, m))[j]
    decreases len
  {
    hide Span;
    var chunk := Min(len, c.blockSize - offset);
    SpanLaws(c, m - n);
    if m != n {
      assert m - (n + 1) == m - n - 1;
      ReadOutBytes(c, a, f, n + 1, 0, len - chunk, m, j);
    }
  }

  /** A read is a slice of the file's bytes. */
  lemma ReadSlices(c: Config, a: Sparse, f: FileId, offset: int, len: int)
    requires SizedFiles(c, a) && 0 <= offset && 0 <= len
    ensures ReadOut(c, a, f, offset / c.blockSize, offset % c.blockSize, len)
         == seq(len, i requires 0 <= i < len => ByteAt(c, a, f, offset + i))
  {
    var b := c.blockSize;
    var out := ReadOut(c, a, f, offset / b, offset % b, len);
    forall i | 0 <= i < len
      ensures out[i] == ByteAt(c, a, f, offset + i)
    {
      var p := offset + i;
      Joined(b, offset);
      Joined(b, p);
      Distribute(p / b, offset / b, b);
      ReadOutBytes(c, a, f, offset / b, offset % b, len, p / b, p % b);
    }
  }

  /** Reading back the range just written returns the buffer. */
  lemma ReadBack(c: Config, a: Sparse, f: FileId, offset: int, buf: seq<Byte>)
    requires SizedFiles(c, a) && 0 <= offset
    ensures var n, o := offset / c.blockSize, offset % c.blockSize;
            ReadOut(c, Written(c, a, f, n, o, buf), f, n, o, |buf|) == buf
  {
    hide Written, ReadOut, ByteAt;
    var a' := Written(c, a, f, offset / c.blockSize, offset % c.blockSize, buf);
    ReadSlices(c, a', f, offset, |buf|);
    forall i | 0 <= i < |buf|
      ensures ByteAt(c, a', f, offset + i) == buf[i]
    {
      WriteSplices(c, a, f, offset, buf, f, offset + i);
    }
  }

  // ---------- The loops through a handle ----------

  /** The handle may use the blocks `ns` of its file; the store is well kept and free of collisions. */
  ghost predicate Ready(c: Config, seen: iset<Block>, st: Store, h: Handle, ns: iset<int>) {
    && Inv(c, st) && HandleOk(st, h) && AllSeen(st, seen) && CollisionFree(c, seen)
    && Current(st, h) && forall m :: m in ns ==> Usable(st, h, m)
  }

  predicate InRange(m: int, from: int, to: int) { from <= m < to }

  /** The blocks `from` to `to - 1`. */
  ghost function Range(from: int, to: int): iset<int> {
    iset m | InRange(m, from, to)
  }

  /** A handle that was just opened may use all blocks. */
  lemma NewHandleReady(c: Config, seen: iset<Block>, st: Store, f: FileId)
    requires Inv(c, st) && AllSeen(st, seen) && CollisionFree(c, seen) && f in st.sizes
    ensures forall ns :: Ready(c, seen, st, Handle(f, st.sizes[f], map[]), ns)
  {
    hide Inv, AllSeen, CollisionFree;
  }

  lemma OthersReady(st: Store, st': Store, h: Handle, h': Handle, n: int, ns: iset<int>)
    requires OthersStay(st, st', Key(h.ino, n)) && EntriesStay(h, h', n) && Current(st', h')
    requires forall m :: m in ns ==> Usable(st, h, m)
    ensures forall m :: m in ns && m != n ==> Usable(st', h', m)
  {
    hide Usable, OthersStay, EntriesStay;
    forall m | m in ns && m != n
      ensures Usable(st', h', m)
    {
      UsableStays(st, st', h, h', n, m);
    }
  }

  /** The bytes that the chunks make of their blocks are among those that do not collide. */
  ghost predicate Gives(c: Config, seen: iset<Block>, a: Sparse, f: FileId, n: int, offset: int, buf: seq<Byte>)
    requires SizedFiles(c, a) && 0 <= offset < c.blockSize
    decreases |buf|
  {
    var k := Key(f, n);
    var len := Min(|buf|, c.blockSize - offset);
    var data := Splice(BlockAt(c, a, k), offset, buf[..len]);
    && data in seen
    && (len < |buf| ==> Gives(c, seen, a.(blocks := a.blocks[k := data]), f, n + 1, 0, buf[len..]))
  }

  /** Every chunk changes the block it goes to, or fills a hole. */
  ghost predicate Alters(c: Config, a: Sparse, f: FileId, n: int, offset: int, buf: seq<Byte>)
    requires SizedFiles(c, a) && 0 <= offset < c.blockSize
    decreases |buf|
  {
    var k := Key(f, n);
    var len := Min(|buf|, c.blockSize - offset);
    var data := Splice(BlockAt(c, a, k), offset, buf[..len]);
    && (k in a.blocks ==> data != a.blocks[k])
    && (len < |buf| ==> Alters(c, a.(blocks := a.blocks[k := data]), f, n + 1, 0, buf[len..]))
  }

  /** Every chunk changes the block it goes to, or fills a hole, and nothing collides. */
  ghost predicate Changes(c: Config, seen: iset<Block>, a: Sparse, f: FileId, n: int, offset: int, buf: seq<Byte>)
    requires SizedFiles(c, a) && 0 <= offset < c.blockSize
  {
    Gives(c, seen, a, f, n, offset, buf) && Alters(c, a, f, n, offset, buf)
  }

  lemma ViewIsSized(c: Config, st: Store)
    requires Inv(c, st)
    ensures SizedFiles(c, View(st))
  {
    hide Integrity, Exact, Placed, BytesOf;
    forall k | k in View(st).blocks
      ensures |View(st).blocks[k]| == c.blockSize
    {
      BlocksAreSized(c, st, k);
    }
  }

  /** One iteration of the write loop leaves everything ready for the next. */
  lemma WriteIteration(
      c: Config, seen: iset<Block>, st: Store, h: Handle, n: int, offset: int, chunk: seq<Byte>, now: int, ns: iset<int>)
    requires Ready(c, seen, st, h, ns) && n in ns && 0 <= offset && offset + |chunk| <= c.blockSize
    requires 0 <= n && n * c.blockSize < st.sizes[h.ino]
    requires SizedFiles(c, View(st))
    requires var k := Key(h.ino, n);
             var data := Splice(BlockAt(c, View(st), k), offset, chunk);
             data in seen && (k in View(st).blocks ==> data != View(st).blocks[k])
    ensures DataSized(c, st.cache) && WriteChunk(c, st, h, n, offset, chunk, now).Done?
    ensures var (st', h') := WriteChunk(c, st, h, n, offset, chunk, now).value;
            && Ready(c, seen, st', h', ns - iset{n})
            && View(st') == View(st).(blocks := View(st).blocks[Key(h.ino, n) := Splice(BlockAt(c, View(st), Key(h.ino, n)), offset, chunk)])
            && h'.ino == h.ino && h'.size == h.size
  {
    hide Effective, Stored, RowOk, CachedOk, WriteChunk, NoCollision, BytesOf, FreshEntry, Integrity, Exact, Placed,
         Splice, AllSeen, HandleOk, CollisionFree, Usable, OthersStay, EntriesStay;
    var k := Key(h.ino, n);
    InvParts(c, st);
    assert Usable(st, h, n) && n * c.blockSize < st.sizes[h.ino];
    RowsAreStored(c, st);
    var data := NewBlock(c, st, k, offset, chunk);
    SeenMeansNoCollision(c, seen, st, data);
    HashChanges(c, seen, st, k, data);
    WriteChunkStep(c, st, h, n, offset, chunk, now);
    WriteChunkSeen(c, seen, st, h, n, offset, chunk, now);
    var (st', h') := WriteChunk(c, st, h, n, offset, chunk, now).value;
    ViewSizes(st);
    ViewSizes(st');
    OthersReady(st, st', h, h', n, ns);
  }

  /** The write loop, through a handle that may use these blocks, is the splice of the buffer. */
  lemma {:induction false} WriteFromRefines(
      c: Config, seen: iset<Block>, st: Store, h: Handle, n: int, offset: int, buf: seq<Byte>, now: int, ns: iset<int>, end: int)
    requires Ready(c, seen, st, h, ns) && SizedFiles(c, View(st)) && 0 <= offset < c.blockSize && 0 <= n && |buf| > 0
    requires Range(n, end) <= ns && n * c.blockSize + offset + |buf| <= end * c.blockSize
    requires n * c.blockSize + offset + |buf| <= st.sizes[h.ino]
    requires Changes(c, seen, View(st), h.ino, n, offset, buf)
    ensures Integrity(c, st) && HandleOk(st, h)
    ensures var r := WriteFrom(c, st, h, n, offset, buf, now);
            && r.Done? && Ready(c, seen, r.value.0, r.value.1, ns - Range(n, end))
            && View(r.value.0) == Written(c, View(st), h.ino, n, offset, buf)
            && r.value.1.ino == h.ino && r.value.1.size == h.size
    decreases |buf|
  {
    hide WriteChunk, View, Inv, HandleOk, AllSeen, CollisionFree, Splice, BlockAt, SizedFiles, Usable;
    InvParts(c, st);
    var len := Min(|buf|, c.blockSize - offset);
    FewerBlocks(n, end, c.blockSize);
    WriteIteration(c, seen, st, h, n, offset, buf[..len], now, ns);
    if len < |buf| {
      var (st1, h1) := WriteChunk(c, st, h, n, offset, buf[..len], now).value;
      ViewIsSized(c, st1);
      NextMultiple(n, c.blockSize);
      WriteFromRefines(c, seen, st1, h1, n + 1, 0, buf[len..], now, ns - iset{n}, end);
    }
  }

  lemma FewerBlocks(n: int, end: int, b: int)
    requires b > 0 && n * b < end * b
    ensures n < end
  {
    Distribute(n, end, b);
    assert n >= end ==> (n - end) * b >= 0;
  }

  lemma GrowReady(c: Config, seen: iset<Block>, st: Store, h: Handle, newSize: int, ns: iset<int>)
    requires Ready(c, seen, st, h, ns) && newSize >= h.size
    ensures var (st', h') := Ftruncate(st, h, newSize);
            && Ready(c, seen, st', h', ns) && h' == h.(size := newSize)
            && View(st') == View(st).(sizes := st.sizes[h.ino := newSize])
  {
    hide Refs, Integrity, View, SameBytes, Exact, AllSeen;
    InvParts(c, st);
    ResizeStep(c, st, h, newSize);
    SameBytesSeen(c, seen, st, Ftruncate(st, h, newSize).0);
    ResizedReady(st, Ftruncate(st, h, newSize).0, h, newSize, ns);
  }

  lemma ResizedReady(st: Store, st': Store, h: Handle, newSize: int, ns: iset<int>)
    requires st' == st.(sizes := st.sizes[h.ino := newSize])
    requires forall m :: m in ns ==> Usable(st, h, m)
    ensures forall m :: m in ns ==> Usable(st', h.(size := newSize), m)
  {
    hide FindRow;
    forall m | m in ns
      ensures Usable(st', h.(size := newSize), m)
    {
      assert Usable(st, h, m);
    }
  }

  /** The files after `writeBuf`: the size covers the range, and the buffer is spliced in. */
  function FilesAfterWrite(c: Config, a: Sparse, f: FileId, offset: int, buf: seq<Byte>): (r: Sparse)
    requires SizedFiles(c, a) && 0 <= offset && f in a.sizes
    ensures SizedFiles(c, r)
  {
    var a1 := a.(sizes := a.sizes[f := Max(a.sizes[f], offset + |buf|)]);
    Written(c, a1, f, offset / c.blockSize, offset % c.blockSize, buf)
  }

  /** The blocks that `writeBuf` goes to. */
  ghost function WriteRange(c: Config, offset: int, len: int): iset<int> {
    Range(offset / c.blockSize, BlocksOf(c, offset + len))
  }

  /**
   `writeBuf` through a handle that may use the blocks it goes to, for a buffer that is not empty. The other
   blocks that the handle may use it may use afterwards.
   */
  lemma WriteBufRefines(
      c: Config, seen: iset<Block>, st: Store, h: Handle, buf: seq<Byte>, offset: int, now: int, ns: iset<int>)
    requires Ready(c, seen, st, h, ns) && WriteRange(c, offset, |buf|) <= ns && SizedFiles(c, View(st)) && 0 <= offset && |buf| > 0
    requires Changes(c, seen, View(st), h.ino, offset / c.blockSize, offset % c.blockSize, buf)
    ensures Integrity(c, st) && HandleOk(st, h)
    ensures var r := WriteBuf(c, st, h, buf, offset, now);
            && r.Done? && Ready(c, seen, r.value.0, r.value.1, ns - WriteRange(c, offset, |buf|))
            && View(r.value.0) == FilesAfterWrite(c, View(st), h.ino, offset, buf)
            && r.value.1.ino == h.ino && r.value.1.size == Max(h.size, offset + |buf|)
  {
    hide View, Inv, HandleOk, AllSeen, CollisionFree, Written, Ftruncate, WriteFrom, Gives, Alters, Usable, Range, BlocksOf;
    InvParts(c, st);
    var size := Max(h.size, offset + |buf|);
    GrowReady(c, seen, st, h, size, ns);
    var (st1, h1) := Ftruncate(st, h, size);
    if size == h.size {
      assert (st1, h1) == (st, h) by {
        SameSize(st, h);
      }
      assert View(st).sizes[h.ino := size] == View(st).sizes by {
        ViewSizes(st);
      }
    }
    ChangesIgnoresSizes(c, seen, View(st), View(st1), h.ino, offset / c.blockSize, offset % c.blockSize, buf);
    Joined(c.blockSize, offset);
    NonNegativeQuotient(offset, c.blockSize);
    BlocksCover(c, offset + |buf|);
    ViewSizes(st);
    ViewSizes(st1);
    WriteFromRefines(c, seen, st1, h1, offset / c.blockSize, offset % c.blockSize, buf, now, ns, BlocksOf(c, offset + |buf|));
  }

  lemma SameSize(st: Store, h: Handle)
    ensures Ftruncate(st, h, h.size) == (st, h)
  {
  }

  lemma ViewSizes(st: Store)
    ensures View(st).sizes == st.sizes
  {
  }

  lemma NonNegativeQuotient(x: int, b: int)
    requires x >= 0 && b > 0
    ensures x / b >= 0
  {
  }

  /** The blocks that a size reaches into cover it. */
  lemma BlocksCover(c: Config, size: int)
    requires size >= 0
    ensures size <= BlocksOf(c, size) * c.blockSize
  {
    if size > 0 {
      Joined(c.blockSize, size - 1);
      NextMultiple((size - 1) / c.blockSize, c.blockSize);
    }
  }

  lemma {:induction false} ChangesIgnoresSizes(
      c: Config, seen: iset<Block>, a: Sparse, a': Sparse, f: FileId, n: int, offset: int, buf: seq<Byte>)
    requires SizedFiles(c, a) && a'.blocks == a.blocks && 0 <= offset < c.blockSize
    ensures SizedFiles(c, a')
    ensures Gives(c, seen, a', f, n, offset, buf) == Gives(c, seen, a, f, n, offset, buf)
    ensures Alters(c, a', f, n, offset, buf) == Alters(c, a, f, n, offset, buf)
    decreases |buf|
  {
    hide Splice;
    var k := Key(f, n);
    var len := Min(|buf|, c.blockSize - offset);
    if len < |buf| {
      var data := Splice(BlockAt(c, a, k), offset, buf[..len]);
      ChangesIgnoresSizes(c, seen, a.(blocks := a.blocks[k := data]), a'.(blocks := a.blocks[k := data]), f, n + 1, 0, buf[len..]);
    }
  }

  // ---------- Reading ----------

  /** One iteration of the read loop leaves the handle able to use all it could use before. */
  lemma ReadIteration(
      c: Config, seen: iset<Block>, st: Store, h: Handle, n: int, offset: int, len: int, now: int, ns: iset<int>)
    requires Ready(c, seen, st, h, ns) && n in ns
    requires SizedFiles(c, View(st)) && 0 <= offset && 0 <= len && offset + len <= c.blockSize
    ensures DataSized(c, st.cache) && ReadChunk(c, st, h, n, offset, len, now).Done?
    ensures var (st', h', bytes) := ReadChunk(c, st, h, n, offset, len, now).value;
            && Ready(c, seen, st', h', ns) && View(st') == View(st)
            && bytes == BlockAt(c, View(st), Key(h.ino, n))[offset..offset + len]
            && h'.ino == h.ino && h'.size == h.size
  {
    hide Effective, Stored, RowOk, CachedOk, ReadChunk, BytesOf, Integrity, Exact, Placed, AllSeen, HandleOk, SameBytes,
         Usable, OthersStay, EntriesStay;
    InvParts(c, st);
    RowsAreStored(c, st);
    assert Usable(st, h, n);
    ReadChunkStep(c, st, h, n, offset, len, now);
    ReadChunkBytes(c, st, h, n, offset, len, now);
    SameBytesSeen(c, seen, st, ReadChunk(c, st, h, n, offset, len, now).value.0);
    var (st', h', _) := ReadChunk(c, st, h, n, offset, len, now).value;
    ViewSizes(st);
    ViewSizes(st');
    OthersReady(st, st', h, h', n, ns);
  }

  /** The read loop collects the file's bytes, changes no file, and can be repeated. */
  lemma {:induction false} ReadFromRefines(
      c: Config, seen: iset<Block>, st: Store, h: Handle, n: int, offset: int, len: int, now: int, ns: iset<int>, end: int)
    requires Ready(c, seen, st, h, ns) && SizedFiles(c, View(st)) && 0 <= offset < c.blockSize && 0 <= len
    requires Range(n, end) <= ns && n * c.blockSize + offset + Max(len, 1) <= end * c.blockSize
    ensures Integrity(c, st) && HandleOk(st, h)
    ensures var r := ReadFrom(c, st, h, n, offset, len, now);
            && r.Done? && Ready(c, seen, r.value.0, r.value.1, ns) && View(r.value.0) == View(st)
            && r.value.2 == ReadOut(c, View(st), h.ino, n, offset, len)
            && r.value.1.ino == h.ino && r.value.1.size == h.size
    decreases len
  {
    hide ReadChunk, View, Inv, HandleOk, AllSeen, CollisionFree, BlockAt, SizedFiles, Usable, Current;
    InvParts(c, st);
    var chunk := Min(len, c.blockSize - offset);
    FewerBlocks(n, end, c.blockSize);
    ReadIteration(c, seen, st, h, n, offset, chunk, now, ns);
    if chunk < len {
      var (st1, h1, _) := ReadChunk(c, st, h, n, offset, chunk, now).value;
      NextMultiple(n, c.blockSize);
      ReadFromRefines(c, seen, st1, h1, n + 1, 0, len - chunk, now, ns, end);
    }
  }

  /** The blocks that `readBuf` looks up: at least one. */
  ghost function ReadRange(c: Config, h: Handle, offset: int, size: int): iset<int> {
    Range(offset / c.blockSize, BlocksOf(c, offset + Max(Min(size, h.size - offset), 1)))
  }

  /**
   `readBuf` through a handle that may use the blocks it looks up succeeds if and only if it does not start behind
   the end of the file. It returns the file's bytes from `offset`, up to the size asked for or the end, and
   leaves a handle that may use all it could use.
   */
  lemma ReadBufRefines(
      c: Config, seen: iset<Block>, st: Store, h: Handle, size: int, offset: int, now: int, ns: iset<int>)
    requires Ready(c, seen, st, h, ns) && (offset <= h.size ==> ReadRange(c, h, offset, size) <= ns)
    requires SizedFiles(c, View(st)) && 0 <= size && 0 <= offset
    ensures Integrity(c, st) && HandleOk(st, h)
    ensures ReadBuf(c, st, h, size, offset, now).Done? <==> offset <= h.size
    ensures offset <= h.size ==>
            var r := ReadBuf(c, st, h, size, offset, now);
            var len := Min(size, h.size - offset);
            && Ready(c, seen, r.value.0, r.value.1, ns) && View(r.value.0) == View(st)
            && r.value.1.ino == h.ino && r.value.1.size == h.size
            && r.value.2 == seq(len, i requires 0 <= i < len => ByteAt(c, View(st), h.ino, offset + i))
  {
    hide View, Inv, HandleOk, AllSeen, CollisionFree, ReadOut, ReadFrom, ByteAt, Usable, Range, BlocksOf;
    InvParts(c, st);
    var len := Min(size, h.size - offset);
    if offset <= h.size {
      NonNegativeQuotient(offset, c.blockSize);
      Joined(c.blockSize, offset);
      BlocksCover(c, offset + Max(len, 1));
      ReadFromRefines(c, seen, st, h, offset / c.blockSize, offset % c.blockSize, len, now, ns, BlocksOf(c, offset + Max(len, 1)));
      ReadSlices(c, View(st), h.ino, offset, len);
    }
  }

  /** A write of nothing within the file still looks the block at its offset up and writes it as it is. */
  lemma EmptyWrite(c: Config, st: Store, h: Handle, offset: int, now: int)
    requires Integrity(c, st) && HandleOk(st, h) && 0 <= offset <= h.size
    ensures DataSized(c, st.cache)
    ensures WriteBuf(c, st, h, [], offset, now) == WriteChunk(c, st, h, offset / c.blockSize, offset % c.blockSize, [], now)
  {
    hide WriteChunk, Integrity, HandleOk;
    RowsAreStored(c, st);
    Joined(c.blockSize, offset);
    var (n, o, none: seq<Byte>) := (offset / c.blockSize, offset % c.blockSize, []);
    assert none[..0] == none && |none| + offset <= h.size;
    assert Min(|none|, c.blockSize - o) == 0;
    match WriteChunk(c, st, h, n, o, none, now) {
      case Aborted => assert WriteFrom(c, st, h, n, o, none, now) == Aborted;
      case Done(r) => assert WriteFrom(c, st, h, n, o, none, now) == Done((r.0, r.1));
    }
    assert WriteBuf(c, st, h, none, offset, now) == WriteFrom(c, st, h, n, o, none, now);
  }

  /** A buffer written through a handle that may use the blocks is read back through a new one. */
  lemma WriteThenRead(
      c: Config, seen: iset<Block>, st: Store, h: Handle, buf: seq<Byte>, offset: int, now: int, later: int)
    requires Ready(c, seen, st, h, WriteRange(c, offset, |buf|)) && SizedFiles(c, View(st)) && 0 <= offset && |buf| > 0
    requires Changes(c, seen, View(st), h.ino, offset / c.blockSize, offset % c.blockSize, buf)
    ensures Integrity(c, st) && HandleOk(st, h)
    ensures var w := WriteBuf(c, st, h, buf, offset, now);
            && w.Done?
            && var (st', h') := (w.value.0, Handle(h.ino, w.value.1.size, map[]));
               && Integrity(c, st') && HandleOk(st', h') && offset <= h'.size
               && var r := ReadBuf(c, st', h', |buf|, offset, later);
                  r.Done? && r.value.2 == buf
  {
    hide Inv, View, AllSeen, CollisionFree, Changes, WriteBuf, ReadBuf, ByteAt, Written, HandleOk;
    WriteBufRefines(c, seen, st, h, buf, offset, now, WriteRange(c, offset, |buf|));
    var (st', h1) := WriteBuf(c, st, h, buf, offset, now).value;
    var h' := Handle(h.ino, h1.size, map[]);
    ViewSizes(st);
    ViewSizes(st');
    WrittenSizes(c, View(st), h.ino, offset, buf);
    NewHandleReady(c, seen, st', h.ino);
    ViewIsSized(c, st');
    ReadBufRefines(c, seen, st', h', |buf|, offset, later, ReadRange(c, h', offset, |buf|));
    var a := View(st).(sizes := View(st).sizes[h.ino := Max(View(st).sizes[h.ino], offset + |buf|)]);
    forall i | 0 <= i < |buf|
      ensures ByteAt(c, View(st'), h.ino, offset + i) == buf[i]
    {
      WriteSplices(c, a, h.ino, offset, buf, h.ino, offset + i);
    }
  }

  lemma WrittenSizes(c: Config, a: Sparse, f: FileId, offset: int, buf: seq<Byte>)
    requires SizedFiles(c, a) && 0 <= offset && f in a.sizes
    ensures FilesAfterWrite(c, a, f, offset, buf).sizes == a.sizes[f := Max(a.sizes[f], offset + |buf|)]
  {
  }

  // ---------- Truncating ----------

  /** The files without blocks `cur` to `end - 1` of `f`. */
  function WithoutBlocks(a: Sparse, f: FileId, cur: int, end: int): Sparse {
    a.(blocks := map k | k in a.blocks && !(k.file == f && cur <= k.offset < end) :: a.blocks[k])
  }

  lemma ReleaseIteration(c: Config, seen: iset<Block>, st: Store, h: Handle, n: int, ns: iset<int>, end: int)
    requires Ready(c, seen, st, h, ns) && Key(h.ino, n) in st.fileBlocks
    requires n < end && forall m :: n <= m < end ==> Named(st, h, m)
    ensures ReleaseBlock(c, st, h, n).Done?
    ensures var (st', h') := ReleaseBlock(c, st, h, n).value;
            && Ready(c, seen, st', h', ns) && h' == h.(blocks := h.blocks - {n}) && st'.fileBlocks == st.fileBlocks - {Key(h.ino, n)}
            && (forall m :: n < m < end ==> Named(st', h', m))
            && View(st') == View(st).(blocks := View(st).blocks - {Key(h.ino, n)})
  {
    hide Effective, Stored, RowOk, CachedOk, ReleaseBlock, BytesOf, Integrity, Exact, AllSeen, HandleOk, SameBytes, Released,
         OthersStay, EntriesStay, Usable, Named;
    InvParts(c, st);
    assert Named(st, h, n);
    ReleaseStep(c, st, h, n);
    ReleaseEffect(c, st, h, n);
    var (st', h') := ReleaseBlock(c, st, h, n).value;
    SameBytesSeen(c, seen, st, st');
    ViewSizes(st);
    ViewSizes(st');
    ReleasedTables(st, st', Key(h.ino, n));
    OthersReady(st, st', h, h', n, ns);
    ForgottenIsUsable(st', h', n);
    forall m | n < m < end
      ensures Named(st', h', m)
    {
      NamedStays(st, st', h, h', n, m);
    }
  }

  /** A block the handle has no entry for it may use. */
  lemma ForgottenIsUsable(st: Store, h: Handle, n: int)
    requires n !in h.blocks && Current(st, h)
    ensures Usable(st, h, n)
  {
  }

  lemma NamedStays(st: Store, st': Store, h: Handle, h': Handle, n: int, m: int)
    requires OthersStay(st, st', Key(h.ino, n)) && EntriesStay(h, h', n) && Current(st', h')
    requires m != n && Named(st, h, m)
    ensures Named(st', h', m)
  {
    hide FindRow;
  }

  lemma ReleasedTables(st: Store, st': Store, k: Key)
    requires Exact(st) && k in st.fileBlocks && Released(st, st', k)
    ensures st'.fileBlocks == st.fileBlocks - {k}
  {
  }

  /** The release loop completes if and only if it meets no hole, and then removes exactly these blocks. */
  lemma {:induction false} ReleaseFromRefines(
      c: Config, seen: iset<Block>, st: Store, h: Handle, cur: int, end: int, ns: iset<int>)
    requires Ready(c, seen, st, h, ns) && forall n :: cur <= n < end ==> Named(st, h, n)
    ensures var r := ReleaseFrom(c, st, h, cur, end);
            && (r.Done? <==> forall n :: cur <= n < end ==> Key(h.ino, n) in st.fileBlocks)
            && (r.Done? ==>
                 Ready(c, seen, r.value.0, r.value.1, ns) && r.value.1.ino == h.ino && r.value.1.size == h.size
                 && View(r.value.0) == WithoutBlocks(View(st), h.ino, cur, end))
    decreases end - cur
  {
    hide ReleaseBlock, Ready, View, Named;
    if cur < end {
      var k := Key(h.ino, cur);
      assert Named(st, h, cur);
      ReadyIsInv(c, seen, st, h, ns);
      ReleaseOutcome(c, st, h, cur);
      if k in st.fileBlocks {
        ReleaseIteration(c, seen, st, h, cur, ns, end);
        var (st1, h1) := ReleaseBlock(c, st, h, cur).value;
        ReleaseFromRefines(c, seen, st1, h1, cur + 1, end, ns);
        assert forall n :: n != cur ==> (Key(h.ino, n) in st1.fileBlocks <==> Key(h.ino, n) in st.fileBlocks);
        RemovedInOrder(View(st), View(st1), h.ino, cur, end);
      }
    } else {
      assert WithoutBlocks(View(st), h.ino, cur, end).blocks == View(st).blocks;
    }
  }

  lemma ReadyIsInv(c: Config, seen: iset<Block>, st: Store, h: Handle, ns: iset<int>)
    requires Ready(c, seen, st, h, ns)
    ensures Inv(c, st)
  {
  }

  lemma RemovedInOrder(a: Sparse, a1: Sparse, f: FileId, cur: int, end: int)
    requires cur < end && a1 == a.(blocks := a.blocks - {Key(f, cur)})
    ensures WithoutBlocks(a1, f, cur + 1, end) == WithoutBlocks(a, f, cur, end)
  {
    assert WithoutBlocks(a1, f, cur + 1, end).blocks == WithoutBlocks(a, f, cur, end).blocks;
  }

  /** The files after a shrinking truncate: only the blocks that begin below the new size are left. */
  function FilesAfterShrink(c: Config, a: Sparse, f: FileId, newSize: int): Sparse {
    Sparse(a.sizes[f := newSize],
           map k | k in a.blocks && !(k.file == f && k.offset * c.blockSize >= newSize) :: a.blocks[k])
  }

  /**
   A shrinking `truncate` through a handle whose entries name the rows of the blocks it releases completes if and
   only if every block from the new end to the old one is allocated; then what remains are the blocks that begin
   below the new size, with counts exact. A file of a size s has blocks 0 to BlocksOf(s) - 1.
   */
  lemma TruncateRefines(c: Config, seen: iset<Block>, st: Store, h: Handle, newSize: int, ns: iset<int>)
    requires Ready(c, seen, st, h, ns) && 0 <= newSize < h.size
    requires forall n :: BlocksOf(c, newSize) <= n < BlocksOf(c, h.size) ==> Named(st, h, n)
    ensures var r := Truncate(c, st, h, newSize);
            && (r.Done? <==> forall n :: BlocksOf(c, newSize) <= n < BlocksOf(c, h.size) ==> Key(h.ino, n) in st.fileBlocks)
            && (r.Done? ==>
                 Ready(c, seen, r.value.0, r.value.1, ns) && r.value.1.ino == h.ino && r.value.1.size == newSize
                 && View(r.value.0) == FilesAfterShrink(c, View(st), h.ino, newSize))
  {
    hide ReleaseFrom, View, Inv, HandleOk, AllSeen, CollisionFree, Ftruncate, BlocksOf, Named, Usable;
    var start, end := BlocksOf(c, newSize), BlocksOf(c, h.size);
    ReleaseFromRefines(c, seen, st, h, start, end, ns);
    ViewSizes(st);
    if ReleaseFrom(c, st, h, start, end).Done? {
      var (st1, h1) := ReleaseFrom(c, st, h, start, end).value;
      ShrunkBlocks(c, st, h, newSize);
      ViewSizes(st1);
      ShrinkReady(c, seen, st1, h1, newSize, ns) by {
        BlocksLeft(c, seen, st1, st, h, newSize);
      }
    }
  }

  /** Releasing up to the old end leaves what begins below the new size. */
  lemma ShrunkBlocks(c: Config, st: Store, h: Handle, newSize: int)
    requires Inv(c, st) && h.ino in st.sizes && h.size == st.sizes[h.ino] && 0 <= newSize < h.size
    ensures WithoutBlocks(View(st), h.ino, BlocksOf(c, newSize), BlocksOf(c, h.size)).(sizes := st.sizes[h.ino := newSize])
         == FilesAfterShrink(c, View(st), h.ino, newSize)
  {
    hide Integrity, Exact, BytesOf, BlocksOf;
    forall k | k in st.fileBlocks && k.file == h.ino
      ensures BlocksOf(c, newSize) <= k.offset < BlocksOf(c, h.size) <==> k.offset * c.blockSize >= newSize
    {
      BlocksBelow(c, newSize, k.offset);
      BlocksBelow(c, h.size, k.offset);
    }
    assert WithoutBlocks(View(st), h.ino, BlocksOf(c, newSize), BlocksOf(c, h.size)).blocks
        == FilesAfterShrink(c, View(st), h.ino, newSize).blocks;
  }

  lemma BlocksLeft(c: Config, seen: iset<Block>, st1: Store, st: Store, h: Handle, newSize: int)
    requires Inv(c, st) && h.ino in st.sizes && h.size == st.sizes[h.ino] && 0 <= newSize < h.size
    requires View(st1) == WithoutBlocks(View(st), h.ino, BlocksOf(c, newSize), BlocksOf(c, h.size))
    ensures forall k :: k in st1.fileBlocks && k.file == h.ino ==> k.offset * c.blockSize < newSize
  {
    hide Integrity, Exact, BytesOf, BlocksOf;
    forall k | k in st1.fileBlocks && k.file == h.ino
      ensures k.offset * c.blockSize < newSize
    {
      assert k in View(st1).blocks && k in View(st).blocks;
      BlocksBelow(c, newSize, k.offset);
      BlocksBelow(c, h.size, k.offset);
    }
  }

  lemma ShrinkReady(c: Config, seen: iset<Block>, st: Store, h: Handle, newSize: int, ns: iset<int>)
    requires Ready(c, seen, st, h, ns) && newSize >= 0
    requires forall k :: k in st.fileBlocks && k.file == h.ino ==> k.offset * c.blockSize < newSize
    ensures var (st', h') := Ftruncate(st, h, newSize);
            && Ready(c, seen, st', h', ns) && h' == h.(size := newSize)
            && View(st') == View(st).(sizes := st.sizes[h.ino := newSize])
  {
    hide Refs, Integrity, View, SameBytes, Exact, AllSeen;
    InvParts(c, st);
    ResizeStep(c, st, h, newSize);
    SameBytesSeen(c, seen, st, Ftruncate(st, h, newSize).0);
    ResizedReady(st, Ftruncate(st, h, newSize).0, h, newSize, ns);
  }
}
