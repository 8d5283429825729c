/**
 Each block operation through a handle that may use the block, from lookup to bookkeeping: it succeeds, keeps the
 invariant, and does to the sparse map of blocks what its name says. Where the source falls short of
 that, the exact condition is stated.
 */
module StoreSteps {
  import opened Basics
  import opened Bytes
  import opened StoreModel
  import opened StoreIntegrity
  import opened StoreExact

  /** Blocks of a well-kept store are whole blocks. */
  lemma BlocksAreSized(c: Config, st: Store, k: Key)
    requires Inv(c, st)
    ensures |BlockAt(c, View(st), k)| == c.blockSize
    ensures k in st.fileBlocks ==> Stored(st, RowOf(st, k)) && View(st).blocks[k] == Effective(st, RowOf(st, k))
  {
    hide Effective, Stored, RowOk, CachedOk, Refs;
    RowsAreStored(c, st);
  }

  /** Cache changes that keep bytes and counts keep everything. */
  lemma CacheOnlyStep(c: Config, st: Store, st': Store)
    requires Inv(c, st) && Integrity(c, st') && SameBytes(st, st')
    requires st' == st.(cache := st'.cache) && st'.cache.Keys == st.cache.Keys
    requires forall s :: s in st.cache ==> st'.cache[s].useCount == st.cache[s].useCount
    ensures Inv(c, st') && View(st') == View(st)
    ensures forall k :: k in st.fileBlocks ==> RowOf(st', k) == RowOf(st, k)
  {
    hide Effective, Stored, RowOk, CachedOk, Refs;
    RowsAreStored(c, st);
    SameView(st, st');
  }

  lemma NoCollisionStays(c: Config, st: Store, st': Store, data: Block)
    requires NoCollision(c, st, data) && SameBytes(st, st') && st'.rows == st.rows
    requires forall id :: id in st.rows ==> Stored(st, id)
    ensures NoCollision(c, st', data)
  {
    hide Effective, Stored;
  }

  // ---------- Writing ----------

  /** The block as it will be after writing `chunk` at `offset`. */
  ghost function NewBlock(c: Config, st: Store, k: Key, offset: int, chunk: seq<Byte>): Block
    requires Inv(c, st) && 0 <= offset && offset + |chunk| <= c.blockSize
  {
    BlocksAreSized(c, st, k);
    Splice(BlockAt(c, View(st), k), offset, chunk)
  }

  ghost predicate WriteAllowed(c: Config, st: Store, h: Handle, n: int, offset: int, chunk: seq<Byte>) {
    && Inv(c, st) && HandleOk(st, h) && Usable(st, h, n)
    && 0 <= n && n * c.blockSize < st.sizes[h.ino]
    && 0 <= offset && offset + |chunk| <= c.blockSize
    && NoCollision(c, st, NewBlock(c, st, Key(h.ino, n), offset, chunk))
  }

  /** Up to `_writeBlock`: the entry is ready and the bytes to be written are the spliced block. */
  lemma WritePrepared(c: Config, st: Store, h: Handle, n: int, offset: int, chunk: seq<Byte>, now: int)
    requires WriteAllowed(c, st, h, n, offset, chunk)
    ensures GetFileBlock(c, st, h, n, now).Done?
    ensures var (st1, h1) := GetFileBlock(c, st, h, n, now).value;
            && HandleOk(st1, h1) && DataSized(c, st1.cache)
            && var r := WriteBase(c, st1, h1.blocks[n], |chunk|, now);
            && r.Done?
            && WriteReady(c, r.value.0, h1, n)
            && h1 == h.(blocks := h.blocks[n := FreshEntry(st, Key(h.ino, n)).(empty := MarkedEmpty(st, h, n))])
            && Splice(r.value.1, offset, chunk) == NewBlock(c, st, Key(h.ino, n), offset, chunk)
            && NoCollision(c, r.value.0, Splice(r.value.1, offset, chunk))
            && View(r.value.0) == View(st)
            && r.value.0 == st.(cache := r.value.0.cache) && st.cache.Keys <= r.value.0.cache.Keys
  {
    hide Effective, Stored, RowOk, CachedOk, Refs, LoadFileBlock, GetFileBlock, WriteBase, NoCollision, Placed, View;
    var k := Key(h.ino, n);
    UsableGet(c, st, h, n, now);
    var (st1, h1) := GetFileBlock(c, st, h, n, now).value;
    GetKeepsIntegrity(c, st, h, n, now);
    RowsAreStored(c, st1);
    RowsAreStored(c, st);
    var bi := h1.blocks[n];
    WriteBaseKeepsIntegrity(c, st1, bi, |chunk|, now);
    var (st2, base) := WriteBase(c, st1, bi, |chunk|, now).value;
    CacheOnlyStep(c, st1, st2);
    BlocksAreSized(c, st1, k);
    ZeroIsNoRow(c, st);
    if |chunk| == c.blockSize {
      assert Splice(base, offset, chunk) == chunk == NewBlock(c, st, k, offset, chunk);
    } else {
      SameEntry(c, st, st1, k);
      BaseIsBlock(c, st1, bi, k);
    }
    NoCollisionStays(c, st, st1, NewBlock(c, st, k, offset, chunk));
    NoCollisionStays(c, st1, st2, NewBlock(c, st, k, offset, chunk));
  }

  lemma BaseIsBlock(c: Config, st: Store, bi: BlockInfo, k: Key)
    requires Inv(c, st) && bi == FreshEntry(st, k).(empty := bi.empty) && 0 !in st.rows
    ensures bi.attached ==> Stored(st, bi.storageBlockNum) && bi.storageBlockNum != 0
    ensures BlockAt(c, View(st), k) == if bi.attached then Effective(st, bi.storageBlockNum) else Zeros(c.blockSize)
  {
    hide Effective, Stored, RowOk, CachedOk, Refs;
    BlocksAreSized(c, st, k);
  }

  /** The other blocks of all files have the same rows as before. */
  ghost predicate OthersStay(st: Store, st': Store, k: Key) {
    && (forall k' :: k' in st.fileBlocks && k' != k ==>
         && k' in st'.fileBlocks && st'.fileBlocks[k'] == st.fileBlocks[k']
         && FindRow(st'.rows, st'.fileBlocks[k']) == FindRow(st.rows, st.fileBlocks[k']))
    && (forall k' :: k' in st'.fileBlocks && k' != k ==> k' in st.fileBlocks)
    && st.cache.Keys <= st'.cache.Keys
  }

  /** The handle has at most the entry for block `n` changed. */
  ghost predicate EntriesStay(h: Handle, h': Handle, n: int) {
    && h'.ino == h.ino
    && forall m :: m != n ==> (m in h'.blocks <==> m in h.blocks) && (m in h.blocks ==> h'.blocks[m] == h.blocks[m])
  }

  /** A step on one block leaves a handle able to use the others. */
  lemma UsableStays(st: Store, st': Store, h: Handle, h': Handle, n: int, m: int)
    requires OthersStay(st, st', Key(h.ino, n)) && EntriesStay(h, h', n) && Current(st', h')
    requires m != n && Usable(st, h, m)
    ensures Usable(st', h', m)
  {
    hide FindRow;
  }

  /**
   A chunk written through a handle that may use the block changes that range of that block and no other
   byte of any file. The counts stay exact if and only if the block's hash changes or the block was a hole.
   */
  lemma WriteChunkStep(c: Config, st: Store, h: Handle, n: int, offset: int, chunk: seq<Byte>, now: int)
    requires WriteAllowed(c, st, h, n, offset, chunk) && DataSized(c, st.cache)
    ensures var r := WriteChunk(c, st, h, n, offset, chunk, now);
            var k := Key(h.ino, n);
            var data := NewBlock(c, st, k, offset, chunk);
            && r.Done?
            && View(r.value.0) == View(st).(blocks := View(st).blocks[k := data])
            && (Inv(c, r.value.0) <==> !(k in st.fileBlocks && st.fileBlocks[k] == c.hash(data)))
            && Integrity(c, r.value.0) && HandleOk(r.value.0, r.value.1)
            && r.value.1.ino == h.ino && r.value.1.size == h.size && r.value.1.blocks.Keys == h.blocks.Keys + {n}
            && st.rows.Keys <= r.value.0.rows.Keys && st.cache.Keys <= r.value.0.cache.Keys
            && OthersStay(st, r.value.0, k) && EntriesStay(h, r.value.1, n)
  {
    hide GetFileBlock, WriteBase, NoCollision, View, WriteBlock, FreshEntry, Integrity, Exact, Placed, Splice, Usable, MarkedEmpty,
         ViewAfterWrite, OthersStay, EntriesStay, Effective, Stored;
    var k := Key(h.ino, n);
    WritePrepared(c, st, h, n, offset, chunk, now);
    var (st1, h1) := GetFileBlock(c, st, h, n, now).value;
    var (st2, base) := WriteBase(c, st1, h1.blocks[n], |chunk|, now).value;
    var data := Splice(base, offset, chunk);
    BlocksAreSized(c, st, k);
    InvParts(c, st2);
    WriteBlockView(c, st2, h1, n, data, now);
    WriteBlockCounts(c, st2, h1, n, data, now);
    WriteBlockKeepsIntegrity(c, st2, h1, n, data, now);
    WriteLeavesOthers(c, st, st2, h, h1, n, data, now);
  }

  /** What a block write leaves alone, seen from before the lookup. */
  lemma WriteLeavesOthers(
      c: Config, st: Store, st2: Store, h: Handle, h1: Handle, n: int, data: Block, now: int)
    requires st2 == st.(cache := st2.cache) && st.cache.Keys <= st2.cache.Keys
    requires n in h1.blocks && EntryOk(st2, h1.blocks[n]) && h1 == h.(blocks := h.blocks[n := h1.blocks[n]])
    ensures var (st', h') := WriteBlock(c, st2, h1, n, data, now);
            ViewAfterWrite(st2, st', Key(h.ino, n), data) && st2.cache.Keys <= st'.cache.Keys ==>
              && OthersStay(st, st', Key(h.ino, n)) && EntriesStay(h, h', n)
              && h'.ino == h.ino && h'.size == h.size && h'.blocks.Keys == h.blocks.Keys + {n}
  {
    hide BytesOf, WriteBlock, FindRow;
    WriteBlockHandle(c, st2, h1, n, data, now);
  }

  lemma WriteBlockHandle(c: Config, st: Store, h: Handle, n: int, data: Block, now: int)
    requires n in h.blocks && EntryOk(st, h.blocks[n])
    ensures var h' := WriteBlock(c, st, h, n, data, now).1;
            && h' == h.(blocks := h.blocks[n := h'.blocks[n]])
            && h'.blocks[n].empty == h.blocks[n].empty
            && h'.blocks[n].attached == FindRow(st.rows, c.hash(data)).None?
  {
    hide BumpCached, BumpRows, StoreCount, Dereferenced;
  }

  // ---------- Reading ----------

  /** The part of a read after the lookup, for an attached entry: touch, read in, copy out. */
  lemma ReadAttached(c: Config, st: Store, s: int, now: int)
    requires Inv(c, st) && s in st.cache && s != 0 && Stored(st, s)
    ensures var r := Populate(c, Touch(st, s, now), s);
            && r.Done? && Inv(c, r.value) && View(r.value) == View(st)
            && r.value == st.(cache := r.value.cache) && r.value.cache.Keys == st.cache.Keys
            && r.value.cache[s].data == Effective(st, s)
  {
    hide Stored, RowOk, CachedOk, Refs, Populate, View, Placed, Exact;
    RecacheKeepsIntegrity(c, st, s, st.cache[s].(atime := now)) by {
      InvParts(c, st);
    }
    var st2 := Touch(st, s, now);
    CacheOnlyStep(c, st, st2);
    PopulateKeepsIntegrity(c, st2, s) by {
      InvParts(c, st2);
    }
    CacheOnlyStep(c, st2, Populate(c, st2, s).value);
  }

  /**
   Reading through a handle that may use the block returns the bytes of the block, zeros for a hole, and
   changes no file. The handle may use the block again.
   */
  lemma ReadChunkStep(c: Config, st: Store, h: Handle, n: int, offset: int, len: int, now: int)
    requires Inv(c, st) && HandleOk(st, h) && Usable(st, h, n) && DataSized(c, st.cache)
    requires 0 <= offset && 0 <= len && offset + len <= c.blockSize
    ensures |BlockAt(c, View(st), Key(h.ino, n))| == c.blockSize
    ensures var r := ReadChunk(c, st, h, n, offset, len, now);
            && r.Done? && Inv(c, r.value.0) && View(r.value.0) == View(st)
            && r.value.2 == BlockAt(c, View(st), Key(h.ino, n))[offset..offset + len]
            && HandleOk(r.value.0, r.value.1)
            && r.value.1.ino == h.ino && r.value.1.size == h.size && r.value.1.blocks.Keys == h.blocks.Keys + {n}
            && st.rows.Keys <= r.value.0.rows.Keys && st.cache.Keys <= r.value.0.cache.Keys
            && OthersStay(st, r.value.0, Key(h.ino, n)) && EntriesStay(h, r.value.1, n)
            && Usable(r.value.0, r.value.1, n)
  {
    hide Effective, Stored, RowOk, CachedOk, Refs, LoadFileBlock, GetFileBlock, Populate, View, Integrity, Exact, Placed,
         OthersStay, EntriesStay, Usable, FreshEntry;
    ReadLeavesEntries(c, st, h, n, offset, len, now);
    var k := Key(h.ino, n);
    UsableGet(c, st, h, n, now);
    var (st1, h1) := GetFileBlock(c, st, h, n, now).value;
    InvParts(c, st);
    ZeroIsNoRow(c, st);
    BlocksAreSized(c, st, k);
    SameEntry(c, st, st1, k);
    BaseIsBlock(c, st1, h1.blocks[n], k);
    var s := h1.blocks[n].storageBlockNum;
    if h1.blocks[n].attached {
      ReadAttached(c, st1, s, now);
      var st3 := Populate(c, Touch(st1, s, now), s).value;
      assert st1.rows.Keys == st3.rows.Keys && st1.cache.Keys == st3.cache.Keys;
    }
    assert Zeros(c.blockSize)[offset..offset + len] == Zeros(len);
  }

  /** What a read leaves in tables and entries. */
  lemma ReadLeavesEntries(c: Config, st: Store, h: Handle, n: int, offset: int, len: int, now: int)
    requires Inv(c, st) && HandleOk(st, h) && Usable(st, h, n) && DataSized(c, st.cache)
    requires 0 <= offset && 0 <= len && offset + len <= c.blockSize
    ensures var r := ReadChunk(c, st, h, n, offset, len, now);
            r.Done? ==> OthersStay(st, r.value.0, Key(h.ino, n)) && EntriesStay(h, r.value.1, n) && Usable(r.value.0, r.value.1, n)
  {
    hide LoadFileBlock, GetFileBlock, Populate, View, Integrity, Placed, FindRow, Effective, Stored, Refs;
    UsableGet(c, st, h, n, now);
    if ReadChunk(c, st, h, n, offset, len, now).Done? {
      PopulateKeepsTables(c, st, h, n, offset, len, now);
    }
  }

  lemma PopulateKeepsTables(c: Config, st: Store, h: Handle, n: int, offset: int, len: int, now: int)
    requires HandleOk(st, h) && DataSized(c, st.cache) && 0 <= offset && 0 <= len && offset + len <= c.blockSize
    requires ReadChunk(c, st, h, n, offset, len, now).Done?
    ensures GetFileBlock(c, st, h, n, now).Done?
    ensures var (st1, h1) := GetFileBlock(c, st, h, n, now).value;
            var r := ReadChunk(c, st, h, n, offset, len, now).value;
            r.0 == st1.(cache := r.0.cache) && r.0.cache.Keys == st1.cache.Keys && r.1 == h1
  {
    hide GetFileBlock;
  }

  lemma SameEntry(c: Config, st: Store, st': Store, k: Key)
    requires Inv(c, st) && Inv(c, st') && st' == st.(cache := st'.cache)
    ensures FreshEntry(st', k) == FreshEntry(st, k)
  {
  }

  // ---------- Releasing a block ----------

  /**
   Through a handle whose entry is right or not there a release succeeds if and only if the block is
   allocated: for a hole the source dereferences a null hash.
   */
  lemma ReleaseOutcome(c: Config, st: Store, h: Handle, n: int)
    requires Inv(c, st) && Named(st, h, n)
    ensures ReleaseBlock(c, st, h, n).Done? <==> Key(h.ino, n) in st.fileBlocks
  {
    hide Refs, Integrity, BumpRows, BumpCached;
  }

  /** The reference of block `k` is gone from tables and cache, and every other is still there. */
  ghost predicate Released(st: Store, st': Store, k: Key)
    requires k in st.fileBlocks && FindRow(st.rows, st.fileBlocks[k]).Some?
  {
    && st'.fileBlocks == st.fileBlocks - {k} && st'.sizes == st.sizes
    && st'.rows.Keys == st.rows.Keys && st'.cache.Keys == st.cache.Keys
    && (forall a :: a in st.rows ==>
         st'.rows[a].hash == st.rows[a].hash
         && st'.rows[a].useCount == st.rows[a].useCount - (if a == RowOf(st, k) then 1 else 0))
    && (forall s :: s in st.cache ==>
         st'.cache[s].useCount == st.cache[s].useCount - (if s == RowOf(st, k) then 1 else 0))
  }

  /** The tables and the cache after a release: one reference less, counted in both. */
  lemma ReleaseEffect(c: Config, st: Store, h: Handle, n: int)
    requires Inv(c, st) && Named(st, h, n) && Key(h.ino, n) in st.fileBlocks
    ensures ReleaseBlock(c, st, h, n).Done?
    ensures var (st', h') := ReleaseBlock(c, st, h, n).value;
            h' == h.(blocks := h.blocks - {n}) && Released(st, st', Key(h.ino, n))
  {
    hide Refs, RowOk, CachedOk, BumpCached;
    ZeroIsNoRow(c, st);
    HashesUnique(c, st);
    var k := Key(h.ino, n);
    forall a | a in st.rows
      ensures st.rows[a].hash == st.fileBlocks[k] <==> a == RowOf(st, k)
    {
    }
  }

  lemma ReleasedOthers(st: Store, st': Store, k: Key)
    requires UniqueHashes(st'.rows) && Exact(st) && k in st.fileBlocks && Released(st, st', k)
    ensures OthersStay(st, st', k)
    ensures forall k' :: k' in st'.fileBlocks ==> FindRow(st'.rows, st'.fileBlocks[k']) == FindRow(st.rows, st.fileBlocks[k'])
  {
    hide Refs, FindRow, UniqueHashes;
    forall k' | k' in st'.fileBlocks
      ensures FindRow(st'.rows, st'.fileBlocks[k']) == FindRow(st.rows, st.fileBlocks[k'])
    {
      FindsUniqueRow(st'.rows, RowOf(st, k'));
    }
  }

  lemma ReleasedCounts(c: Config, st: Store, st': Store, k: Key)
    requires UniqueHashes(st.rows) && UniqueHashes(st'.rows) && Exact(st) && Placed(c, st)
    requires k in st.fileBlocks && Released(st, st', k)
    ensures Exact(st') && Placed(c, st')
  {
    hide Refs, FindRow, UniqueHashes;
    ReleasedOthers(st, st', k);
    forall a | a in st'.rows
      ensures st'.rows[a].useCount == Refs(st'.fileBlocks, st'.rows[a].hash)
    {
      RefsAfterDrop(st.fileBlocks, k, st.rows[a].hash);
      RowOfHash(st, k, a);
    }
  }

  /** A release removes that block from the file, changes nothing else, and keeps every count exact. */
  lemma ReleaseStep(c: Config, st: Store, h: Handle, n: int)
    requires Inv(c, st) && HandleOk(st, h) && Named(st, h, n) && Key(h.ino, n) in st.fileBlocks
    ensures ReleaseBlock(c, st, h, n).Done?
    ensures var (st', h') := ReleaseBlock(c, st, h, n).value;
            && Inv(c, st') && View(st') == View(st).(blocks := View(st).blocks - {Key(h.ino, n)})
            && h' == h.(blocks := h.blocks - {n}) && HandleOk(st', h')
            && SameBytes(st, st') && st'.rows.Keys == st.rows.Keys && st'.cache.Keys == st.cache.Keys
            && OthersStay(st, st', Key(h.ino, n)) && EntriesStay(h, h', n)
  {
    hide Integrity, Placed, Stored, Effective, ReleaseBlock, FindRow, LoadFileBlock, Named, OthersStay, Exact;
    var k := Key(h.ino, n);
    InvParts(c, st);
    ReleaseEffect(c, st, h, n);
    ReleaseKeepsIntegrity(c, st, h, n);
    var (st', h') := ReleaseBlock(c, st, h, n).value;
    HashesUnique(c, st);
    HashesUnique(c, st');
    ReleasedOthers(st, st', k);
    ReleasedCounts(c, st, st', k);
    ReleasedView(c, st, st', k);
  }

  lemma ReleasedView(c: Config, st: Store, st': Store, k: Key)
    requires Integrity(c, st) && Integrity(c, st') && Exact(st) && SameBytes(st, st')
    requires k in st.fileBlocks && Released(st, st', k)
    ensures View(st') == View(st).(blocks := View(st).blocks - {k})
  {
    hide Integrity, Stored, Effective, FindRow, Refs;
    RowsAreStored(c, st);
    HashesUnique(c, st');
    ReleasedOthers(st, st', k);
    assert View(st').blocks == View(st).blocks - {k};
  }

  lemma RowOfHash(st: Store, k: Key, a: int)
    requires UniqueHashes(st.rows) && k in st.fileBlocks && FindRow(st.rows, st.fileBlocks[k]).Some? && a in st.rows
    ensures st.rows[a].hash == st.fileBlocks[k] <==> a == RowOf(st, k)
  {
  }

  // ---------- Changing a size ----------

  lemma SizesKeepIntegrity(c: Config, st: Store, sizes: map<FileId, int>)
    requires Integrity(c, st)
    ensures Integrity(c, st.(sizes := sizes)) && SameBytes(st, st.(sizes := sizes))
  {
    var st' := st.(sizes := sizes);
    forall id | id in st'.rows
      ensures RowOk(c, st', id)
    {
      assert RowOk(c, st, id);
    }
    forall s | s in st'.cache
      ensures CachedOk(c, st', s)
    {
      assert CachedOk(c, st, s);
    }
  }

  lemma SizesView(st: Store, sizes: map<FileId, int>)
    requires SameBytes(st, st.(sizes := sizes)) && forall id :: id in st.rows ==> Stored(st, id)
    ensures View(st.(sizes := sizes)) == View(st).(sizes := sizes)
  {
    assert View(st.(sizes := sizes)).blocks == View(st).blocks;
  }

  /** Sizes that cover every block may change freely. */
  lemma SizesStep(c: Config, st: Store, sizes: map<FileId, int>)
    requires Inv(c, st)
    requires forall f :: f in sizes ==> sizes[f] >= 0
    requires forall k :: k in st.fileBlocks ==> k.file in sizes && k.offset * c.blockSize < sizes[k.file]
    ensures var st' := st.(sizes := sizes);
            Inv(c, st') && View(st') == View(st).(sizes := sizes) && SameBytes(st, st')
  {
    hide Refs, Integrity, View, SameBytes, Stored;
    SizesKeepIntegrity(c, st, sizes);
    RowsAreStored(c, st);
    SizesView(st, sizes);
  }

  /** A size that still covers every block of the file only changes the size. */
  lemma ResizeStep(c: Config, st: Store, h: Handle, newSize: int)
    requires Inv(c, st) && HandleOk(st, h) && h.ino in st.sizes && h.size == st.sizes[h.ino] && newSize >= 0
    requires forall k :: k in st.fileBlocks && k.file == h.ino ==> k.offset * c.blockSize < newSize
    ensures var (st', h') := Ftruncate(st, h, newSize);
            && Inv(c, st') && View(st') == View(st).(sizes := st.sizes[h.ino := newSize])
            && h' == h.(size := newSize) && HandleOk(st', h')
            && SameBytes(st, st') && st' == st.(sizes := st'.sizes)
  {
    hide Refs, Integrity, View, SameBytes, Exact;
    var sizes := st.sizes[h.ino := newSize];
    SizesStep(c, st, sizes);
    if h.size == newSize {
      assert sizes == st.sizes;
    }
  }

  // ---------- A pass of the writer ----------

  /** Flushing everything and forgetting any blocks is invisible in every file. */
  lemma PassStep(c: Config, st: Store, evicted: set<int>)
    requires Inv(c, st)
    ensures var st' := Evict(FlushAll(st), evicted);
            && Inv(c, st') && View(st') == View(st) && SameBytes(st, st') && st'.rows == st.rows
            && (forall s :: s in st'.cache ==> !st'.cache[s].dirty)
  {
    hide Integrity, Exact, Placed, SameBytes, View, FlushAll, Evict;
    InvParts(c, st);
    FlushKeepsIntegrity(c, st);
    EvictKeepsIntegrity(c, FlushAll(st), evicted);
    PassKeepsTables(c, st, evicted);
    SameBytesTwice(st, FlushAll(st), Evict(FlushAll(st), evicted));
    RowsAreStored(c, st);
    SameView(st, Evict(FlushAll(st), evicted));
  }

  lemma PassKeepsTables(c: Config, st: Store, evicted: set<int>)
    requires Exact(st) && Placed(c, st)
    ensures var st' := Evict(FlushAll(st), evicted);
            && Exact(st') && Placed(c, st')
            && st'.sizes == st.sizes && st'.fileBlocks == st.fileBlocks && st'.rows == st.rows
            && (forall s :: s in st'.cache ==> !st'.cache[s].dirty)
  {
    hide Refs, FindRow;
  }

  lemma SameBytesTwice(a: Store, b: Store, d: Store)
    requires SameBytes(a, b) && SameBytes(b, d)
    ensures SameBytes(a, d)
  {
    hide Stored, Effective;
  }

  // ---------- Reused handles ----------

  /** What a write through a handle leaves in its block table, and the row the block then has. */
  lemma WriteLeavesEntry(c: Config, st: Store, h: Handle, n: int, data: Block, now: int)
    requires WriteReady(c, st, h, n) && |data| == c.blockSize
    ensures var k := Key(h.ino, n);
            var (st', h') := WriteBlock(c, st, h, n, data, now);
            && k in st'.fileBlocks && FindRow(st'.rows, st'.fileBlocks[k]) == Some(h'.blocks[n].storageBlockNum)
            && h'.blocks[n].empty == h.blocks[n].empty && h'.blocks[n].hash == Some(st'.fileBlocks[k])
            && (h'.blocks[n].attached <==> FindRow(st.rows, c.hash(data)).None?)
  {
    hide Refs, BumpCached, BumpRows, StoreCount, Dereferenced, RowOk, CachedOk, Effective, Stored;
    WriteBlockHandle(c, st, h, n, data, now);
    WriteBlockKeepsIntegrity(c, st, h, n, data, now);
    var (st', h') := WriteBlock(c, st, h, n, data, now);
    HashesUnique(c, st');
    NextIdIsNew(c, st);
    FindsUniqueRow(st'.rows, h'.blocks[n].storageBlockNum);
  }

  /**
   A second look through the handle that wrote the block: it finds the block's bytes if and only if the
   entry is not both marked empty and detached, or the bytes are zeros anyway. The entry of a hole that was filled
   is marked empty; it is detached when some row had the block already, or once its row is evicted.
   */
  lemma RereadOutcome(c: Config, st: Store, h: Handle, n: int, now: int)
    requires Integrity(c, st) && HandleOk(st, h) && DataSized(c, st.cache)
    requires n in h.blocks && Key(h.ino, n) in st.fileBlocks
    requires FindRow(st.rows, st.fileBlocks[Key(h.ino, n)]) == Some(h.blocks[n].storageBlockNum)
    ensures var r := ReadChunk(c, st, h, n, 0, c.blockSize, now);
            var bi := h.blocks[n];
            && r.Done?
            && (r.value.2 == BytesOf(st, Key(h.ino, n)) <==>
                 !(bi.empty && !bi.attached) || BytesOf(st, Key(h.ino, n)) == Zeros(c.blockSize))
  {
    hide Refs, RowOk, CachedOk, Effective, Stored, Populate;
    var bi := h.blocks[n];
    var s := bi.storageBlockNum;
    RowsAreStored(c, st);
    ZeroIsNoRow(c, st);
    GetKeepsIntegrity(c, st, h, n, now);
    var (st1, h1) := GetFileBlock(c, st, h, n, now).value;
    if h1.blocks[n].attached {
      assert CachedOk(c, st1, s);
      RecacheKeepsIntegrity(c, st1, s, st1.cache[s].(atime := now));
      PopulateKeepsIntegrity(c, Touch(st1, s, now), s);
      var d := Effective(st, s);
      assert d[0..c.blockSize] == d;
    }
  }
}
