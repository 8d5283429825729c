/**
 Handles that use a block again: when contents stay right, when counts do, and when neither.
 */
module StoreReuse {
  import opened Basics
  import opened Bytes
  import opened StoreModel
  import opened StoreIntegrity
  import opened StoreExact
  import opened StoreSteps
  import opened StoreCounts

  // ---------- Looking a block up again ----------

  /** The block has that hash already. */
  predicate SameHash(st: Store, k: Key, hash: Digest) {
    k in st.fileBlocks && st.fileBlocks[k] == hash
  }

  /**
   Looking up a block the handle knows keeps the counts exact if and only if the entry counts as empty, its
   pointer is alive, or the block is cached: else the block is cached anew with a count of 0.
   */
  lemma RelookupCounts(c: Config, st: Store, h: Handle, n: int, now: int)
    requires Exact(st) && n in h.blocks && GetFileBlock(c, st, h, n, now).Done?
    ensures var bi := h.blocks[n];
            var s := bi.storageBlockNum;
            Exact(GetFileBlock(c, st, h, n, now).value.0) <==>
              bi.empty || bi.attached || s in st.cache || (s in st.rows && st.rows[s].useCount == 0)
  {
    hide Refs, Integrity, Placed, LoadFileBlock;
  }

  /** A lookup through an entry that names the row of its block always succeeds, and changes the cache alone. */
  lemma Relookup(c: Config, st: Store, h: Handle, n: int, now: int)
    requires Integrity(c, st) && HandleOk(st, h) && n in h.blocks && h.blocks[n].storageBlockNum in st.rows
    ensures var r := GetFileBlock(c, st, h, n, now);
            var bi := h.blocks[n];
            var s := bi.storageBlockNum;
            && r.Done? && Integrity(c, r.value.0) && HandleOk(r.value.0, r.value.1) && SameBytes(st, r.value.0)
            && r.value.1 == h.(blocks := h.blocks[n := bi.(attached := bi.attached || !bi.empty)])
            && r.value.0 == st.(cache := r.value.0.cache) && st.cache.Keys <= r.value.0.cache.Keys
            && (forall t :: t in st.cache ==> r.value.0.cache[t] == st.cache[t])
            && (s !in st.cache && s in r.value.0.cache ==> r.value.0.cache[s].useCount == 0)
  {
    hide Integrity, LoadFileBlock;
    GetKeepsIntegrity(c, st, h, n, now);
  }

  /**
   After a lookup through a handle that knows the block, every handle that does not know a block of that row can look
   it up if and only if the first entry counts as empty, its pointer was alive, or the block was cached: else
   the assertion that the counts agree fails.
   */
  lemma NextLookup(c: Config, st: Store, h: Handle, n: int, g: Handle, m: int, now: int, later: int)
    requires Inv(c, st) && HandleOk(st, h) && Names(st, h, n)
    requires Current(st, g) && m !in g.blocks && SameHash(st, Key(g.ino, m), st.fileBlocks[Key(h.ino, n)])
    ensures var r := GetFileBlock(c, st, h, n, now);
            var bi := h.blocks[n];
            && r.Done?
            && (GetFileBlock(c, r.value.0, g, m, later).Done? <==>
                 bi.empty || bi.attached || bi.storageBlockNum in st.cache)
  {
    hide Integrity, Refs;
    var s := h.blocks[n].storageBlockNum;
    Relookup(c, st, h, n, now);
    ReferredRowCounts(st, Key(g.ino, m));
  }

  // ---------- Using a block again ----------

  /** After a write the handle may use the block again if its pointer is alive, or can be set again. */
  lemma UsableAfterWrite(c: Config, st: Store, h: Handle, n: int, data: Block, now: int)
    requires WriteReady(c, st, h, n) && Current(st, h) && |data| == c.blockSize
    ensures var (st', h') := WriteBlock(c, st, h, n, data, now);
            Usable(st', h', n) <==>
              || FindRow(st.rows, c.hash(data)).None?
              || (!h.blocks[n].empty && FindRow(st.rows, c.hash(data)).value in st.cache)
  {
    hide FindRow, Inv, FreshEntry;
    WriteLeavesEntry(c, st, h, n, data, now);
    WriteBlockTables(c, st, h, n, data, now);
    hide WriteBlock;
  }

  lemma WriteBlockTables(c: Config, st: Store, h: Handle, n: int, data: Block, now: int)
    requires n in h.blocks && EntryOk(st, h.blocks[n])
    ensures var (st', h') := WriteBlock(c, st, h, n, data, now);
            && st'.sizes == st.sizes && st'.fileBlocks == st.fileBlocks[Key(h.ino, n) := c.hash(data)]
            && h'.ino == h.ino && h'.size == h.size && h'.blocks.Keys == h.blocks.Keys + {n}
    ensures var r := FindRow(st.rows, c.hash(data));
            var (st', h') := WriteBlock(c, st, h, n, data, now);
            r.Some? ==> h'.blocks[n].storageBlockNum == r.value && st'.cache.Keys == st.cache.Keys
  {
    hide BumpCached, BumpRows, StoreCount, Dereferenced, FindRow;
  }

  /** After a pass the handle may use those blocks again that were not evicted, and holes. */
  lemma UsableAfterPass(st: Store, h: Handle, n: int, evicted: set<int>)
    requires Usable(st, h, n)
    ensures var k := Key(h.ino, n);
            Usable(Evict(FlushAll(st), evicted), Expire(h, evicted), n) <==>
              !(n in h.blocks && k in st.fileBlocks && h.blocks[n].storageBlockNum in evicted)
  {
    hide FindRow;
    var st', h' := Evict(FlushAll(st), evicted), Expire(h, evicted);
    assert st'.cache.Keys == st.cache.Keys - evicted;
  }

  /**
   Reading a block again through an entry that names its row: the bytes come back and the counts stay exact
   if and only if the handle may use the block, or its entry counts as empty and the block is zeros anyway.
   */
  lemma RereadExact(c: Config, st: Store, h: Handle, n: int, now: int)
    requires Inv(c, st) && HandleOk(st, h) && DataSized(c, st.cache) && Named(st, h, n)
    requires n in h.blocks && Key(h.ino, n) in st.fileBlocks
    ensures var k := Key(h.ino, n);
            var r := ReadChunk(c, st, h, n, 0, c.blockSize, now);
            && r.Done?
            && (r.value.2 == BytesOf(st, k) && Exact(r.value.0) <==>
                 Usable(st, h, n) || (h.blocks[n].empty && BytesOf(st, k) == Zeros(c.blockSize)))
  {
    hide Integrity, Placed, BytesOf, FindRow, Refs;
    var k := Key(h.ino, n);
    var s := h.blocks[n].storageBlockNum;
    InvParts(c, st);
    RereadOutcome(c, st, h, n, now);
    RelookupCounts(c, st, h, n, now) by {
      Relookup(c, st, h, n, now);
    }
    assert st.rows[s].useCount > 0 by {
      ReferredRowCounts(st, k);
    }
    PopulateKeepsTables(c, st, h, n, 0, c.blockSize, now);
    ReadKeepsCounts(c, st, h, n, 0, c.blockSize, now);
  }

  lemma ReferredRowCounts(st: Store, k: Key)
    requires Exact(st) && k in st.fileBlocks
    ensures st.rows[RowOf(st, k)].useCount > 0
  {
    assert k in RefSet(st.fileBlocks, st.fileBlocks[k]);
  }

  /** After the lookup a read leaves all counts alone. */
  lemma ReadKeepsCounts(c: Config, st: Store, h: Handle, n: int, offset: int, len: int, now: int)
    requires HandleOk(st, h) && DataSized(c, st.cache) && 0 <= offset && 0 <= len && offset + len <= c.blockSize
    requires ReadChunk(c, st, h, n, offset, len, now).Done?
    ensures GetFileBlock(c, st, h, n, now).Done?
    ensures Exact(ReadChunk(c, st, h, n, offset, len, now).value.0) <==> Exact(GetFileBlock(c, st, h, n, now).value.0)
  {
    hide GetFileBlock, Refs, FindRow;
    var (st1, h1) := GetFileBlock(c, st, h, n, now).value;
    var st' := ReadChunk(c, st, h, n, offset, len, now).value.0;
    assert forall s :: s in st1.cache ==> s in st'.cache && st'.cache[s].useCount == st1.cache[s].useCount;
  }

  /**
   Reading a block again leaves the counts exact if and only if they were exact, and the lookup need not cache the
   block anew or treats it as a hole.
   */
  lemma CountsAfterReread(c: Config, st: Store, h: Handle, n: int, offset: int, len: int, now: int)
    requires HandleOk(st, h) && DataSized(c, st.cache) && 0 <= offset && 0 <= len && offset + len <= c.blockSize
    requires Names(st, h, n) && ExactBut(st, h.blocks[n].storageBlockNum)
    requires ReadChunk(c, st, h, n, offset, len, now).Done?
    ensures var bi := h.blocks[n];
            Exact(ReadChunk(c, st, h, n, offset, len, now).value.0) <==>
              Exact(st) && (bi.empty || bi.attached || bi.storageBlockNum in st.cache)
  {
    hide ReadChunk, Refs, FindRow, AllFound;
    var s := h.blocks[n].storageBlockNum;
    ReadKeepsCounts(c, st, h, n, offset, len, now);
    ExactIsExactBut(st, s);
    Referred(st, Key(h.ino, n));
    if Exact(st) {
      RelookupCounts(c, st, h, n, now);
    }
  }

  // ---------- Writing a block again ----------

  /** After a write through a ready entry, a cached block of that hash counts its references. */
  lemma CountAfterWrite(c: Config, st: Store, h: Handle, n: int, data: Block, now: int)
    requires WriteReady(c, st, h, n) && |data| == c.blockSize
    ensures var (st', h') := WriteBlock(c, st, h, n, data, now);
            var s := h'.blocks[n].storageBlockNum;
            s in st'.cache ==> st'.cache[s].useCount == Refs(st'.fileBlocks, c.hash(data))
  {
    hide Refs, Integrity, Placed, Share, Overwrite, Allocate, PutData;
    var k := Key(h.ino, n);
    WriteBlockCounts(c, st, h, n, data, now);
    WriteLeavesEntry(c, st, h, n, data, now);
    WriteBlockTables(c, st, h, n, data, now);
    if k in st.fileBlocks && st.fileBlocks[k] == c.hash(data) {
      assert FindRow(st.rows, c.hash(data)).Some?;
      var id := FindRow(st.rows, c.hash(data)).value;
      WriteBlockShares(c, st, h, n, data, now, id);
      ShareCounts(c, st, h, n, c.hash(data), id);
    }
    hide WriteBlock;
  }

  /** What a chunk makes of the block when the entry is used as it is: of its bytes, or of zeros. */
  function Rewritten(c: Config, data: Block, lost: bool, offset: int, chunk: seq<Byte>): Block
    requires |data| == c.blockSize && 0 <= offset && offset + |chunk| <= c.blockSize
  {
    Splice(if lost then Zeros(c.blockSize) else data, offset, chunk)
  }

  /** A step that changes the cache alone, and no bytes. */
  lemma RelinkedCache(c: Config, st: Store, st': Store)
    requires Linked(c, st) && Integrity(c, st') && SameBytes(st, st') && st' == st.(cache := st'.cache)
    ensures Linked(c, st') && forall id :: id in st.rows ==> Stored(st, id)
    ensures forall k :: k in st.fileBlocks ==> BytesOf(st', k) == BytesOf(st, k)
  {
    hide Integrity, Stored, Effective;
    RowsAreStored(c, st);
  }

  lemma RowBytes(st: Store, st': Store, k: Key)
    requires k in st.fileBlocks && FindRow(st.rows, st.fileBlocks[k]).Some? && Stored(st, RowOf(st, k)) && SameBytes(st, st')
    ensures Stored(st', RowOf(st, k)) && Effective(st', RowOf(st, k)) == BytesOf(st, k)
  {
    hide Stored, Effective;
  }

  lemma SameViewAfterWrite(st: Store, st1: Store, st': Store, k: Key, data: Block)
    requires ViewAfterWrite(st1, st', k, data)
    requires st1.sizes == st.sizes && st1.fileBlocks == st.fileBlocks && st1.rows == st.rows
    requires forall k' :: k' in st.fileBlocks ==> BytesOf(st1, k') == BytesOf(st, k')
    ensures ViewAfterWrite(st, st', k, data)
  {
    hide BytesOf, FindRow;
  }

  lemma RewrittenBase(
      c: Config, st: Store, s: int, data: Block, attached: bool, base: Block, offset: int, chunk: seq<Byte>)
    requires |base| == |data| == c.blockSize && 0 <= offset && offset + |chunk| <= c.blockSize
    requires |chunk| < c.blockSize ==> base == if attached then data else Zeros(c.blockSize)
    ensures Splice(base, offset, chunk) == Rewritten(c, data, !attached, offset, chunk)
  {
    if |chunk| == c.blockSize {
      assert Splice(base, offset, chunk) == chunk;
      assert Rewritten(c, data, !attached, offset, chunk) == chunk;
    }
  }

  /** Up to `_writeBlock`: the lookup changes the cache alone, and the bytes to be written are known. */
  lemma RewritePrepared(
      c: Config, st: Store, h: Handle, n: int, data: Block, offset: int, chunk: seq<Byte>, now: int)
      returns (st2: Store, h1: Handle)
    requires Linked(c, st) && HandleOk(st, h) && DataSized(c, st.cache) && 0 <= offset && offset + |chunk| <= c.blockSize
    requires Names(st, h, n) && BytesOf(st, Key(h.ino, n)) == data && |data| == c.blockSize
    ensures var bi := h.blocks[n];
            && h1 == h.(blocks := h.blocks[n := bi.(attached := bi.attached || !bi.empty)])
            && Linked(c, st2) && HandleOk(st2, h1) && SameBytes(st, st2) && st2 == st.(cache := st2.cache)
            && (forall k :: k in st.fileBlocks ==> BytesOf(st2, k) == BytesOf(st, k))
            && (forall id :: id in st.rows ==> Stored(st, id))
            && WriteChunk(c, st, h, n, offset, chunk, now)
               == Done(WriteBlock(c, st2, h1, n, Rewritten(c, data, bi.empty && !bi.attached, offset, chunk), now))
    ensures var s := h.blocks[n].storageBlockNum;
            && st.cache.Keys <= st2.cache.Keys
            && (forall t :: t in st.cache ==> st2.cache[t].useCount == st.cache[t].useCount)
            && (forall t :: t in st2.cache ==> t in st.cache || t == s)
            && (s in st2.cache && s !in st.cache ==> st2.cache[s].useCount == 0 && h1.blocks[n].attached)
  {
    hide Integrity, BytesOf, GetFileBlock, WriteBase, WriteBlock, Splice, SameBytes, FindRow;
    var k := Key(h.ino, n);
    var bi := h.blocks[n];
    RowsAreStored(c, st);
    Relookup(c, st, h, n, now);
    RelookupCaches(c, st, h, n, now);
    var (st1, h') := GetFileBlock(c, st, h, n, now).value;
    h1 := h';
    RowsAreStored(c, st1);
    WriteBaseKeepsIntegrity(c, st1, h1.blocks[n], |chunk|, now);
    var (st'', base) := WriteBase(c, st1, h1.blocks[n], |chunk|, now).value;
    st2 := st'';
    ZeroIsNoRow(c, st);
    RowBytes(st, st1, k);
    RewrittenBase(c, st, bi.storageBlockNum, data, h1.blocks[n].attached, base, offset, chunk);
    RelinkedCache(c, st, st1);
    RelinkedCache(c, st1, st2);
    SameBytesTwice(st, st1, st2);
    HandlesStayOk(st1, st2, h1);
  }

  /** What a lookup through a known entry adds to the cache. */
  lemma RelookupCaches(c: Config, st: Store, h: Handle, n: int, now: int)
    requires n in h.blocks && GetFileBlock(c, st, h, n, now).Done?
    ensures var (st', h') := GetFileBlock(c, st, h, n, now).value;
            forall t :: t in st'.cache && t !in st.cache ==> t == h.blocks[n].storageBlockNum && h'.blocks[n].attached
  {
  }

  /**
   A write through an entry that names the row of its block, whatever its mark and its pointer: of the block's
   bytes, but of zeros when the entry counts as empty and has no pointer.
   */
  lemma RewriteStep(
      c: Config, st: Store, h: Handle, n: int, data: Block, offset: int, chunk: seq<Byte>, now: int)
    requires Linked(c, st) && HandleOk(st, h) && DataSized(c, st.cache) && 0 <= offset && offset + |chunk| <= c.blockSize
    requires Names(st, h, n) && BytesOf(st, Key(h.ino, n)) == data && |data| == c.blockSize
    requires var s := h.blocks[n].storageBlockNum;
             s in st.cache ==> st.cache[s].useCount == Refs(st.fileBlocks, st.fileBlocks[Key(h.ino, n)])
    requires NoCollision(c, st, Rewritten(c, data, h.blocks[n].empty && !h.blocks[n].attached, offset, chunk))
    ensures var r := WriteChunk(c, st, h, n, offset, chunk, now);
            && r.Done? && Linked(c, r.value.0)
            && ViewAfterWrite(st, r.value.0, Key(h.ino, n),
                              Rewritten(c, data, h.blocks[n].empty && !h.blocks[n].attached, offset, chunk))
  {
    hide Integrity, BytesOf, NoCollision, WriteBlock, WriteChunk, ViewAfterWrite, Refs, Rewritten, SameBytes;
    var k := Key(h.ino, n);
    var bi := h.blocks[n];
    var st2, h1 := RewritePrepared(c, st, h, n, data, offset, chunk, now);
    var data' := Rewritten(c, data, bi.empty && !bi.attached, offset, chunk);
    assert |data'| == c.blockSize by {
      RewrittenSize(c, data, bi.empty && !bi.attached, offset, chunk);
    }
    NoCollisionStays(c, st, st2, data');
    assert !HitsOthers(c, st2, h1, n, data') by {
      if h1.blocks[n].attached && st2.cache[bi.storageBlockNum].useCount == 1 {
        SoleReference(st2, k);
      }
    }
    LinkedWriteView(c, st2, h1, n, data', now);
    SameViewAfterWrite(st, st2, WriteBlock(c, st2, h1, n, data', now).0, k, data');
  }

  lemma RewrittenSize(c: Config, data: Block, lost: bool, offset: int, chunk: seq<Byte>)
    requires |data| == c.blockSize && 0 <= offset && offset + |chunk| <= c.blockSize
    ensures |Rewritten(c, data, lost, offset, chunk)| == c.blockSize
  {
  }

  /**
   The counts after a write through an entry that names the row of its block. With a pointer, or if it can be
   set, they are exact if and only if the cached count was and the hash changes. Without one the old row keeps
   a reference that nobody holds: the counts are exact only if that row was one too low before.
   */
  lemma RewriteCounts(
      c: Config, st: Store, h: Handle, n: int, data: Block, offset: int, chunk: seq<Byte>, now: int)
    requires Linked(c, st) && HandleOk(st, h) && DataSized(c, st.cache) && 0 <= offset && offset + |chunk| <= c.blockSize
    requires Names(st, h, n) && BytesOf(st, Key(h.ino, n)) == data && |data| == c.blockSize
    requires ExactBut(st, h.blocks[n].storageBlockNum)
    ensures var r := WriteChunk(c, st, h, n, offset, chunk, now);
            var bi := h.blocks[n];
            var s, was := bi.storageBlockNum, st.fileBlocks[Key(h.ino, n)];
            && r.Done?
            && (Exact(r.value.0) <==>
                 if bi.empty && !bi.attached then Counts(st, s, Refs(st.fileBlocks, was) - 1)
                 else s in st.cache && st.cache[s].useCount == Refs(st.fileBlocks, was)
                      && c.hash(Rewritten(c, data, false, offset, chunk)) != was)
  {
    hide Integrity, BytesOf, WriteBlock, WriteChunk, Refs, Rewritten, SameBytes, Exact;
    var k := Key(h.ino, n);
    var bi := h.blocks[n];
    var st2, h1 := RewritePrepared(c, st, h, n, data, offset, chunk, now);
    NamedWriteCounts(c, st2, h1, n, Rewritten(c, data, bi.empty && !bi.attached, offset, chunk), now);
    assert Refs(st.fileBlocks, st.fileBlocks[k]) > 0 by {
      Referred(st, k);
    }
  }

  lemma Referred(st: Store, k: Key)
    requires k in st.fileBlocks
    ensures Refs(st.fileBlocks, st.fileBlocks[k]) > 0
  {
    assert k in RefSet(st.fileBlocks, st.fileBlocks[k]);
  }

  /**
   A chunk written to an allocated block through an entry that names its row keeps exact counts exact if and
   only if the handle may use the block and the hash of the block changes.
   */
  lemma NamedChunkCounts(c: Config, st: Store, h: Handle, n: int, offset: int, chunk: seq<Byte>, now: int)
    requires Inv(c, st) && HandleOk(st, h) && DataSized(c, st.cache) && 0 <= offset && offset + |chunk| <= c.blockSize
    requires Named(st, h, n) && n in h.blocks && Key(h.ino, n) in st.fileBlocks
    ensures var r := WriteChunk(c, st, h, n, offset, chunk, now);
            var k := Key(h.ino, n);
            && r.Done?
            && (Exact(r.value.0) <==>
                 Usable(st, h, n) && c.hash(NewBlock(c, st, k, offset, chunk)) != st.fileBlocks[k])
  {
    hide Integrity, WriteChunk, Refs, Splice, Placed, Stored, Effective, FindRow;
    var k := Key(h.ino, n);
    InvParts(c, st);
    BlocksAreSized(c, st, k);
    assert Names(st, h, n);
    ExactIsExactBut(st, h.blocks[n].storageBlockNum);
    RewriteCounts(c, st, h, n, BytesOf(st, k), offset, chunk, now);
  }

  // ---------- Passes between two uses ----------

  /** What the writer thread does between two uses of a handle: nothing, or a pass that evicts some blocks. */
  function Between(st: Store, h: Handle, pass: Option<set<int>>): (Store, Handle) {
    match pass
    case None => (st, h)
    case Some(evicted) => (Evict(FlushAll(st), evicted), Expire(h, evicted))
  }

  predicate Forgotten(pass: Option<set<int>>, s: int) {
    pass.Some? && s in pass.value
  }

  /** A pass changes neither tables nor bytes nor counts; pointers to evicted blocks expire. */
  lemma BetweenKeeps(c: Config, st: Store, h: Handle, pass: Option<set<int>>)
    requires Linked(c, st) && HandleOk(st, h)
    ensures var (b, hb) := Between(st, h, pass);
            && Linked(c, b) && HandleOk(b, hb) && DataSized(c, b.cache) && SameBytes(st, b)
            && b.sizes == st.sizes && b.fileBlocks == st.fileBlocks && b.rows == st.rows
            && (forall id :: id in st.rows ==> Stored(st, id))
            && (forall k :: k in st.fileBlocks ==> BytesOf(b, k) == BytesOf(st, k))
            && (forall s :: s in b.cache <==> s in st.cache && !Forgotten(pass, s))
            && (forall s :: s in b.cache ==> b.cache[s].useCount == st.cache[s].useCount)
            && hb.ino == h.ino && hb.blocks.Keys == h.blocks.Keys
            && (forall n :: n in h.blocks ==>
                 hb.blocks[n] == h.blocks[n].(attached := h.blocks[n].attached && !Forgotten(pass, h.blocks[n].storageBlockNum)))
  {
    hide Integrity, Stored, Effective;
    RowsAreStored(c, st);
    if pass.Some? {
      FlushKeepsIntegrity(c, st);
      EvictKeepsIntegrity(c, FlushAll(st), pass.value);
      SameBytesTwice(st, FlushAll(st), Between(st, h, pass).0);
      ExpireKeepsHandles(FlushAll(st), h, pass.value);
      RowsAreStored(c, Between(st, h, pass).0);
    }
  }

  /** The counts after the first write: exact, but that its row is one too low if it had that hash before. */
  lemma CountsAfterWrite(c: Config, st: Store, h: Handle, n: int, data: Block, now: int)
    requires WriteReady(c, st, h, n) && |data| == c.blockSize
    ensures var k, hash := Key(h.ino, n), c.hash(data);
            var (st', h') := WriteBlock(c, st, h, n, data, now);
            && Names(st', h', n) && ExactBut(st', h'.blocks[n].storageBlockNum)
            && st'.rows[h'.blocks[n].storageBlockNum].useCount
               == Refs(st'.fileBlocks, hash) - (if k in st.fileBlocks && st.fileBlocks[k] == hash then 1 else 0)
  {
    hide Refs, Integrity, Placed, Share, Overwrite, Allocate, PutData, FindRow, WriteBlock;
    var k := Key(h.ino, n);
    var (st', h') := WriteBlock(c, st, h, n, data, now);
    WriteBlockCounts(c, st, h, n, data, now);
    WriteLeavesEntry(c, st, h, n, data, now);
    WriteBlockTables(c, st, h, n, data, now);
    if k in st.fileBlocks && st.fileBlocks[k] == c.hash(data) {
      SameHashCounts(c, st, h, n, data, now);
    } else {
      ExactIsExactBut(st', h'.blocks[n].storageBlockNum);
    }
  }

  lemma SameHashCounts(c: Config, st: Store, h: Handle, n: int, data: Block, now: int)
    requires WriteReady(c, st, h, n) && Key(h.ino, n) in st.fileBlocks && st.fileBlocks[Key(h.ino, n)] == c.hash(data)
    ensures var (st', h') := WriteBlock(c, st, h, n, data, now);
            var s := RowOf(st, Key(h.ino, n));
            && ExactBut(st', s) && s in st'.rows && st'.rows[s].useCount == Refs(st'.fileBlocks, c.hash(data)) - 1
  {
    hide Refs, Integrity, Placed, Share, BumpCached, UniqueHashes;
    var id := RowOf(st, Key(h.ino, n));
    InvParts(c, st);
    HashesUnique(c, st);
    ShareMoves(st, h, n, c.hash(data), id);
    ShareCounts(c, st, h, n, c.hash(data), id);
    WriteBlockShares(c, st, h, n, data, now, id);
    hide WriteBlock;
    var st' := WriteBlock(c, st, h, n, data, now).0;
    assert st'.fileBlocks == st.fileBlocks;
    forall k | k in st'.fileBlocks
      ensures FindRow(st'.rows, st'.fileBlocks[k]).Some?
    {
      assert RowOf(st, k) in st'.rows && st'.rows[RowOf(st, k)].hash == st'.fileBlocks[k];
    }
  }

  // ---------- Two writes to one block ----------

  /**
   The entry for block `n` counts as empty and has no pointer once `data` was written through it to row `s`: the
   pointer was not set because some row had that data already, or it expired because the row was evicted.
   */
  ghost predicate Lost(c: Config, st: Store, h: Handle, n: int, data: Block, pass: Option<set<int>>, s: int) {
    MarkedEmpty(st, h, n) && (FindRow(st.rows, c.hash(data)).Some? || Forgotten(pass, s))
  }

  /** What the first write leaves behind. */
  lemma FirstWrite(c: Config, st: Store, h: Handle, n: int, offset: int, chunk: seq<Byte>, now: int)
    requires WriteAllowed(c, st, h, n, offset, chunk) && DataSized(c, st.cache)
    ensures var k := Key(h.ino, n);
            var data := NewBlock(c, st, k, offset, chunk);
            var w := WriteChunk(c, st, h, n, offset, chunk, now);
            && |data| == c.blockSize && w.Done?
            && var (st', h') := w.value;
               && Linked(c, st') && HandleOk(st', h') && DataSized(c, st'.cache) && h'.ino == h.ino
               && Names(st', h', n) && st'.fileBlocks[k] == c.hash(data) && BytesOf(st', k) == data
               && ExactBut(st', h'.blocks[n].storageBlockNum)
               && st'.rows[h'.blocks[n].storageBlockNum].useCount
                  == Refs(st'.fileBlocks, c.hash(data)) - (if SameHash(st, k, c.hash(data)) then 1 else 0)
               && (h'.blocks[n].storageBlockNum in st'.cache ==>
                    st'.cache[h'.blocks[n].storageBlockNum].useCount == Refs(st'.fileBlocks, c.hash(data)))
               && h'.blocks[n].empty == MarkedEmpty(st, h, n)
               && (h'.blocks[n].attached <==> FindRow(st.rows, c.hash(data)).None?)
  {
    hide GetFileBlock, WriteBase, WriteBlock, Integrity, Placed, View, NoCollision, Splice, FindRow, BytesOf, Refs, MarkedEmpty,
         FreshEntry, ViewAfterWrite, Usable, OthersStay, EntriesStay, Linked, HitsOthers, ExactBut;
    var k := Key(h.ino, n);
    var data := NewBlock(c, st, k, offset, chunk);
    BlocksAreSized(c, st, k);
    WriteChunkStep(c, st, h, n, offset, chunk, now);
    WritePrepared(c, st, h, n, offset, chunk, now);
    var (st1, h1) := GetFileBlock(c, st, h, n, now).value;
    var (st2, base) := WriteBase(c, st1, h1.blocks[n], |chunk|, now).value;
    WriteLeavesEntry(c, st2, h1, n, data, now);
    CountAfterWrite(c, st2, h1, n, data, now);
    CountsAfterWrite(c, st2, h1, n, data, now);
    WriteBlockTables(c, st2, h1, n, data, now);
    ReadyIsSoleOwner(c, st2, h1, n, data);
    LinkedWriteView(c, st2, h1, n, data, now);
    var st' := WriteBlock(c, st2, h1, n, data, now).0;
    RowsAreStored(c, st');
    WrittenBytes(st2, st', k, data);
  }

  lemma WrittenBytes(st: Store, st': Store, k: Key, data: Block)
    requires ViewAfterWrite(st, st', k, data)
    ensures k in st'.fileBlocks && BytesOf(st', k) == data
  {
  }

  /** What the first write, and a pass after it, leave for the next use of the block. */
  lemma FirstWriteThenPass(
      c: Config, st: Store, h: Handle, n: int, offset: int, chunk: seq<Byte>, now: int, pass: Option<set<int>>)
      returns (s: int)
    requires WriteAllowed(c, st, h, n, offset, chunk) && DataSized(c, st.cache)
    ensures var k := Key(h.ino, n);
            var data := NewBlock(c, st, k, offset, chunk);
            var w := WriteChunk(c, st, h, n, offset, chunk, now);
            && |data| == c.blockSize && w.Done? && n in w.value.1.blocks && s == w.value.1.blocks[n].storageBlockNum
            && var (b, hb) := Between(w.value.0, w.value.1, pass);
               && Linked(c, b) && HandleOk(b, hb) && DataSized(c, b.cache) && hb.ino == h.ino
               && Names(b, hb, n) && hb.blocks[n].storageBlockNum == s && BytesOf(b, k) == data
               && b.fileBlocks[k] == c.hash(data) && ExactBut(b, s)
               && b.rows[s].useCount == Refs(b.fileBlocks, c.hash(data)) - (if SameHash(st, k, c.hash(data)) then 1 else 0)
               && (s in b.cache ==> b.cache[s].useCount == Refs(b.fileBlocks, c.hash(data)))
               && hb.blocks[n].empty == MarkedEmpty(st, h, n)
               && (hb.blocks[n].empty && !hb.blocks[n].attached <==> Lost(c, st, h, n, data, pass, s))
  {
    hide WriteChunk, Integrity, FindRow, BytesOf, Refs, MarkedEmpty, Between, SameBytes, Placed, Exact, Usable, NoCollision, NewBlock;
    FirstWrite(c, st, h, n, offset, chunk, now);
    var (st', h') := WriteChunk(c, st, h, n, offset, chunk, now).value;
    s := h'.blocks[n].storageBlockNum;
    BetweenKeeps(c, st', h', pass);
  }

  /**
   Two chunks written to one block through one handle, with or without a pass of the writer in between. Both are in
   the block afterwards if and only if the first did not leave the entry without a pointer and marked as empty, or
   what the second leaves of it is zeros anyway. All other blocks stay as they were. The counts are exact
   if and only if the row is still cached and the hash changes; or, after such a loss, if the
   count that the first write left too low is made right by the reference that the second leaves behind.
   */
  lemma TwoWrites(
      c: Config, st: Store, h: Handle, n: int, offset: int, chunk: seq<Byte>, now: int, pass: Option<set<int>>,
      offset': int, chunk': seq<Byte>, later: int)
    requires WriteAllowed(c, st, h, n, offset, chunk) && DataSized(c, st.cache)
    requires 0 <= offset' && offset' + |chunk'| <= c.blockSize
    requires var data := NewBlock(c, st, Key(h.ino, n), offset, chunk);
             var w := WriteChunk(c, st, h, n, offset, chunk, now);
             w.Done? && |data| == c.blockSize && n in w.value.1.blocks ==>
               var lost := Lost(c, st, h, n, data, pass, w.value.1.blocks[n].storageBlockNum);
               NoCollision(c, w.value.0, Rewritten(c, data, lost, offset', chunk'))
    ensures var k := Key(h.ino, n);
            var data := NewBlock(c, st, k, offset, chunk);
            var w := WriteChunk(c, st, h, n, offset, chunk, now);
            && |data| == c.blockSize && w.Done? && n in w.value.1.blocks
            && var s := w.value.1.blocks[n].storageBlockNum;
               var lost := Lost(c, st, h, n, data, pass, s);
               var data' := Rewritten(c, data, lost, offset', chunk');
               var (b, hb) := Between(w.value.0, w.value.1, pass);
               && HandleOk(b, hb) && DataSized(c, b.cache)
               && var r := WriteChunk(c, b, hb, n, offset', chunk', later);
                  && r.Done? && ViewAfterWrite(w.value.0, r.value.0, k, data')
                  && (BytesOf(r.value.0, k) == Splice(data, offset', chunk') <==>
                       !lost || Splice(Zeros(c.blockSize), offset', chunk') == Splice(data, offset', chunk'))
                  && (Exact(r.value.0) <==>
                       if lost then SameHash(st, k, c.hash(data)) && s !in b.cache
                       else s in b.cache && c.hash(data') != c.hash(data))
  {
    hide WriteChunk, Integrity, Exact, NoCollision, Splice, FindRow, BytesOf, Refs, Lost, Between, SameBytes,
         ViewAfterWrite, ExactBut, Placed, Usable, NewBlock, AllFound;
    var k := Key(h.ino, n);
    var data := NewBlock(c, st, k, offset, chunk);
    FirstWrite(c, st, h, n, offset, chunk, now);
    var (st', h') := WriteChunk(c, st, h, n, offset, chunk, now).value;
    BetweenKeeps(c, st', h', pass);
    var s := FirstWriteThenPass(c, st, h, n, offset, chunk, now, pass);
    var data' := Rewritten(c, data, Lost(c, st, h, n, data, pass, s), offset', chunk');
    var (b, hb) := Between(st', h', pass);
    NoCollisionStays(c, st', b, data');
    RewriteStep(c, b, hb, n, data, offset', chunk', later);
    RewriteCounts(c, b, hb, n, data, offset', chunk', later);
    SameViewAfterWrite(st', b, WriteChunk(c, b, hb, n, offset', chunk', later).value.0, k, data');
    WrittenBytes(st', WriteChunk(c, b, hb, n, offset', chunk', later).value.0, k, data');
  }
}
