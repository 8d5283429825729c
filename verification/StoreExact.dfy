/**
 Exact reference counts, and what they buy: through handles that may use its blocks the store behaves as a sparse map
 of blocks, so that sharing a block or overwriting it in place never shows in another file.
 */
module StoreExact {
  import opened Basics
  import opened Bytes
  import opened StoreModel
  import opened StoreIntegrity

  // ---------- Counting references ----------

  ghost function RefSet(fb: map<Key, Digest>, h: Digest): set<Key> {
    set k | k in fb && fb[k] == h
  }

  /** The number of file blocks with hash `h`. */
  ghost function Refs(fb: map<Key, Digest>, h: Digest): nat {
    |RefSet(fb, h)|
  }

  lemma RefsAfterPut(fb: map<Key, Digest>, k: Key, h: Digest, x: Digest)
    ensures Refs(fb[k := h], x)
         == Refs(fb, x) + (if x == h then 1 else 0) - (if k in fb && fb[k] == x then 1 else 0)
  {
    var before, after := RefSet(fb, x), RefSet(fb[k := h], x);
    if x == h {
      assert after == before + {k};
    } else {
      assert after == before - {k};
    }
  }

  lemma RefsAfterDrop(fb: map<Key, Digest>, k: Key, x: Digest)
    ensures Refs(fb - {k}, x) == Refs(fb, x) - (if k in fb && fb[k] == x then 1 else 0)
  {
    assert RefSet(fb - {k}, x) == RefSet(fb, x) - {k};
  }

  lemma OnlyReference(fb: map<Key, Digest>, k: Key, k': Key)
    requires k in fb && k' in fb && fb[k'] == fb[k] && Refs(fb, fb[k]) == 1
    ensures k' == k
  {
    var s := RefSet(fb, fb[k]);
    assert k in s && k' in s;
    assert |s - {k}| == 0;
  }

  // ---------- The invariant ----------

  /** Every reference leads to a row. */
  ghost predicate AllFound(st: Store) {
    forall k :: k in st.fileBlocks ==> FindRow(st.rows, st.fileBlocks[k]).Some?
  }

  /** Every reference leads to a row, and every count, stored or cached, is the number of references. */
  ghost predicate Exact(st: Store) {
    && AllFound(st)
    && (forall id :: id in st.rows ==> st.rows[id].useCount == Refs(st.fileBlocks, st.rows[id].hash))
    && (forall s :: s in st.cache ==> s in st.rows && st.cache[s].useCount == st.rows[s].useCount)
  }

  /** Blocks lie below the size of their file. */
  ghost predicate Placed(c: Config, st: Store) {
    && (forall f :: f in st.sizes ==> st.sizes[f] >= 0)
    && (forall k :: k in st.fileBlocks ==>
          k.file in st.sizes && 0 <= k.offset && k.offset * c.blockSize < st.sizes[k.file])
  }

  ghost predicate Inv(c: Config, st: Store) {
    Integrity(c, st) && Exact(st) && Placed(c, st)
  }

  // ---------- What the store means ----------

  /** Files as sparse maps of blocks with sizes. */
  datatype Sparse = Sparse(sizes: map<FileId, int>, blocks: map<Key, Block>)

  ghost function RowOf(st: Store, k: Key): int
    requires k in st.fileBlocks && FindRow(st.rows, st.fileBlocks[k]).Some?
  {
    FindRow(st.rows, st.fileBlocks[k]).value
  }

  ghost function BytesOf(st: Store, k: Key): Block
    requires k in st.fileBlocks
  {
    if FindRow(st.rows, st.fileBlocks[k]).Some? && Stored(st, RowOf(st, k)) then Effective(st, RowOf(st, k)) else []
  }

  ghost function View(st: Store): Sparse {
    Sparse(st.sizes, map k | k in st.fileBlocks :: BytesOf(st, k))
  }

  /** The block of a file in a sparse map; a hole reads as zeros. */
  function BlockAt(c: Config, a: Sparse, k: Key): Block {
    if k in a.blocks then a.blocks[k] else Zeros(c.blockSize)
  }

  /** Blocks are whole blocks. */
  predicate SizedFiles(c: Config, a: Sparse) {
    forall k :: k in a.blocks ==> |a.blocks[k]| == c.blockSize
  }

  /** The handle knows the size of its file. */
  predicate Current(st: Store, h: Handle) {
    h.ino in st.sizes && h.size == st.sizes[h.ino]
  }

  /**
   A handle that has touched block `n` may use it again: its entry is that of a hole, or it names the row of
   the block and its pointer is alive, or can be set again because the entry does not count as empty and the
   block is cached.
   */
  ghost predicate Usable(st: Store, h: Handle, n: int) {
    var k := Key(h.ino, n);
    && Current(st, h)
    && (n in h.blocks ==>
          var bi := h.blocks[n];
          if k in st.fileBlocks then
            && FindRow(st.rows, st.fileBlocks[k]) == Some(bi.storageBlockNum) && bi.hash == Some(st.fileBlocks[k])
            && (bi.attached || (!bi.empty && bi.storageBlockNum in st.cache))
          else bi == BlockInfo(0, None, true, false))
  }

  /** What a release needs of an entry: it names the row of the block, or nothing for a hole. */
  ghost predicate Named(st: Store, h: Handle, n: int) {
    var k := Key(h.ino, n);
    && Current(st, h)
    && (n in h.blocks ==>
          var bi := h.blocks[n];
          if k in st.fileBlocks then
            FindRow(st.rows, st.fileBlocks[k]) == Some(bi.storageBlockNum) && bi.hash == Some(st.fileBlocks[k])
          else bi.hash == None)
  }

  /** No stored block has the hash of `data` without being `data`. */
  ghost predicate NoCollision(c: Config, st: Store, data: Block) {
    forall id :: id in st.rows && Stored(st, id) && c.hash(data) == st.rows[id].hash ==> Effective(st, id) == data
  }

  // ---------- Same rows, same bytes, same view ----------

  lemma SameView(st: Store, st': Store)
    requires st'.sizes == st.sizes && st'.fileBlocks == st.fileBlocks && st'.rows == st.rows
    requires SameBytes(st, st')
    requires forall id :: id in st.rows ==> Stored(st, id)
    ensures View(st') == View(st)
  {
  }

  lemma RowsAreStored(c: Config, st: Store)
    requires Integrity(c, st)
    ensures forall id :: id in st.rows ==> Stored(st, id) && |Effective(st, id)| == c.blockSize
    ensures DataSized(c, st.cache)
  {
    forall id | id in st.rows
      ensures Stored(st, id) && |Effective(st, id)| == c.blockSize
    {
      assert RowOk(c, st, id);
    }
    forall s | s in st.cache
      ensures st.cache[s].data == [] || |st.cache[s].data| == c.blockSize
    {
      assert CachedOk(c, st, s);
    }
  }

  /** The entry a fresh handle gets for block `n`. */
  ghost function FreshEntry(st: Store, k: Key): BlockInfo
    requires k in st.fileBlocks ==> FindRow(st.rows, st.fileBlocks[k]).Some?
  {
    if k in st.fileBlocks then BlockInfo(RowOf(st, k), Some(st.fileBlocks[k]), false, true)
    else BlockInfo(0, None, true, false)
  }

  /** Whether the entry a handle has or gets for block `n` counts as empty. */
  predicate MarkedEmpty(st: Store, h: Handle, n: int) {
    if n in h.blocks then h.blocks[n].empty else Key(h.ino, n) !in st.fileBlocks
  }

  /**
   Looking a block up through a fresh handle, or one that may use the block again: the assertion on counts
   holds, and nothing changes but the cache.
   */
  lemma UsableGet(c: Config, st: Store, h: Handle, n: int, now: int)
    requires Inv(c, st) && HandleOk(st, h) && Usable(st, h, n)
    ensures var r := GetFileBlock(c, st, h, n, now);
            && r.Done? && Inv(c, r.value.0) && HandleOk(r.value.0, r.value.1)
            && r.value.0 == st.(cache := r.value.0.cache) && st.cache.Keys <= r.value.0.cache.Keys
            && SameBytes(st, r.value.0) && View(r.value.0) == View(st)
            && r.value.1 == h.(blocks := h.blocks[n := FreshEntry(st, Key(h.ino, n)).(empty := MarkedEmpty(st, h, n))])
  {
    hide Effective, Stored, Integrity, Refs;
    var k := Key(h.ino, n);
    var r := GetFileBlock(c, st, h, n, now);
    GetKeepsIntegrity(c, st, h, n, now) by {
      if k in st.fileBlocks {
        assert Placed(c, st);
      }
    }
    RowsAreStored(c, st);
    SameView(st, r.value.0);
  }

  // ---------- Writing a block ----------

  /** What a write finds after the lookup: the entry of the block, in a file that reaches that far. */
  ghost predicate WriteReady(c: Config, st: Store, h: Handle, n: int) {
    var k := Key(h.ino, n);
    && Inv(c, st) && HandleOk(st, h)
    && n in h.blocks && h.blocks[n] == FreshEntry(st, k).(empty := h.blocks[n].empty)
    && h.ino in st.sizes && 0 <= n && n * c.blockSize < st.sizes[h.ino]
  }

  lemma PlacedAfterPut(c: Config, st: Store, st': Store, k: Key, hash: Digest)
    requires Placed(c, st) && st'.sizes == st.sizes && st'.fileBlocks == st.fileBlocks[k := hash]
    requires k.file in st.sizes && 0 <= k.offset && k.offset * c.blockSize < st.sizes[k.file]
    ensures Placed(c, st')
  {
  }

  /** The counts after sharing row `id`, when the entry points to another row or to none. */
  lemma ShareMovesCounts(c: Config, st: Store, h: Handle, n: int, hash: Digest, id: int)
    requires WriteReady(c, st, h, n) && FindRow(st.rows, hash) == Some(id)
    requires h.blocks[n].attached ==> h.blocks[n].storageBlockNum != id
    ensures var st1 := Share(st, h, n, hash, id).0;
            var cache := BumpCached(st1.cache, id, 1);
            var bi := h.blocks[n];
            && (forall a :: a in st.rows ==>
                 st1.rows[a].useCount
                 == st.rows[a].useCount + (if a == id then 1 else 0) - (if bi.attached && a == bi.storageBlockNum then 1 else 0))
            && (forall s :: s in cache ==> s in st.rows && cache[s].useCount == st1.rows[s].useCount)
  {
    hide Refs, Placed, RowOk, CachedOk, FreshEntry, BumpCached, Dereferenced;
    InvParts(c, st);
    HashesUnique(c, st);
    var bi := h.blocks[n];
    var cache := Dereferenced(st.cache, bi);
    forall a | a in st.rows
      ensures BumpRows(st.rows, hash, 1)[a].useCount == st.rows[a].useCount + (if a == id then 1 else 0)
    {
      assert st.rows[a].hash == hash <==> a == id;
    }
  }

  /** Rows that count the references, with one more for the new row of block `k` and one less for its old row. */
  lemma ExactAfterMove(st: Store, st': Store, k: Key, hash: Digest, id: int)
    requires AllFound(st) && UniqueHashes(st.rows)
    requires id in st.rows && st.rows[id].hash == hash
    requires st'.fileBlocks == st.fileBlocks[k := hash] && st'.rows.Keys == st.rows.Keys
    requires forall a :: a in st.rows ==> st'.rows[a].hash == st.rows[a].hash
    requires forall a :: a in st.rows ==>
        st'.rows[a].useCount
        == Refs(st.fileBlocks, st.rows[a].hash) + (if a == id then 1 else 0) - (if k in st.fileBlocks && a == RowOf(st, k) then 1 else 0)
    requires forall s :: s in st'.cache ==> s in st.rows && st'.cache[s].useCount == st'.rows[s].useCount
    ensures Exact(st')
  {
    hide Refs;
    forall a | a in st'.rows
      ensures st'.rows[a].useCount == Refs(st'.fileBlocks, st'.rows[a].hash)
    {
      RefsAfterPut(st.fileBlocks, k, hash, st.rows[a].hash);
      assert st.rows[a].hash == hash <==> a == id;
      if k in st.fileBlocks {
        assert st.rows[a].hash == st.fileBlocks[k] <==> a == RowOf(st, k);
      }
    }
    forall key | key in st'.fileBlocks
      ensures FindRow(st'.rows, st'.fileBlocks[key]).Some?
    {
      var row := if key == k then id else RowOf(st, key);
      assert row in st'.rows && st'.rows[row].hash == st'.fileBlocks[key];
    }
  }

  /**
   Sharing keeps the counts exact unless the block already had that hash. Then the increment of the
   shared row is overwritten by the decremented count of the same row.
   */
  lemma ShareCounts(c: Config, st: Store, h: Handle, n: int, hash: Digest, id: int)
    requires WriteReady(c, st, h, n) && FindRow(st.rows, hash) == Some(id)
    ensures var st1 := Share(st, h, n, hash, id).0;
            var st' := st1.(cache := BumpCached(st1.cache, id, 1));
            var k := Key(h.ino, n);
            && (Exact(st') <==> !(k in st.fileBlocks && st.fileBlocks[k] == hash))
            && (k in st.fileBlocks && st.fileBlocks[k] == hash ==>
                 && st'.rows[id].useCount == Refs(st'.fileBlocks, hash) - 1
                 && id in st'.cache && st'.cache[id].useCount == Refs(st'.fileBlocks, hash))
  {
    hide Refs, Placed, RowOk, CachedOk, BumpCached, BumpRows;
    InvParts(c, st);
    HashesUnique(c, st);
    var k := Key(h.ino, n);
    var st1 := Share(st, h, n, hash, id).0;
    var st' := st1.(cache := BumpCached(st1.cache, id, 1));
    if k in st.fileBlocks && st.fileBlocks[k] == hash {
      RefsAfterPut(st.fileBlocks, k, hash, hash);
      assert st'.rows[id].useCount == st.rows[id].useCount - 1;
    } else {
      ShareMovesCounts(c, st, h, n, hash, id);
      ExactAfterMove(st, st', k, hash, id);
    }
  }

  lemma InvParts(c: Config, st: Store)
    requires Inv(c, st)
    ensures Integrity(c, st) && Exact(st) && Placed(c, st)
  {
  }

  lemma HashesUnique(c: Config, st: Store)
    requires Integrity(c, st)
    ensures UniqueHashes(st.rows)
  {
  }

  /** A row that newly has `hash`, with count 1 and no other reference to it. */
  lemma ExactAfterRewrite(st: Store, st': Store, k: Key, hash: Digest, id: int)
    requires AllFound(st) && UniqueHashes(st.rows)
    requires forall a :: a in st.rows ==> st.rows[a].hash != hash
    requires st'.fileBlocks == st.fileBlocks[k := hash] && st'.rows.Keys == st.rows.Keys + {id}
    requires st'.rows[id] == Row(hash, 1)
    requires forall a :: a in st.rows && a != id ==>
        st'.rows[a].hash == st.rows[a].hash && st'.rows[a].useCount
        == Refs(st.fileBlocks, st.rows[a].hash) - (if k in st.fileBlocks && a == RowOf(st, k) then 1 else 0)
    requires id in st.rows ==> k in st.fileBlocks && id == RowOf(st, k) && Refs(st.fileBlocks, st.fileBlocks[k]) == 1
    requires forall s :: s in st'.cache ==> s in st'.rows && st'.cache[s].useCount == st'.rows[s].useCount
    ensures Exact(st')
  {
    hide Refs;
    assert Refs(st.fileBlocks, hash) == 0 by {
      NoRowNoReference(st, hash);
    }
    forall a | a in st'.rows
      ensures st'.rows[a].useCount == Refs(st'.fileBlocks, st'.rows[a].hash)
    {
      RefsAfterPut(st.fileBlocks, k, hash, st'.rows[a].hash);
      if k in st.fileBlocks && a in st.rows {
        assert st.rows[a].hash == st.fileBlocks[k] <==> a == RowOf(st, k);
      }
    }
    forall key | key in st'.fileBlocks
      ensures FindRow(st'.rows, st'.fileBlocks[key]).Some?
    {
      if key != k && id in st.rows && RowOf(st, key) == id {
        OnlyReference(st.fileBlocks, k, key);
      }
      var row := if key == k then id else RowOf(st, key);
      assert row in st'.rows && st'.rows[row].hash == st'.fileBlocks[key];
    }
  }

  lemma NoRowNoReference(st: Store, hash: Digest)
    requires AllFound(st)
    requires forall a :: a in st.rows ==> st.rows[a].hash != hash
    ensures Refs(st.fileBlocks, hash) == 0
  {
    forall k | k in st.fileBlocks
      ensures st.fileBlocks[k] != hash
    {
      assert FindRow(st.rows, st.fileBlocks[k]).Some?;
    }
    assert RefSet(st.fileBlocks, hash) == {};
  }

  /** Row `s` is the row of no block but possibly `k`. */
  ghost predicate NoOtherOwner(st: Store, k: Key, s: int) {
    forall k' :: k' in st.fileBlocks && k' != k ==> FindRow(st.rows, st.fileBlocks[k']) != Some(s)
  }

  /** Row `s` is the row of block `k` and of no other. */
  ghost predicate Owns(st: Store, k: Key, s: int) {
    k in st.fileBlocks && FindRow(st.rows, st.fileBlocks[k]) == Some(s) && NoOtherOwner(st, k, s)
  }

  lemma SoleReference(st: Store, k: Key)
    requires AllFound(st)
    requires k in st.fileBlocks && Refs(st.fileBlocks, st.fileBlocks[k]) == 1
    ensures Owns(st, k, RowOf(st, k))
  {
    hide Refs;
    forall k' | k' in st.fileBlocks && k' != k
      ensures RowOf(st, k') != RowOf(st, k)
    {
      if RowOf(st, k') == RowOf(st, k) {
        OnlyReference(st.fileBlocks, k, k');
      }
    }
  }

  /** Only a sole owner overwrites in place, and the counts stay exact. */
  lemma OverwriteCounts(c: Config, st: Store, h: Handle, n: int, data: Block, now: int)
    requires WriteReady(c, st, h, n) && FindRow(st.rows, c.hash(data)).None?
    requires h.blocks[n].attached && st.cache[h.blocks[n].storageBlockNum].useCount == 1
    ensures var (st1, h1) := Overwrite(st, h, n, c.hash(data));
            Exact(PutData(c, st1, h1, n, data, now).0)
    ensures Owns(st, Key(h.ino, n), h.blocks[n].storageBlockNum)
  {
    hide Refs, Placed, RowOk, CachedOk;
    InvParts(c, st);
    HashesUnique(c, st);
    var k := Key(h.ino, n);
    var s := h.blocks[n].storageBlockNum;
    var (st1, h1) := Overwrite(st, h, n, c.hash(data));
    SoleReference(st, k);
    ExactAfterRewrite(st, PutData(c, st1, h1, n, data, now).0, k, c.hash(data), s);
  }

  /** The rows and the cache after an allocation. */
  lemma AllocateMovesCounts(c: Config, st: Store, h: Handle, n: int, data: Block, now: int)
    requires WriteReady(c, st, h, n)
    ensures var (st1, h1) := Allocate(st, h, n, c.hash(data));
            var st' := PutData(c, st1, h1, n, data, now).0;
            var bi := h.blocks[n];
            var id := st.lastRowId + 1;
            && id !in st.rows && st'.rows.Keys == st.rows.Keys + {id} && st'.rows[id] == Row(c.hash(data), 1)
            && (forall a :: a in st.rows ==>
                 st'.rows[a].hash == st.rows[a].hash && st'.rows[a].useCount
                 == st.rows[a].useCount - (if bi.attached && a == bi.storageBlockNum then 1 else 0))
            && (forall s :: s in st'.cache ==> s in st'.rows && st'.cache[s].useCount == st'.rows[s].useCount)
  {
    hide Refs, Placed, RowOk, CachedOk, FreshEntry, BumpCached, Dereferenced, FindRow;
    InvParts(c, st);
    NextIdIsNew(c, st);
  }

  lemma AllocateCounts(c: Config, st: Store, h: Handle, n: int, data: Block, now: int)
    requires WriteReady(c, st, h, n) && FindRow(st.rows, c.hash(data)).None?
    ensures var (st1, h1) := Allocate(st, h, n, c.hash(data));
            Exact(PutData(c, st1, h1, n, data, now).0)
  {
    hide Refs, Placed, Integrity, BumpCached, Dereferenced, StoreCount, Exact;
    InvParts(c, st);
    HashesUnique(c, st);
    AllocateMovesCounts(c, st, h, n, data, now);
    var (st1, h1) := Allocate(st, h, n, c.hash(data));
    ExactAfterRewrite(st, PutData(c, st1, h1, n, data, now).0, Key(h.ino, n), c.hash(data), st.lastRowId + 1);
  }

  // ---------- What a write means ----------

  /** Integrity, and every reference leads to a row: what contents need of the counts' invariant. */
  ghost predicate Linked(c: Config, st: Store) {
    Integrity(c, st) && AllFound(st)
  }

  /** After a write of `data` to block `k` that block holds `data`; the others have the same rows and bytes. */
  ghost predicate ViewAfterWrite(st: Store, st': Store, k: Key, data: Block) {
    && st'.sizes == st.sizes && st'.fileBlocks.Keys == st.fileBlocks.Keys + {k}
    && FindRow(st'.rows, st'.fileBlocks[k]).Some? && BytesOf(st', k) == data
    && forall k' :: k' in st.fileBlocks && k' != k ==>
         && st'.fileBlocks[k'] == st.fileBlocks[k'] && BytesOf(st', k') == BytesOf(st, k')
         && FindRow(st'.rows, st'.fileBlocks[k']) == FindRow(st.rows, st.fileBlocks[k'])
  }

  lemma ViewOfWrite(st: Store, st': Store, k: Key, data: Block)
    requires ViewAfterWrite(st, st', k, data)
    ensures View(st') == View(st).(blocks := View(st).blocks[k := data])
  {
  }

  /** A file block keeps its row and its bytes when its row keeps its hash and its bytes. */
  lemma BlockStays(st: Store, st': Store, k: Key)
    requires UniqueHashes(st'.rows)
    requires k in st.fileBlocks && k in st'.fileBlocks && st'.fileBlocks[k] == st.fileBlocks[k]
    requires FindRow(st.rows, st.fileBlocks[k]).Some?
    requires var id := RowOf(st, k);
             && id in st'.rows && st'.rows[id].hash == st.rows[id].hash
             && Stored(st, id) && Stored(st', id) && Effective(st', id) == Effective(st, id)
    ensures BytesOf(st', k) == BytesOf(st, k)
    ensures FindRow(st'.rows, st'.fileBlocks[k]) == FindRow(st.rows, st.fileBlocks[k])
  {
    hide Stored, Effective, UniqueHashes;
    FindsUniqueRow(st'.rows, RowOf(st, k));
  }

  lemma ShareView(c: Config, st: Store, h: Handle, n: int, data: Block, id: int)
    requires Linked(c, st) && n in h.blocks && EntryOk(st, h.blocks[n]) && NoCollision(c, st, data)
    requires FindRow(st.rows, c.hash(data)) == Some(id)
    ensures var st1 := Share(st, h, n, c.hash(data), id).0;
            ViewAfterWrite(st, st1.(cache := BumpCached(st1.cache, id, 1)), Key(h.ino, n), data)
  {
    hide RowOk, CachedOk, BumpCached, BumpRows, StoreCount, Dereferenced, Effective, Stored, UniqueHashes, Integrity;
    RowsAreStored(c, st);
    ShareKeepsIntegrity(c, st, h, n, c.hash(data), id);
    var k := Key(h.ino, n);
    var st1 := Share(st, h, n, c.hash(data), id).0;
    var st' := st1.(cache := BumpCached(st1.cache, id, 1));
    HashesUnique(c, st');
    FindsUniqueRow(st'.rows, id);
    forall k' | k' in st.fileBlocks && k' != k
      ensures BytesOf(st', k') == BytesOf(st, k')
      ensures FindRow(st'.rows, st'.fileBlocks[k']) == FindRow(st.rows, st.fileBlocks[k'])
    {
      BlockStays(st, st', k');
    }
  }

  lemma OverwriteView(c: Config, st: Store, h: Handle, n: int, data: Block, now: int)
    requires Linked(c, st) && n in h.blocks && EntryOk(st, h.blocks[n]) && |data| == c.blockSize
    requires FindRow(st.rows, c.hash(data)).None?
    requires h.blocks[n].attached && st.cache[h.blocks[n].storageBlockNum].useCount == 1
    requires NoOtherOwner(st, Key(h.ino, n), h.blocks[n].storageBlockNum)
    ensures var (st1, h1) := Overwrite(st, h, n, c.hash(data));
            ViewAfterWrite(st, PutData(c, st1, h1, n, data, now).0, Key(h.ino, n), data)
  {
    hide RowOk, CachedOk, Effective, Stored, UniqueHashes;
    HashesUnique(c, st);
    RowsAreStored(c, st);
    OverwriteKeepsIntegrity(c, st, h, n, data, now);
    var k := Key(h.ino, n);
    var (st1, h1) := Overwrite(st, h, n, c.hash(data));
    var st' := PutData(c, st1, h1, n, data, now).0;
    RowsAreStored(c, st');
    HashesUnique(c, st');
    FindsUniqueRow(st'.rows, h.blocks[n].storageBlockNum);
    forall k' | k' in st.fileBlocks && k' != k
      ensures BytesOf(st', k') == BytesOf(st, k')
      ensures FindRow(st'.rows, st'.fileBlocks[k']) == FindRow(st.rows, st.fileBlocks[k'])
    {
      BlockStays(st, st', k');
    }
  }

  lemma AllocateView(c: Config, st: Store, h: Handle, n: int, data: Block, now: int)
    requires Linked(c, st) && n in h.blocks && EntryOk(st, h.blocks[n]) && |data| == c.blockSize
    requires FindRow(st.rows, c.hash(data)).None?
    ensures var (st1, h1) := Allocate(st, h, n, c.hash(data));
            ViewAfterWrite(st, PutData(c, st1, h1, n, data, now).0, Key(h.ino, n), data)
  {
    hide RowOk, CachedOk, Effective, Stored, BumpCached, StoreCount, Dereferenced, UniqueHashes, Integrity;
    RowsAreStored(c, st);
    AllocateKeepsIntegrity(c, st, h, n, data, now);
    var k := Key(h.ino, n);
    var (st1, h1) := Allocate(st, h, n, c.hash(data));
    var st' := PutData(c, st1, h1, n, data, now).0;
    RowsAreStored(c, st');
    HashesUnique(c, st');
    FindsUniqueRow(st'.rows, st.lastRowId + 1);
    forall k' | k' in st.fileBlocks && k' != k
      ensures BytesOf(st', k') == BytesOf(st, k')
      ensures FindRow(st'.rows, st'.fileBlocks[k']) == FindRow(st.rows, st.fileBlocks[k'])
    {
      BlockStays(st, st', k');
    }
  }

  lemma WriteBlockShares(c: Config, st: Store, h: Handle, n: int, data: Block, now: int, id: int)
    requires n in h.blocks && EntryOk(st, h.blocks[n])
    requires FindRow(st.rows, c.hash(data)) == Some(id)
    ensures var st1 := Share(st, h, n, c.hash(data), id).0;
            WriteBlock(c, st, h, n, data, now).0 == st1.(cache := BumpCached(st1.cache, id, 1))
  {
    hide BumpCached, BumpRows, StoreCount, Dereferenced;
  }

  /** The write takes place in a row that other blocks have. */
  ghost predicate HitsOthers(c: Config, st: Store, h: Handle, n: int, data: Block)
    requires n in h.blocks && EntryOk(st, h.blocks[n])
  {
    var bi := h.blocks[n];
    && FindRow(st.rows, c.hash(data)).None?
    && bi.attached && st.cache[bi.storageBlockNum].useCount == 1
    && !NoOtherOwner(st, Key(h.ino, n), bi.storageBlockNum)
  }

  /** The block that lost its row to another block's data is not found any more. */
  lemma OverwriteLosesOthers(c: Config, st: Store, h: Handle, n: int, data: Block, now: int)
    requires Integrity(c, st) && n in h.blocks && EntryOk(st, h.blocks[n]) && HitsOthers(c, st, h, n, data)
    ensures var st' := WriteBlock(c, st, h, n, data, now).0;
            && !Linked(c, st') && !ViewAfterWrite(st, st', Key(h.ino, n), data)
  {
    hide StoreCount, Integrity, BytesOf;
    HashesUnique(c, st);
    var k, s := Key(h.ino, n), h.blocks[n].storageBlockNum;
    var st' := WriteBlock(c, st, h, n, data, now).0;
    var k' :| k' in st.fileBlocks && k' != k && FindRow(st.rows, st.fileBlocks[k']) == Some(s);
    assert st'.fileBlocks[k'] == st.fileBlocks[k'];
    forall id | id in st'.rows
      ensures st'.rows[id].hash != st.fileBlocks[k']
    {
      assert id == s || st'.rows[id].hash == st.rows[id].hash;
    }
    assert FindRow(st'.rows, st'.fileBlocks[k']).None?;
  }

  /**
   A block write stores exactly those bytes and touches no other block, whatever the counts and the entry
   are otherwise, if and only if it does not take place in a row that other blocks have.
   */
  lemma LinkedWriteView(c: Config, st: Store, h: Handle, n: int, data: Block, now: int)
    requires Linked(c, st) && HandleOk(st, h) && n in h.blocks && |data| == c.blockSize && NoCollision(c, st, data)
    ensures var st' := WriteBlock(c, st, h, n, data, now).0;
            && (ViewAfterWrite(st, st', Key(h.ino, n), data) <==> !HitsOthers(c, st, h, n, data))
            && (Linked(c, st') <==> !HitsOthers(c, st, h, n, data))
  {
    hide Share, Overwrite, Allocate, PutData, Integrity, BytesOf, NoCollision, NoOtherOwner;
    WriteBlockKeepsIntegrity(c, st, h, n, data, now);
    if HitsOthers(c, st, h, n, data) {
      OverwriteLosesOthers(c, st, h, n, data, now);
    } else {
      match FindRow(st.rows, c.hash(data))
      case Some(id) =>
        WriteBlockShares(c, st, h, n, data, now, id);
        ShareView(c, st, h, n, data, id);
      case None =>
        if h.blocks[n].attached && st.cache[h.blocks[n].storageBlockNum].useCount == 1 {
          OverwriteView(c, st, h, n, data, now);
        } else {
          AllocateView(c, st, h, n, data, now);
        }
    }
  }

  /** With exact counts only a sole owner writes in place. */
  lemma ReadyIsSoleOwner(c: Config, st: Store, h: Handle, n: int, data: Block)
    requires WriteReady(c, st, h, n)
    ensures Linked(c, st) && !HitsOthers(c, st, h, n, data)
  {
    hide Integrity, Placed;
    InvParts(c, st);
    HashesUnique(c, st);
    var bi := h.blocks[n];
    if bi.attached && st.cache[bi.storageBlockNum].useCount == 1 {
      SoleReference(st, Key(h.ino, n));
    }
  }

  /** A block write through a ready entry stores exactly those bytes, whichever case it takes. */
  lemma WriteBlockView(c: Config, st: Store, h: Handle, n: int, data: Block, now: int)
    requires WriteReady(c, st, h, n) && |data| == c.blockSize && NoCollision(c, st, data)
    ensures var st' := WriteBlock(c, st, h, n, data, now).0;
            && View(st') == View(st).(blocks := View(st).blocks[Key(h.ino, n) := data]) && Placed(c, st')
            && ViewAfterWrite(st, st', Key(h.ino, n), data)
  {
    hide WriteBlock, Inv, ViewAfterWrite, View, NoCollision, Placed, Linked, HitsOthers;
    WritePlaces(c, st, h, n, data, now);
    ReadyIsSoleOwner(c, st, h, n, data);
    LinkedWriteView(c, st, h, n, data, now);
    ViewOfWrite(st, WriteBlock(c, st, h, n, data, now).0, Key(h.ino, n), data);
  }

  lemma WritePlaces(c: Config, st: Store, h: Handle, n: int, data: Block, now: int)
    requires WriteReady(c, st, h, n)
    ensures Placed(c, WriteBlock(c, st, h, n, data, now).0)
  {
    hide Integrity, Exact, StoreCount, BumpRows, BumpCached, Dereferenced, Placed;
    InvParts(c, st);
    var st' := WriteBlock(c, st, h, n, data, now).0;
    assert st'.sizes == st.sizes && st'.fileBlocks == st.fileBlocks[Key(h.ino, n) := c.hash(data)];
    PlacedAfterPut(c, st, st', Key(h.ino, n), c.hash(data));
  }

  /** The counts stay exact if and only if the write changes the block's hash or fills a hole. */
  lemma WriteBlockCounts(c: Config, st: Store, h: Handle, n: int, data: Block, now: int)
    requires WriteReady(c, st, h, n)
    ensures var k := Key(h.ino, n);
            Exact(WriteBlock(c, st, h, n, data, now).0) <==> !(k in st.fileBlocks && st.fileBlocks[k] == c.hash(data))
  {
    hide Share, Overwrite, Allocate, PutData, Integrity, Placed;
    var k := Key(h.ino, n);
    InvParts(c, st);
    if k in st.fileBlocks && st.fileBlocks[k] == c.hash(data) {
      assert FindRow(st.rows, c.hash(data)).Some?;
    }
    match FindRow(st.rows, c.hash(data))
    case Some(id) =>
      WriteBlockShares(c, st, h, n, data, now, id);
      ShareCounts(c, st, h, n, c.hash(data), id);
    case None =>
      if h.blocks[n].attached && st.cache[h.blocks[n].storageBlockNum].useCount == 1 {
        OverwriteCounts(c, st, h, n, data, now);
      } else {
        AllocateCounts(c, st, h, n, data, now);
      }
  }
}
