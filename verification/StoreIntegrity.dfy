/**
 Block integrity: no two rows share a hash, and the bytes behind every row hash to the hash recorded
 for it. Every operation keeps this, whatever handles it is called with.
 */
module StoreIntegrity {
  import opened Basics
  import opened Bytes
  import opened StoreModel

  ghost predicate UniqueHashes(rows: map<int, Row>) {
    forall a, b :: a in rows && b in rows && rows[a].hash == rows[b].hash ==> a == b
  }

  predicate Stored(st: Store, id: int) {
    (id in st.cache && st.cache[id].data != []) || id in st.disk
  }

  /** The bytes of a storage block: what the cache holds of it, else its slot. */
  function Effective(st: Store, id: int): Block
    requires Stored(st, id)
  {
    if id in st.cache && st.cache[id].data != [] then st.cache[id].data else st.disk[id]
  }

  predicate RowOk(c: Config, st: Store, id: int)
    requires id in st.rows
  {
    && 1 <= id <= st.lastRowId
    && Stored(st, id)
    && |Effective(st, id)| == c.blockSize
    && c.hash(Effective(st, id)) == st.rows[id].hash
  }

  /** Clean data is what the slot holds; the pseudo-block 0 of dangling references never has data or owners. */
  predicate CachedOk(c: Config, st: Store, s: int)
    requires s in st.cache
  {
    var e := st.cache[s];
    && (s in st.rows || s == 0)
    && (e.data == [] || |e.data| == c.blockSize)
    && (e.dirty ==> e.data != [])
    && (e.data != [] && !e.dirty ==> s in st.disk && st.disk[s] == e.data)
    && (s == 0 ==> e.data == [] && e.useCount <= 0)
  }

  ghost predicate Integrity(c: Config, st: Store) {
    && UniqueHashes(st.rows)
    && (forall id :: id in st.rows ==> RowOk(c, st, id))
    && (forall s :: s in st.cache ==> CachedOk(c, st, s))
    && st.lastRowId >= 0
  }

  /** The rows of `st` are still there, with the same bytes. */
  ghost predicate SameBytes(st: Store, st': Store) {
    forall id :: id in st.rows && Stored(st, id) ==>
      id in st'.rows && Stored(st', id) && Effective(st', id) == Effective(st, id)
  }

  lemma FindsUniqueRow(rows: map<int, Row>, id: int)
    requires UniqueHashes(rows) && id in rows
    ensures FindRow(rows, rows[id].hash) == Some(id)
  {
  }

  /** Handles stay well-formed while rows and cached blocks only come. */
  lemma HandlesStayOk(st: Store, st': Store, h: Handle)
    requires HandleOk(st, h)
    requires st.rows.Keys <= st'.rows.Keys && st.cache.Keys <= st'.cache.Keys
    ensures HandleOk(st', h)
  {
  }

  // ---------- Looking a block up, touching it, reading it in ----------

  /** A block enters the cache without data. */
  lemma EnterKeepsIntegrity(c: Config, st: Store, s: int, e: Cached)
    requires Integrity(c, st) && s !in st.cache && (s in st.rows || s == 0)
    requires e.data == [] && !e.dirty && (s == 0 ==> e.useCount <= 0)
    ensures Integrity(c, st.(cache := st.cache[s := e])) && SameBytes(st, st.(cache := st.cache[s := e]))
  {
    var st' := st.(cache := st.cache[s := e]);
    forall id | id in st.rows
      ensures RowOk(c, st', id) && Effective(st', id) == Effective(st, id)
    {
      assert RowOk(c, st, id);
    }
    forall t | t in st'.cache
      ensures CachedOk(c, st', t)
    {
      if t != s {
        assert CachedOk(c, st, t);
      }
    }
  }

  lemma LoadedEntryOk(c: Config, st: Store, ino: FileId, size: int, n: int)
    ensures var (bi, useCount) := LoadFileBlock(c, st, ino, size, n);
            EntryOk(st, bi) && !bi.attached && (bi.storageBlockNum == 0 ==> useCount == 0 || 0 in st.rows)
  {
  }

  lemma GetKeepsIntegrity(c: Config, st: Store, h: Handle, n: int, now: int)
    requires Integrity(c, st) && HandleOk(st, h)
    requires GetFileBlock(c, st, h, n, now).Done?
    ensures var (st', h') := GetFileBlock(c, st, h, n, now).value;
            && Integrity(c, st') && HandleOk(st', h') && SameBytes(st, st')
            && st' == st.(cache := st'.cache) && st.cache.Keys <= st'.cache.Keys
  {
    hide LoadFileBlock, Integrity, RowOk, CachedOk, Effective, Stored;
    assert 0 !in st.rows by {
      ZeroIsNoRow(c, st);
    }
    LoadedEntryOk(c, st, h.ino, h.size, n);
    var (st', h') := GetFileBlock(c, st, h, n, now).value;
    var (bi, useCount) := if n in h.blocks then (h.blocks[n], 0) else LoadFileBlock(c, st, h.ino, h.size, n);
    if !bi.empty && !bi.attached && bi.storageBlockNum !in st.cache {
      EnterKeepsIntegrity(c, st, bi.storageBlockNum, Cached(useCount, bi.hash, [], false, true, now));
    }
  }

  lemma ZeroIsNoRow(c: Config, st: Store)
    requires Integrity(c, st)
    ensures 0 !in st.rows
  {
    assert 0 in st.rows ==> RowOk(c, st, 0);
  }

  /** Replacing a cached entry keeps integrity if its data, when present, stays what it was. */
  lemma RecacheKeepsIntegrity(c: Config, st: Store, s: int, e: Cached)
    requires Integrity(c, st) && s in st.cache
    requires e.data == st.cache[s].data && e.dirty == st.cache[s].dirty
    requires s == 0 ==> e.useCount <= 0
    ensures Integrity(c, st.(cache := st.cache[s := e])) && SameBytes(st, st.(cache := st.cache[s := e]))
  {
    var st' := st.(cache := st.cache[s := e]);
    forall id | id in st.rows
      ensures RowOk(c, st', id) && Effective(st', id) == Effective(st, id)
    {
      assert RowOk(c, st, id);
    }
    forall t | t in st'.cache
      ensures CachedOk(c, st', t)
    {
      assert CachedOk(c, st, t);
    }
  }

  /** Reading a block in never fails and shows the bytes behind its row. */
  lemma PopulateKeepsIntegrity(c: Config, st: Store, s: int)
    requires Integrity(c, st) && s in st.cache && s != 0
    ensures var r := Populate(c, st, s);
            && r.Done? && Integrity(c, r.value) && SameBytes(st, r.value)
            && r.value == st.(cache := st.cache[s := st.cache[s].(data := Effective(st, s))])
            && Effective(r.value, s) == Effective(st, s)
  {
    assert CachedOk(c, st, s) && RowOk(c, st, s);
    var st' := Populate(c, st, s).value;
    forall id | id in st.rows
      ensures RowOk(c, st', id) && Effective(st', id) == Effective(st, id)
    {
      assert RowOk(c, st, id);
    }
    forall t | t in st'.cache
      ensures CachedOk(c, st', t)
    {
      assert CachedOk(c, st, t);
    }
  }

  lemma WriteBaseKeepsIntegrity(c: Config, st: Store, bi: BlockInfo, chunkSize: int, now: int)
    requires Integrity(c, st) && EntryOk(st, bi) && DataSized(c, st.cache)
    ensures var r := WriteBase(c, st, bi, chunkSize, now);
            && r.Done? && Integrity(c, r.value.0) && SameBytes(st, r.value.0)
            && r.value.0 == st.(cache := r.value.0.cache) && r.value.0.cache.Keys == st.cache.Keys
            && (forall s :: s in st.cache ==> r.value.0.cache[s].useCount == st.cache[s].useCount)
            && (chunkSize < c.blockSize ==>
                 r.value.1 == if bi.attached && bi.storageBlockNum != 0 then Effective(st, bi.storageBlockNum) else Zeros(c.blockSize))
  {
    var s := bi.storageBlockNum;
    if bi.attached {
      assert CachedOk(c, st, s);
      RecacheKeepsIntegrity(c, st, s, st.cache[s].(atime := now));
      if s != 0 && chunkSize < c.blockSize {
        assert RowOk(c, st, s);
        PopulateKeepsIntegrity(c, Touch(st, s, now), s);
      }
    }
  }

  // ---------- Writing a block ----------

  /** Changing counts, in rows and in the cache, does not touch bytes. */
  lemma RecountKeepsIntegrity(c: Config, st: Store, st': Store)
    requires Integrity(c, st)
    requires st' == st.(rows := st'.rows, cache := st'.cache, fileBlocks := st'.fileBlocks)
    requires st'.rows.Keys == st.rows.Keys
    requires forall id :: id in st.rows ==> st'.rows[id].hash == st.rows[id].hash
    requires SameButCounts(st.cache, st'.cache)
    requires 0 in st.cache ==> st'.cache[0].useCount <= 0
    ensures Integrity(c, st') && SameBytes(st, st')
  {
    forall id | id in st.rows
      ensures RowOk(c, st', id) && Effective(st', id) == Effective(st, id)
    {
      assert RowOk(c, st, id);
    }
    forall s | s in st'.cache
      ensures CachedOk(c, st', s)
    {
      assert CachedOk(c, st, s);
    }
  }

  /** The row `id` gets new bytes, in the cache and dirty, whose hash is new to the table. */
  lemma RewriteKeepsIntegrity(c: Config, st: Store, st': Store, id: int, data: Block)
    requires Integrity(c, st) && |data| == c.blockSize
    requires forall a :: a in st.rows ==> st.rows[a].hash != c.hash(data)
    requires st'.disk == st.disk && 1 <= id <= st'.lastRowId && st.lastRowId <= st'.lastRowId
    requires st'.rows.Keys == st.rows.Keys + {id} && st'.rows[id].hash == c.hash(data)
    requires st'.cache.Keys == st.cache.Keys + {id}
    requires st'.cache[id].data == data && st'.cache[id].dirty
    requires forall a :: a in st.rows && a != id ==> st'.rows[a].hash == st.rows[a].hash
    requires forall s :: s in st.cache && s != id ==> st'.cache[s] == st.cache[s].(useCount := st'.cache[s].useCount)
    requires 0 in st.cache ==> st'.cache[0].useCount <= 0
    ensures Integrity(c, st')
    ensures Effective(st', id) == data
    ensures forall a :: a in st.rows && a != id ==> Stored(st', a) && Effective(st', a) == Effective(st, a)
  {
    forall a | a in st'.rows
      ensures RowOk(c, st', a)
      ensures a != id ==> Effective(st', a) == Effective(st, a)
    {
      if a != id {
        assert RowOk(c, st, a);
      }
    }
    forall s | s in st'.cache
      ensures CachedOk(c, st', s)
    {
      if s != id {
        assert CachedOk(c, st, s);
      }
    }
  }

  lemma ShareKeepsIntegrity(c: Config, st: Store, h: Handle, n: int, hash: Digest, id: int)
    requires Integrity(c, st) && n in h.blocks && EntryOk(st, h.blocks[n]) && FindRow(st.rows, hash) == Some(id)
    ensures var st1 := Share(st, h, n, hash, id).0;
            var st' := st1.(cache := BumpCached(st1.cache, id, 1));
            && Integrity(c, st') && SameBytes(st, st')
            && st'.rows.Keys == st.rows.Keys && st'.cache.Keys == st.cache.Keys
  {
    hide Effective, Stored, BumpRows, BumpCached, StoreCount, Dereferenced;
    var st1 := Share(st, h, n, hash, id).0;
    if 0 in st.cache {
      assert CachedOk(c, st, 0);
    }
    assert RowOk(c, st, id);
    RecountKeepsIntegrity(c, st, st1.(cache := BumpCached(st1.cache, id, 1)));
  }

  lemma OverwriteKeepsIntegrity(c: Config, st: Store, h: Handle, n: int, data: Block, now: int)
    requires Integrity(c, st) && |data| == c.blockSize
    requires n in h.blocks && EntryOk(st, h.blocks[n]) && h.blocks[n].attached
    requires FindRow(st.rows, c.hash(data)).None? && st.cache[h.blocks[n].storageBlockNum].useCount == 1
    ensures var (st1, h1) := Overwrite(st, h, n, c.hash(data));
            var st' := PutData(c, st1, h1, n, data, now).0;
            var s := h.blocks[n].storageBlockNum;
            && Integrity(c, st') && s in st.rows && Effective(st', s) == data
            && st'.rows.Keys == st.rows.Keys && st'.cache.Keys == st.cache.Keys
            && forall a :: a in st.rows && a != s ==> Effective(st', a) == Effective(st, a)
  {
    hide Effective, Stored, BumpRows, BumpCached, StoreCount, Dereferenced;
    var (st1, h1) := Overwrite(st, h, n, c.hash(data));
    var st' := PutData(c, st1, h1, n, data, now).0;
    var s := h.blocks[n].storageBlockNum;
    assert CachedOk(c, st, s);
    assert RowOk(c, st, s);
    if 0 in st.cache {
      assert CachedOk(c, st, 0);
    }
    RewriteKeepsIntegrity(c, st, st', s, data);
  }

  lemma NextIdIsNew(c: Config, st: Store)
    requires Integrity(c, st)
    ensures var id := st.lastRowId + 1;
            id >= 1 && id !in st.rows && id !in st.cache
    ensures 0 in st.cache ==> st.cache[0].useCount <= 0
  {
    var id := st.lastRowId + 1;
    assert id in st.rows ==> RowOk(c, st, id);
    assert id in st.cache ==> CachedOk(c, st, id);
    if 0 in st.cache {
      assert CachedOk(c, st, 0);
    }
  }

  lemma AllocateKeepsIntegrity(c: Config, st: Store, h: Handle, n: int, data: Block, now: int)
    requires Integrity(c, st) && |data| == c.blockSize
    requires n in h.blocks && EntryOk(st, h.blocks[n])
    requires FindRow(st.rows, c.hash(data)).None?
    ensures var (st1, h1) := Allocate(st, h, n, c.hash(data));
            var st' := PutData(c, st1, h1, n, data, now).0;
            var id := st.lastRowId + 1;
            && Integrity(c, st') && id !in st.rows && id !in st.cache && Effective(st', id) == data
            && st'.rows.Keys == st.rows.Keys + {id} && st'.cache.Keys == st.cache.Keys + {id}
            && forall a :: a in st.rows ==> Effective(st', a) == Effective(st, a)
  {
    hide RowOk, CachedOk, Effective, Stored, BumpRows, BumpCached, StoreCount, Dereferenced;
    var (st1, h1) := Allocate(st, h, n, c.hash(data));
    var st' := PutData(c, st1, h1, n, data, now).0;
    NextIdIsNew(c, st);
    RewriteKeepsIntegrity(c, st, st', st.lastRowId + 1, data);
  }

  /** Whatever the entry, writing a block through it keeps integrity and every handle well-formed. */
  lemma WriteBlockKeepsIntegrity(c: Config, st: Store, h: Handle, n: int, data: Block, now: int)
    requires Integrity(c, st) && HandleOk(st, h) && n in h.blocks && |data| == c.blockSize
    ensures var (st', h') := WriteBlock(c, st, h, n, data, now);
            && Integrity(c, st') && HandleOk(st', h')
            && st.rows.Keys <= st'.rows.Keys && st.cache.Keys <= st'.cache.Keys
  {
    hide Effective, Stored, Integrity, StoreCount, BumpRows, Dereferenced;
    var bi := h.blocks[n];
    match FindRow(st.rows, c.hash(data))
    case Some(id) =>
      ShareKeepsIntegrity(c, st, h, n, c.hash(data), id);
    case None =>
      if bi.attached && st.cache[bi.storageBlockNum].useCount == 1 {
        OverwriteKeepsIntegrity(c, st, h, n, data, now);
      } else {
        AllocateKeepsIntegrity(c, st, h, n, data, now);
      }
  }

  // ---------- Releasing, resizing, flushing, evicting ----------

  lemma ReleaseKeepsIntegrity(c: Config, st: Store, h: Handle, n: int)
    requires Integrity(c, st) && HandleOk(st, h)
    requires ReleaseBlock(c, st, h, n).Done?
    ensures var (st', h') := ReleaseBlock(c, st, h, n).value;
            && Integrity(c, st') && HandleOk(st', h') && SameBytes(st, st')
            && st.rows.Keys == st'.rows.Keys && st.cache.Keys == st'.cache.Keys
  {
    hide Effective, Stored, LoadFileBlock, EntryOk, BumpRows, BumpCached;
    var (st', h') := ReleaseBlock(c, st, h, n).value;
    if 0 in st.cache {
      assert CachedOk(c, st, 0);
    }
    RecountKeepsIntegrity(c, st, st');
    assert HandleOk(st, h');
    HandlesStayOk(st, st', h');
  }

  /** Writing dirty blocks to their slots changes no block's bytes and leaves nothing dirty. */
  lemma FlushKeepsIntegrity(c: Config, st: Store)
    requires Integrity(c, st)
    ensures var st' := FlushAll(st);
            && Integrity(c, st') && SameBytes(st, st')
            && st'.cache.Keys == st.cache.Keys
            && (forall s :: s in st'.cache ==> !st'.cache[s].dirty && st'.cache[s].useCount == st.cache[s].useCount)
  {
    var st' := FlushAll(st);
    forall id | id in st.rows
      ensures RowOk(c, st', id) && Effective(st', id) == Effective(st, id)
    {
      assert RowOk(c, st, id);
      if id in st.cache {
        assert CachedOk(c, st, id);
      }
    }
    forall s | s in st'.cache
      ensures CachedOk(c, st', s)
    {
      assert CachedOk(c, st, s);
    }
  }

  /** Forgetting clean blocks changes no block's bytes. */
  lemma EvictKeepsIntegrity(c: Config, st: Store, evicted: set<int>)
    requires Integrity(c, st)
    requires forall s :: s in st.cache ==> !st.cache[s].dirty
    ensures Integrity(c, Evict(st, evicted)) && SameBytes(st, Evict(st, evicted))
  {
    var st' := Evict(st, evicted);
    forall id | id in st.rows
      ensures RowOk(c, st', id) && Effective(st', id) == Effective(st, id)
    {
      assert RowOk(c, st, id);
      if id in st.cache {
        assert CachedOk(c, st, id);
      }
    }
    forall s | s in st'.cache
      ensures CachedOk(c, st', s)
    {
      assert CachedOk(c, st, s);
    }
  }

  lemma ExpireKeepsHandles(st: Store, h: Handle, evicted: set<int>)
    requires HandleOk(st, h)
    ensures HandleOk(Evict(st, evicted), Expire(h, evicted))
  {
  }
}
