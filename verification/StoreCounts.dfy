/**
 Counts after a write through an entry that names the row of its block, whether it may be used again or not, and
 whether the counts of that row were right before or wrong.
 */
module StoreCounts {
  import opened Basics
  import opened StoreModel
  import opened StoreIntegrity
  import opened StoreExact

  /** The handle knows block `n`, which is allocated, and its entry names the row of the block. */
  ghost predicate Names(st: Store, h: Handle, n: int) {
    && n in h.blocks && Key(h.ino, n) in st.fileBlocks
    && FindRow(st.rows, st.fileBlocks[Key(h.ino, n)]) == Some(h.blocks[n].storageBlockNum)
  }

  /** All references are found, and all counts exact but, possibly, those of row `s`. */
  ghost predicate ExactBut(st: Store, s: int) {
    && AllFound(st)
    && (forall id :: id in st.rows && id != s ==> st.rows[id].useCount == Refs(st.fileBlocks, st.rows[id].hash))
    && (forall t :: t in st.cache ==> t in st.rows && (t != s ==> st.cache[t].useCount == st.rows[t].useCount))
  }

  /** Row `s` has that count, and so has its cached block if there is one. */
  ghost predicate Counts(st: Store, s: int, count: int)
    requires s in st.rows
  {
    st.rows[s].useCount == count && (s in st.cache ==> st.cache[s].useCount == count)
  }

  lemma ExactIsExactBut(st: Store, s: int)
    requires s in st.rows
    ensures Exact(st) <==> ExactBut(st, s) && Counts(st, s, Refs(st.fileBlocks, st.rows[s].hash))
  {
    hide Refs, AllFound;
  }

  /**
   What a block write needs of the counts of the old row. An attached entry gives the row the count of its
   cached block, less one; a detached one leaves the row alone, which then has to be one too low already.
   */
  ghost predicate WriteSettlesCounts(c: Config, st: Store, h: Handle, n: int, data: Block)
    requires Names(st, h, n) && EntryOk(st, h.blocks[n])
  {
    var bi := h.blocks[n];
    var was := st.fileBlocks[Key(h.ino, n)];
    if bi.attached then
      st.cache[bi.storageBlockNum].useCount == Refs(st.fileBlocks, was) && c.hash(data) != was
    else
      Counts(st, bi.storageBlockNum, Refs(st.fileBlocks, was) - 1)
  }

  /** References after block `k` moved from row `s` to another hash, or to the same. */
  lemma RefsAfterMove(st: Store, k: Key, hash: Digest, s: int)
    requires k in st.fileBlocks && FindRow(st.rows, st.fileBlocks[k]) == Some(s)
    ensures Refs(st.fileBlocks[k := hash], st.rows[s].hash)
         == Refs(st.fileBlocks, st.fileBlocks[k]) - (if st.rows[s].hash == hash then 0 else 1)
  {
    hide Refs;
    RefsAfterPut(st.fileBlocks, k, hash, st.rows[s].hash);
  }

  // ---------- Sharing ----------

  /** Sharing row `id` adds one to its counts; the old row loses one if the entry is attached. */
  lemma ShareMoves(st: Store, h: Handle, n: int, hash: Digest, id: int)
    requires UniqueHashes(st.rows) && n in h.blocks && EntryOk(st, h.blocks[n]) && FindRow(st.rows, hash) == Some(id)
    ensures var st1 := Share(st, h, n, hash, id).0;
            var cache := BumpCached(st1.cache, id, 1);
            var bi := h.blocks[n];
            var s := bi.storageBlockNum;
            && st1.rows.Keys == st.rows.Keys && cache.Keys == st.cache.Keys
            && st1.fileBlocks == st.fileBlocks[Key(h.ino, n) := hash]
            && (forall a :: a in st.rows ==>
                 && st1.rows[a].hash == st.rows[a].hash
                 && st1.rows[a].useCount == if bi.attached && a == s then st.cache[s].useCount - 1
                                            else st.rows[a].useCount + if a == id then 1 else 0)
            && (forall t :: t in st.cache ==>
                 cache[t].useCount
                 == st.cache[t].useCount + (if t == id then 1 else 0) - (if bi.attached && t == s then 1 else 0))
  {
    hide BumpCached, Dereferenced;
    forall a | a in st.rows
      ensures st.rows[a].hash == hash <==> a == id
    {
    }
  }

  /** When the other counts moved with the references, it is for those of the old row to be right. */
  lemma MovedCounts(st: Store, st': Store, k: Key, hash: Digest, s: int, id: int)
    requires UniqueHashes(st.rows) && k in st.fileBlocks && FindRow(st.rows, st.fileBlocks[k]) == Some(s) && ExactBut(st, s)
    requires FindRow(st.rows, hash) == Some(id) && st'.fileBlocks == st.fileBlocks[k := hash]
    requires st'.rows.Keys == st.rows.Keys && st'.cache.Keys == st.cache.Keys
    requires forall a :: a in st.rows ==> st'.rows[a].hash == st.rows[a].hash
    requires forall a :: a in st.rows && a != s ==> st'.rows[a].useCount == st.rows[a].useCount + (if a == id then 1 else 0)
    requires forall t :: t in st.cache && t != s ==> st'.cache[t].useCount == st.cache[t].useCount + (if t == id then 1 else 0)
    ensures Exact(st') <==> Counts(st', s, Refs(st.fileBlocks, st.fileBlocks[k]) - (if s == id then 0 else 1))
  {
    hide Refs, UniqueHashes, FindRow, AllFound, Exact;
    RefsAfterMove(st, k, hash, s);
    OneRowPerHash(st, s, id);
    ExactIsExactBut(st', s);
    if Counts(st', s, Refs(st.fileBlocks, st.fileBlocks[k]) - (if s == id then 0 else 1)) {
      ExactAfterMove(st, st', k, hash, id);
    }
  }

  lemma SharedCounts(c: Config, st: Store, h: Handle, n: int, data: Block, id: int)
    requires UniqueHashes(st.rows) && Names(st, h, n) && EntryOk(st, h.blocks[n])
    requires ExactBut(st, h.blocks[n].storageBlockNum) && FindRow(st.rows, c.hash(data)) == Some(id)
    ensures var st1 := Share(st, h, n, c.hash(data), id).0;
            Exact(st1.(cache := BumpCached(st1.cache, id, 1))) <==> WriteSettlesCounts(c, st, h, n, data)
  {
    hide Refs, BumpCached, UniqueHashes, FindRow, ExactBut, Exact;
    var k, s := Key(h.ino, n), h.blocks[n].storageBlockNum;
    var st1 := Share(st, h, n, c.hash(data), id).0;
    ShareMoves(st, h, n, c.hash(data), id);
    hide Share;
    MovedCounts(st, st1.(cache := BumpCached(st1.cache, id, 1)), k, c.hash(data), s, id);
    OneRowPerHash(st, s, id);
  }

  lemma OneRowPerHash(st: Store, a: int, b: int)
    requires UniqueHashes(st.rows) && a in st.rows && b in st.rows
    ensures st.rows[a].hash == st.rows[b].hash <==> a == b
  {
  }

  // ---------- Overwriting and allocating ----------

  /** Overwriting in place is right for a sole owner and loses the others. */
  lemma OverwrittenCounts(c: Config, st: Store, h: Handle, n: int, data: Block, now: int)
    requires UniqueHashes(st.rows) && Names(st, h, n) && EntryOk(st, h.blocks[n])
    requires ExactBut(st, h.blocks[n].storageBlockNum) && FindRow(st.rows, c.hash(data)).None?
    requires h.blocks[n].attached && st.cache[h.blocks[n].storageBlockNum].useCount == 1
    ensures var (st1, h1) := Overwrite(st, h, n, c.hash(data));
            Exact(PutData(c, st1, h1, n, data, now).0) <==> WriteSettlesCounts(c, st, h, n, data)
  {
    hide Refs, UniqueHashes, FindRow;
    var k, s := Key(h.ino, n), h.blocks[n].storageBlockNum;
    var (st1, h1) := Overwrite(st, h, n, c.hash(data));
    var st' := PutData(c, st1, h1, n, data, now).0;
    if Refs(st.fileBlocks, st.fileBlocks[k]) == 1 {
      ExactAfterRewrite(st, st', k, c.hash(data), s);
    } else {
      RefsAfterMove(st, k, c.hash(data), s);
      if Exact(st') {
        NoRowNoReference(st', st.fileBlocks[k]);
      }
    }
  }

  /** A new row counts one reference, and no other row has changed but that of an attached entry. */
  lemma AllocateMoves(c: Config, st: Store, h: Handle, n: int, data: Block, now: int)
    requires Integrity(c, st) && n in h.blocks && EntryOk(st, h.blocks[n])
    ensures var (st1, h1) := Allocate(st, h, n, c.hash(data));
            var st' := PutData(c, st1, h1, n, data, now).0;
            var bi := h.blocks[n];
            var s := bi.storageBlockNum;
            var id := st.lastRowId + 1;
            && id !in st.rows && id !in st.cache
            && st'.fileBlocks == st.fileBlocks[Key(h.ino, n) := c.hash(data)]
            && st'.rows.Keys == st.rows.Keys + {id} && st'.rows[id] == Row(c.hash(data), 1)
            && st'.cache.Keys == st.cache.Keys + {id} && st'.cache[id].useCount == 1
            && (forall a :: a in st.rows ==>
                 && st'.rows[a].hash == st.rows[a].hash
                 && st'.rows[a].useCount == if bi.attached && a == s then st.cache[s].useCount - 1 else st.rows[a].useCount)
            && (forall t :: t in st.cache ==>
                 st'.cache[t].useCount == st.cache[t].useCount - (if bi.attached && t == s then 1 else 0))
  {
    hide Refs, RowOk, CachedOk, Dereferenced;
    NextIdIsNew(c, st);
  }

  /** With a new row for the new hash, it is for the counts of the old row to be right. */
  lemma AddedCounts(st: Store, st': Store, k: Key, hash: Digest, s: int, id: int)
    requires UniqueHashes(st.rows) && k in st.fileBlocks && FindRow(st.rows, st.fileBlocks[k]) == Some(s) && ExactBut(st, s)
    requires FindRow(st.rows, hash).None? && id !in st.rows && st'.fileBlocks == st.fileBlocks[k := hash]
    requires st'.rows.Keys == st.rows.Keys + {id} && st'.rows[id] == Row(hash, 1)
    requires st'.cache.Keys == st.cache.Keys + {id} && st'.cache[id].useCount == 1
    requires forall a :: a in st.rows ==> st'.rows[a].hash == st.rows[a].hash
    requires forall a :: a in st.rows && a != s ==> st'.rows[a].useCount == st.rows[a].useCount
    requires forall t :: t in st.cache && t != s ==> st'.cache[t].useCount == st.cache[t].useCount
    ensures Exact(st') <==> Counts(st', s, Refs(st.fileBlocks, st.fileBlocks[k]) - 1)
  {
    hide Refs, UniqueHashes, FindRow, AllFound, Exact;
    RefsAfterMove(st, k, hash, s);
    ExactIsExactBut(st', s);
    if Counts(st', s, Refs(st.fileBlocks, st.fileBlocks[k]) - 1) {
      ExactAfterRewrite(st, st', k, hash, id);
    }
  }

  lemma AllocatedCounts(c: Config, st: Store, h: Handle, n: int, data: Block, now: int)
    requires Integrity(c, st) && Names(st, h, n) && EntryOk(st, h.blocks[n])
    requires ExactBut(st, h.blocks[n].storageBlockNum) && FindRow(st.rows, c.hash(data)).None?
    ensures var (st1, h1) := Allocate(st, h, n, c.hash(data));
            Exact(PutData(c, st1, h1, n, data, now).0) <==> WriteSettlesCounts(c, st, h, n, data)
  {
    hide Refs, UniqueHashes, FindRow, ExactBut, Exact, Integrity, PutData, StoreCount, Dereferenced;
    HashesUnique(c, st);
    var (st1, h1) := Allocate(st, h, n, c.hash(data));
    AllocateMoves(c, st, h, n, data, now);
    var st' := PutData(c, st1, h1, n, data, now).0;
    AddedCounts(st, st', Key(h.ino, n), c.hash(data), h.blocks[n].storageBlockNum, st.lastRowId + 1);
  }

  // ---------- Writing a block ----------

  /**
   A block write through an entry that names the row of its block leaves exact counts if and only if it
   settles those of that row, whichever case it takes.
   */
  lemma NamedWriteCounts(c: Config, st: Store, h: Handle, n: int, data: Block, now: int)
    requires Integrity(c, st) && Names(st, h, n) && EntryOk(st, h.blocks[n]) && ExactBut(st, h.blocks[n].storageBlockNum)
    ensures Exact(WriteBlock(c, st, h, n, data, now).0) <==> WriteSettlesCounts(c, st, h, n, data)
  {
    hide Share, Overwrite, Allocate, PutData, Integrity, ExactBut, WriteSettlesCounts, Exact;
    HashesUnique(c, st);
    match FindRow(st.rows, c.hash(data))
    case Some(id) =>
      WriteBlockShares(c, st, h, n, data, now, id);
      SharedCounts(c, st, h, n, data, id);
    case None =>
      if h.blocks[n].attached && st.cache[h.blocks[n].storageBlockNum].useCount == 1 {
        OverwrittenCounts(c, st, h, n, data, now);
      } else {
        AllocatedCounts(c, st, h, n, data, now);
      }
  }
}
