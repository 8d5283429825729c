/**
 First lookups in any store, and what cached blocks carry: the exact outcome for handles whose size is out of date, for
 references without a row, and the hash that a cached block is labelled with.
 */
module StoreLookups {
  import opened Basics
  import opened Bytes
  import opened StoreModel
  import opened StoreIntegrity

  /** The block is within the size that the handle knows, and some row has its hash. */
  ghost predicate Reached(c: Config, st: Store, h: Handle, n: int) {
    var k := Key(h.ino, n);
    n * c.blockSize <= h.size && k in st.fileBlocks && FindRow(st.rows, st.fileBlocks[k]).Some?
  }

  /** The assertion on counts fails for a block that is cached with another count than its row has. */
  ghost predicate Miscounted(st: Store, k: Key)
    requires k in st.fileBlocks && FindRow(st.rows, st.fileBlocks[k]).Some?
  {
    var s := FindRow(st.rows, st.fileBlocks[k]).value;
    s in st.cache && st.rows[s].useCount != 0 && st.cache[s].useCount != st.rows[s].useCount
  }

  /**
   A read of a block the handle has no entry for, in any store: it fails if and only if the block is reached and
   miscounted. It returns the bytes of the row if the block is reached, and zeros for a hole, behind the size
   that the handle knows, and for a reference without a row.
   */
  lemma FirstRead(c: Config, st: Store, h: Handle, n: int, offset: int, len: int, now: int)
    requires Integrity(c, st) && HandleOk(st, h) && DataSized(c, st.cache) && n !in h.blocks
    requires 0 <= offset && 0 <= len && offset + len <= c.blockSize
    ensures var k := Key(h.ino, n);
            var r := ReadChunk(c, st, h, n, offset, len, now);
            && (r.Done? <==> !(Reached(c, st, h, n) && Miscounted(st, k)))
            && (r.Done? ==>
                 if Reached(c, st, h, n) then
                   var s := FindRow(st.rows, st.fileBlocks[k]).value;
                   Stored(st, s) && |Effective(st, s)| == c.blockSize && r.value.2 == Effective(st, s)[offset..offset + len]
                 else r.value.2 == Zeros(len))
  {
    hide RowOk, CachedOk, Effective, Stored, Populate;
    ZeroIsNoRow(c, st);
    if GetFileBlock(c, st, h, n, now).Done? {
      GetKeepsIntegrity(c, st, h, n, now);
      var (st1, h1) := GetFileBlock(c, st, h, n, now).value;
      var s := h1.blocks[n].storageBlockNum;
      if Reached(c, st, h, n) {
        assert RowOk(c, st, s);
        AttachedRead(c, st, st1, s, now);
      }
    }
  }

  lemma AttachedRead(c: Config, st: Store, st1: Store, s: int, now: int)
    requires Integrity(c, st1) && SameBytes(st, st1) && RowInPlace(c, st, s) && s in st1.cache && s != 0
    ensures Stored(st, s) && |Effective(st, s)| == c.blockSize
    ensures var r := Populate(c, Touch(st1, s, now), s);
            r.Done? && s in r.value.cache && r.value.cache[s].data == Effective(st, s)
  {
    hide CachedOk, Stored, Effective;
    assert CachedOk(c, st1, s) by {
      CachedIsOk(c, st1, s);
    }
    RecacheKeepsIntegrity(c, st1, s, st1.cache[s].(atime := now));
    PopulateKeepsIntegrity(c, Touch(st1, s, now), s);
  }

  ghost predicate RowInPlace(c: Config, st: Store, s: int) {
    s in st.rows && RowOk(c, st, s)
  }

  lemma CachedIsOk(c: Config, st: Store, s: int)
    requires Integrity(c, st) && s in st.cache
    ensures CachedOk(c, st, s)
  {
  }

  /**
   A release of a block the handle has no entry for, in any store: it completes if and only if the file has the block and
   the size that the handle knows reaches it. A reference without a row is dropped like others. The count of a cached
   block is lowered if and only if it is the row of that reference.
   */
  lemma FirstRelease(c: Config, st: Store, h: Handle, n: int)
    requires n !in h.blocks && 0 !in st.rows
    ensures var r := ReleaseBlock(c, st, h, n);
            && (r.Done? <==> n * c.blockSize <= h.size && Key(h.ino, n) in st.fileBlocks)
            && (r.Done? ==>
                 && r.value.0.fileBlocks == st.fileBlocks - {Key(h.ino, n)} && r.value.0.sizes == st.sizes
                 && r.value.0.cache.Keys == st.cache.Keys
                 && forall s :: s in st.cache ==>
                      r.value.0.cache[s].useCount
                      == st.cache[s].useCount
                         - (if FindRow(st.rows, st.fileBlocks[Key(h.ino, n)]) == Some(s) then 1 else 0))
  {
    hide BumpRows, BumpCached;
  }

  /** A size is set through a handle unless the handle takes the file to have it already. */
  lemma SizeIsSet(st: Store, h: Handle, newSize: int)
    requires h.ino in st.sizes
    ensures var (st', h') := Ftruncate(st, h, newSize);
            && h'.size == newSize && st'.sizes.Keys == st.sizes.Keys
            && (st'.sizes[h.ino] == newSize <==> h.size != newSize || st.sizes[h.ino] == newSize)
  {
  }

  // ---------- When a lookup, a read and a write complete ----------

  /** The entry that a lookup starts from, and the count of its row if the entry is new. */
  ghost function EntryFor(c: Config, st: Store, h: Handle, n: int): (BlockInfo, int) {
    if n in h.blocks then (h.blocks[n], 0)
    else if Reached(c, st, h, n) then
      var s := FindRow(st.rows, st.fileBlocks[Key(h.ino, n)]).value;
      (BlockInfo(s, Some(st.rows[s].hash), false, false), st.rows[s].useCount)
    else if n * c.blockSize <= h.size && Key(h.ino, n) in st.fileBlocks then (BlockInfo(0, Some([]), false, false), 0)
    else (BlockInfo(0, None, true, false), 0)
  }

  /**
   In any store a lookup completes if and only if the entry counts as empty or has a pointer, or its block is not cached,
   or is cached with the count that was loaded, where a count of 0 matches any.
   */
  lemma LookupOutcome(c: Config, st: Store, h: Handle, n: int, now: int)
    ensures var (bi, useCount) := EntryFor(c, st, h, n);
            var s := bi.storageBlockNum;
            GetFileBlock(c, st, h, n, now).Done? <==>
              || bi.empty || bi.attached || s !in st.cache || useCount == 0 || st.cache[s].useCount == useCount
  {
  }

  /** The bytes of a block are there: cached, or in a slot that can be read in. */
  ghost predicate Readable(c: Config, st: Store, s: int) {
    || s == 0 || (s in st.cache && st.cache[s].data != [])
    || (s in st.disk && |st.disk[s]| == c.blockSize)
  }

  /** In any store a read completes if and only if the lookup does, and the block it then points to can be read. */
  lemma ReadOutcome(c: Config, st: Store, h: Handle, n: int, offset: int, len: int, now: int)
    requires HandleOk(st, h) && DataSized(c, st.cache) && 0 <= offset && 0 <= len && offset + len <= c.blockSize
    ensures var g := GetFileBlock(c, st, h, n, now);
            ReadChunk(c, st, h, n, offset, len, now).Done? <==>
              && g.Done?
              && (g.value.1.blocks[n].attached ==> Readable(c, g.value.0, g.value.1.blocks[n].storageBlockNum))
  {
    hide GetFileBlock;
  }

  /**
   In any store a write completes if and only if the lookup does, and, unless all of the block is written, the block it
   then points to can be read.
   */
  lemma WriteOutcome(c: Config, st: Store, h: Handle, n: int, offset: int, chunk: seq<Byte>, now: int)
    requires HandleOk(st, h) && DataSized(c, st.cache) && 0 <= offset && offset + |chunk| <= c.blockSize
    ensures var g := GetFileBlock(c, st, h, n, now);
            WriteChunk(c, st, h, n, offset, chunk, now).Done? <==>
              && g.Done?
              && (g.value.1.blocks[n].attached && |chunk| < c.blockSize ==>
                   Readable(c, g.value.0, g.value.1.blocks[n].storageBlockNum))
  {
    hide GetFileBlock, WriteBlock;
  }

  // ---------- Labels of cached blocks ----------

  /** Every cached block of a row is labelled with the hash of the row, and known to be loaded. */
  ghost predicate Labelled(st: Store) {
    forall s :: s in st.cache && s in st.rows ==> st.cache[s].hash == Some(st.rows[s].hash) && st.cache[s].loaded
  }

  /** A lookup keeps the labels right if and only if it caches no block under the hash of an entry that is out of date. */
  lemma GetKeepsLabels(c: Config, st: Store, h: Handle, n: int, now: int)
    requires Integrity(c, st) && Labelled(st) && GetFileBlock(c, st, h, n, now).Done?
    ensures Labelled(GetFileBlock(c, st, h, n, now).value.0) <==>
              !(n in h.blocks
                && var bi := h.blocks[n];
                   var s := bi.storageBlockNum;
                   !bi.empty && !bi.attached && s !in st.cache && s in st.rows && bi.hash != Some(st.rows[s].hash))
  {
    hide RowOk, CachedOk;
    ZeroIsNoRow(c, st);
  }

  lemma RecountKeepsLabels(st: Store, st': Store)
    requires Labelled(st) && SameButCounts(st.cache, st'.cache) && st'.rows.Keys == st.rows.Keys
    requires forall id :: id in st.rows ==> st'.rows[id].hash == st.rows[id].hash
    ensures Labelled(st')
  {
  }

  lemma OverwriteKeepsLabels(c: Config, st: Store, h: Handle, n: int, data: Block, now: int)
    requires Labelled(st) && n in h.blocks && EntryOk(st, h.blocks[n]) && h.blocks[n].attached
    ensures var (st1, h1) := Overwrite(st, h, n, c.hash(data));
            Labelled(PutData(c, st1, h1, n, data, now).0)
  {
    hide StoreCount;
  }

  lemma AllocateKeepsLabels(c: Config, st: Store, h: Handle, n: int, data: Block, now: int)
    requires Integrity(c, st) && Labelled(st) && n in h.blocks && EntryOk(st, h.blocks[n])
    ensures var (st1, h1) := Allocate(st, h, n, c.hash(data));
            Labelled(PutData(c, st1, h1, n, data, now).0)
  {
    hide RowOk, CachedOk, StoreCount, Dereferenced;
    NextIdIsNew(c, st);
  }

  /** A write keeps the labels right, through any entry. */
  lemma WriteKeepsLabels(c: Config, st: Store, h: Handle, n: int, data: Block, now: int)
    requires Integrity(c, st) && Labelled(st) && n in h.blocks && EntryOk(st, h.blocks[n])
    ensures Labelled(WriteBlock(c, st, h, n, data, now).0)
  {
    hide Integrity, FindRow, Overwrite, Allocate, PutData, StoreCount, BumpCached, BumpRows, Dereferenced, Labelled;
    match FindRow(st.rows, c.hash(data))
    case Some(id) =>
      RecountKeepsLabels(st, WriteBlock(c, st, h, n, data, now).0);
    case None =>
      if h.blocks[n].attached && st.cache[h.blocks[n].storageBlockNum].useCount == 1 {
        OverwriteKeepsLabels(c, st, h, n, data, now);
      } else {
        AllocateKeepsLabels(c, st, h, n, data, now);
      }
  }
}
