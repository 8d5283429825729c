/**
 Access times: which blocks a read or a write marks as just used, and that a pass leaves those in the cache.
 */
module StoreAccess {
  import opened Bytes
  import opened StoreModel
  import opened StoreIntegrity
  import opened StorePasses

  /** Cached blocks, but those of `used`, are still cached and have the access times they had. */
  ghost predicate OthersUntouched(st: Store, st': Store, used: set<int>) {
    forall s :: s in st.cache && s !in used ==> s in st'.cache && st'.cache[s].atime == st.cache[s].atime
  }

  /** The block of that number is cached and was accessed at that time. */
  ghost predicate AccessedAt(st: Store, s: int, now: int) {
    s in st.cache && st.cache[s].atime == now
  }

  /** The block an entry points to, if any. */
  function PointsTo(bi: BlockInfo): set<int> {
    if bi.attached then {bi.storageBlockNum} else {}
  }

  /** A lookup touches no block that is cached already, and a block it caches is cached as accessed now. */
  lemma GetTouches(c: Config, st: Store, h: Handle, n: int, now: int)
    requires GetFileBlock(c, st, h, n, now).Done?
    ensures var (st', h') := GetFileBlock(c, st, h, n, now).value;
            && OthersUntouched(st, st', {})
            && forall s :: s in st'.cache && s !in st.cache ==> s in PointsTo(h'.blocks[n]) && AccessedAt(st', s, now)
  {
    hide LoadFileBlock;
  }

  /** A read marks the block it reads as accessed now, and no other. */
  lemma ReadTouches(c: Config, st: Store, h: Handle, n: int, offset: int, len: int, now: int)
    requires HandleOk(st, h) && DataSized(c, st.cache) && 0 <= offset && 0 <= len && offset + len <= c.blockSize
    requires ReadChunk(c, st, h, n, offset, len, now).Done?
    ensures var (st', h', _) := ReadChunk(c, st, h, n, offset, len, now).value;
            && n in h'.blocks
            && (h'.blocks[n].attached ==> AccessedAt(st', h'.blocks[n].storageBlockNum, now))
            && OthersUntouched(st, st', PointsTo(h'.blocks[n]))
  {
    hide GetFileBlock;
    GetTouches(c, st, h, n, now);
  }

  /** A write leaves access times alone, but for a new block. */
  lemma WriteBlockTouches(c: Config, st: Store, h: Handle, n: int, data: Block, now: int)
    requires Integrity(c, st) && HandleOk(st, h) && n in h.blocks
    ensures var (st', h') := WriteBlock(c, st, h, n, data, now);
            && n in h'.blocks && OthersUntouched(st, st', {})
            && (h'.blocks[n].attached ==>
                 var s := h'.blocks[n].storageBlockNum;
                 s in st'.cache && (st'.cache[s].atime == now || (s in PointsTo(h.blocks[n]) && s in st.cache)))
  {
    hide BumpRows, StoreCount, RowOk, CachedOk, BumpCached, Dereferenced, FindRow;
    NextIdIsNew(c, st);
  }

  /** A chunk marks the block its entry pointed to, and the one it points to then, as accessed now, and no other. */
  lemma WriteTouches(c: Config, st: Store, h: Handle, n: int, offset: int, chunk: seq<Byte>, now: int)
    requires Integrity(c, st) && HandleOk(st, h) && DataSized(c, st.cache) && 0 <= offset && offset + |chunk| <= c.blockSize
    requires WriteChunk(c, st, h, n, offset, chunk, now).Done?
    ensures GetFileBlock(c, st, h, n, now).Done?
    ensures var (st', h') := WriteChunk(c, st, h, n, offset, chunk, now).value;
            var before := GetFileBlock(c, st, h, n, now).value.1.blocks[n];
            && n in h'.blocks
            && (h'.blocks[n].attached ==> AccessedAt(st', h'.blocks[n].storageBlockNum, now))
            && (before.attached ==> AccessedAt(st', before.storageBlockNum, now))
            && OthersUntouched(st, st', PointsTo(before))
  {
    hide Integrity, GetFileBlock, WriteBase, WriteBlock;
    GetTouches(c, st, h, n, now);
    GetKeepsIntegrity(c, st, h, n, now);
    var (st1, h1) := GetFileBlock(c, st, h, n, now).value;
    WriteBaseKeepsIntegrity(c, st1, h1.blocks[n], |chunk|, now);
    BaseTouches(c, st1, h1.blocks[n], |chunk|, now);
    var (st2, base) := WriteBase(c, st1, h1.blocks[n], |chunk|, now).value;
    HandlesStayOk(st1, st2, h1);
    WriteBlockTouches(c, st2, h1, n, Splice(base, offset, chunk), now);
  }

  lemma BaseTouches(c: Config, st: Store, bi: BlockInfo, size: int, now: int)
    requires EntryOk(st, bi) && DataSized(c, st.cache) && WriteBase(c, st, bi, size, now).Done?
    ensures var st' := WriteBase(c, st, bi, size, now).value.0;
            && OthersUntouched(st, st', PointsTo(bi))
            && (bi.attached ==> AccessedAt(st', bi.storageBlockNum, now))
  {
  }

  /**
   A block just read stays in the cache through the next pass, and the handle's pointer to it alive, if some cached block
   was not accessed for ten seconds.
   */
  lemma ReadBlockStays(
      c: Config, st: Store, h: Handle, n: int, offset: int, len: int, now: int, later: int, evicted: set<int>, t: int)
    requires HandleOk(st, h) && DataSized(c, st.cache) && 0 <= offset && 0 <= len && offset + len <= c.blockSize
    requires ReadChunk(c, st, h, n, offset, len, now).Done?
    requires var (st', h', _) := ReadChunk(c, st, h, n, offset, len, now).value;
             && n in h'.blocks && h'.blocks[n].attached
             && Evictable(st'.cache, later, evicted) && now <= later && t in st'.cache && st'.cache[t].atime + 10 <= now
    ensures var (st', h', _) := ReadChunk(c, st, h, n, offset, len, now).value;
            var s := h'.blocks[n].storageBlockNum;
            && s in Evict(FlushAll(st'), evicted).cache && Expire(h', evicted).blocks[n].attached
            && Evict(FlushAll(st'), evicted).cache[s].atime == now
  {
    hide ReadChunk, Evictable;
    ReadTouches(c, st, h, n, offset, len, now);
    var (st', h', _) := ReadChunk(c, st, h, n, offset, len, now).value;
    UsedStays(st'.cache, later, evicted, h'.blocks[n].storageBlockNum, t);
  }
}
