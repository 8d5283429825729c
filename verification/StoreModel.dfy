/**
 The state of the deduplicating block store and the meaning of each of its block operations, as
 functions on values. `BlocksCache` holds the objects and methods that compute these functions.
 */
module StoreModel {
  import opened Basics
  import opened Bytes

  type Block = seq<Byte>
  type Digest = seq<Byte>
  type FileId = nat

  /** `Aborted`: a failed assertion, a null dereference or a failed read of the storage file. */
  datatype Outcome<+T> = Aborted | Done(value: T) {
    predicate IsFailure() { Aborted? }

    function PropagateFailure<U>(): Outcome<U>
      requires Aborted?
    {
      Aborted
    }

    function Extract(): T
      requires Done?
    {
      value
    }
  }

  /** The block size of the store and the hash it identifies blocks by. */
  datatype Settings = Settings(blockSize: int, hash: Block -> Digest)

  type Config = c: Settings | c.blockSize > 0 witness Settings(1, (b: Block) => b)

  // ---------- The three layers of state ----------

  /** Primary key of the table `file_blocks`. */
  datatype Key = Key(file: FileId, offset: int)

  /** A row of the table `block_hashes`. */
  datatype Row = Row(hash: Digest, useCount: int)

  /** The fields of a cached `storage_block`; empty `data` means it was not read in yet. */
  datatype Cached = Cached(useCount: int, hash: Option<Digest>, data: Block, dirty: bool, loaded: bool, atime: int)

  /** `lastRowId` is the largest key `block_hashes` has given out; its rows are never deleted. */
  datatype Store = Store(
    sizes: map<FileId, int>,
    fileBlocks: map<Key, Digest>,
    rows: map<int, Row>,
    lastRowId: int,
    cache: map<int, Cached>,
    disk: map<int, Block>)

  /**
   An entry of a handle's block table. `attached`: its weak pointer still points to a cached block,
   which then is the one cached under `storageBlockNum`.
   */
  datatype BlockInfo = BlockInfo(storageBlockNum: int, hash: Option<Digest>, empty: bool, attached: bool)

  /** A `file_info`: inode, the size it believes in, and its block table. */
  datatype Handle = Handle(ino: FileId, size: int, blocks: map<int, BlockInfo>)

  // ---------- Statements on the tables ----------

  /** The row that a lookup by hash finds. */
  ghost function FindRow(rows: map<int, Row>, h: Digest): (r: Option<int>)
    ensures r.Some? ==> r.value in rows && rows[r.value].hash == h
    ensures r.None? ==> forall id :: id in rows ==> rows[id].hash != h
  {
    if exists id :: id in rows && rows[id].hash == h then
      var id :| id in rows && rows[id].hash == h;
      Some(id)
    else
      None
  }

  /** `UPDATE block_hashes SET use_count = use_count + d WHERE hash = h` */
  function BumpRows(rows: map<int, Row>, h: Digest, d: int): (r: map<int, Row>)
    ensures r.Keys == rows.Keys && forall id :: id in rows ==> r[id].hash == rows[id].hash
  {
    map id | id in rows :: if rows[id].hash == h then Row(h, rows[id].useCount + d) else rows[id]
  }

  /** The same blocks are cached, with the same fields except for use counts. */
  ghost predicate SameButCounts(a: map<int, Cached>, b: map<int, Cached>) {
    a.Keys == b.Keys && forall s :: s in a ==> b[s] == a[s].(useCount := b[s].useCount)
  }

  /** The count of a cached block changed by `d`; nothing if the block is not cached. */
  function BumpCached(cache: map<int, Cached>, s: int, d: int): (r: map<int, Cached>)
    ensures SameButCounts(cache, r)
    ensures forall t :: t in cache ==> r[t].useCount == cache[t].useCount + (if t == s then d else 0)
  {
    if s in cache then cache[s := cache[s].(useCount := cache[s].useCount + d)] else cache
  }

  // ---------- Operations of DataBase ----------

  /** `loadFileBlock`: the entry for a block, and the use count of its row. */
  ghost function LoadFileBlock(c: Config, st: Store, ino: FileId, size: int, n: int): (BlockInfo, int) {
    var k := Key(ino, n);
    if n * c.blockSize > size || k !in st.fileBlocks then
      (BlockInfo(0, None, true, false), 0)
    else
      match FindRow(st.rows, st.fileBlocks[k])
      case Some(id) => (BlockInfo(id, Some(st.rows[id].hash), false, false), st.rows[id].useCount)
      case None => (BlockInfo(0, Some([]), false, false), 0)
  }

  /** The cache after the block an entry pointed to, if any, lost that reference. */
  function Dereferenced(cache: map<int, Cached>, bi: BlockInfo): (r: map<int, Cached>)
    ensures SameButCounts(cache, r)
    ensures forall t :: t in cache ==>
      r[t].useCount == cache[t].useCount - (if bi.attached && t == bi.storageBlockNum then 1 else 0)
  {
    if bi.attached then BumpCached(cache, bi.storageBlockNum, -1) else cache
  }

  /** First case of `replaceStorageBlock`: row `id` has that hash already. */
  function Share(st: Store, h: Handle, n: int, hash: Digest, id: int): (Store, Handle)
    requires n in h.blocks && EntryOk(st, h.blocks[n])
  {
    var bi := h.blocks[n];
    var cache := Dereferenced(st.cache, bi);
    (st.(rows := StoreCount(BumpRows(st.rows, hash, 1), cache, bi),
         cache := cache,
         fileBlocks := st.fileBlocks[Key(h.ino, n) := hash]),
     h.(blocks := h.blocks[n := BlockInfo(id, Some(hash), bi.empty, false)]))
  }

  /** Second case: the block the entry points to has this one owner, and its row takes the new hash. */
  function Overwrite(st: Store, h: Handle, n: int, hash: Digest): (Store, Handle)
    requires n in h.blocks && EntryOk(st, h.blocks[n]) && h.blocks[n].attached
  {
    var bi := h.blocks[n];
    var s := bi.storageBlockNum;
    var rows := if s in st.rows then st.rows[s := Row(hash, st.rows[s].useCount)] else st.rows;
    (st.(rows := StoreCount(rows, st.cache, bi), fileBlocks := st.fileBlocks[Key(h.ino, n) := hash]),
     h.(blocks := h.blocks[n := bi.(hash := Some(hash))]))
  }

  /** Third case: a new row. */
  function Allocate(st: Store, h: Handle, n: int, hash: Digest): (Store, Handle)
    requires n in h.blocks && EntryOk(st, h.blocks[n])
  {
    var bi := h.blocks[n];
    var id := st.lastRowId + 1;
    var cache := Dereferenced(st.cache, bi);
    (st.(rows := StoreCount(st.rows[id := Row(hash, 1)], cache, bi),
         lastRowId := id,
         cache := cache,
         fileBlocks := st.fileBlocks[Key(h.ino, n) := hash]),
     h.(blocks := h.blocks[n := BlockInfo(id, Some(hash), bi.empty, false)]))
  }

  /** `replaceStorageBlock`: share a block of that hash, or overwrite the sole owner's, or allocate one. */
  ghost function ReplaceStorageBlock(st: Store, h: Handle, n: int, hash: Digest): (Store, Handle, bool)
    requires n in h.blocks && EntryOk(st, h.blocks[n])
  {
    var bi := h.blocks[n];
    match FindRow(st.rows, hash)
    case Some(id) =>
      var (st', h') := Share(st, h, n, hash, id);
      (st', h', true)
    case None =>
      var (st', h') := if bi.attached && st.cache[bi.storageBlockNum].useCount == 1
                       then Overwrite(st, h, n, hash) else Allocate(st, h, n, hash);
      (st', h', false)
  }

  /** `UPDATE block_hashes SET use_count = ? WHERE _ID = ?` for the block the entry pointed to, if any. */
  function StoreCount(rows: map<int, Row>, cache: map<int, Cached>, bi: BlockInfo): (r: map<int, Row>)
    requires bi.attached ==> bi.storageBlockNum in cache
    ensures r.Keys == rows.Keys && forall id :: id in rows ==> r[id].hash == rows[id].hash
  {
    var s := bi.storageBlockNum;
    if bi.attached && s in rows then rows[s := Row(rows[s].hash, cache[s].useCount)] else rows
  }

  /** `releaseStorageBlock`: drop a reference; the storage block number it had. */
  ghost function ReleaseStorageBlock(c: Config, st: Store, h: Handle, n: int): Outcome<(Store, Handle, int)> {
    var bi := if n in h.blocks then h.blocks[n] else LoadFileBlock(c, st, h.ino, h.size, n).0;
    match bi.hash
    case None => Aborted
    case Some(hash) =>
      Done((st.(fileBlocks := st.fileBlocks - {Key(h.ino, n)}, rows := BumpRows(st.rows, hash, -1)),
            h.(blocks := h.blocks - {n}),
            bi.storageBlockNum))
  }

  /** `ftruncate` for a size that is not negative. */
  function Ftruncate(st: Store, h: Handle, newSize: int): (Store, Handle) {
    if h.size == newSize then (st, h)
    else
      (if h.ino in st.sizes then st.(sizes := st.sizes[h.ino := newSize]) else st, h.(size := newSize))
  }

  // ---------- Operations of BlocksCache ----------

  /** `_getLockedFileBlock`: make sure the handle has an entry, and that a known block is cached. */
  ghost function GetFileBlock(c: Config, st: Store, h: Handle, n: int, now: int): (r: Outcome<(Store, Handle)>)
    ensures r.Done? ==> n in r.value.1.blocks
    ensures r.Done? && HandleOk(st, h) ==> HandleOk(r.value.0, r.value.1)
    ensures r.Done? && DataSized(c, st.cache) ==> DataSized(c, r.value.0.cache)
  {
    var (bi, useCount) := if n in h.blocks then (h.blocks[n], 0) else LoadFileBlock(c, st, h.ino, h.size, n);
    var s := bi.storageBlockNum;
    if bi.empty || bi.attached then
      Done((st, h.(blocks := h.blocks[n := bi])))
    else if s !in st.cache then
      Done((st.(cache := st.cache[s := Cached(useCount, bi.hash, [], false, true, now)]),
            h.(blocks := h.blocks[n := bi.(attached := true)])))
    else if useCount == 0 || st.cache[s].useCount == useCount then
      Done((st, h.(blocks := h.blocks[n := bi.(attached := true)])))
    else
      Aborted
  }

  /** `access()` */
  function Touch(st: Store, s: int, now: int): Store
    requires s in st.cache
  {
    st.(cache := st.cache[s := st.cache[s].(atime := now)])
  }

  /** `_populateStorageBlock`: read the slot in, unless it is there already or is no slot; a short read fails. */
  function Populate(c: Config, st: Store, s: int): (r: Outcome<Store>)
    requires s in st.cache
    ensures r.Done? ==> s in r.value.cache
    ensures r.Done? && s != 0 && DataSized(c, st.cache) ==> |r.value.cache[s].data| == c.blockSize
  {
    if st.cache[s].data != [] || s == 0 then Done(st)
    else if s in st.disk && |st.disk[s]| == c.blockSize then
      Done(st.(cache := st.cache[s := st.cache[s].(data := st.disk[s])]))
    else Aborted
  }

  /** The block of an entry takes `data`: dirty, with one owner, and attached to the entry. */
  function PutData(c: Config, st: Store, h: Handle, n: int, data: Block, now: int): (Store, Handle)
    requires n in h.blocks
  {
    var bi := h.blocks[n];
    var s := bi.storageBlockNum;
    var atime := if s in st.cache then st.cache[s].atime else now;
    (st.(cache := st.cache[s := Cached(1, Some(c.hash(data)), data, true, true, atime)]),
     h.(blocks := h.blocks[n := bi.(attached := true)]))
  }

  /** `_writeBlock`: the entry's block now holds `data`, by sharing, in place or anew. */
  ghost function WriteBlock(c: Config, st: Store, h: Handle, n: int, data: Block, now: int): (Store, Handle)
    requires n in h.blocks && EntryOk(st, h.blocks[n])
  {
    var (st1, h1, present) := ReplaceStorageBlock(st, h, n, c.hash(data));
    if present then
      (st1.(cache := BumpCached(st1.cache, h1.blocks[n].storageBlockNum, 1)), h1)
    else
      PutData(c, st1, h1, n, data, now)
  }

  /** `chunk` over the bytes of `base` from `offset` on. */
  function Splice(base: Block, offset: int, chunk: seq<Byte>): (r: Block)
    requires 0 <= offset && offset + |chunk| <= |base|
    ensures |r| == |base|
  {
    base[..offset] + chunk + base[offset + |chunk|..]
  }

  /** The bytes a write starts from: those of the attached block unless all of it is overwritten, else zeros. */
  function WriteBase(c: Config, st: Store, bi: BlockInfo, chunkSize: int, now: int): (r: Outcome<(Store, Block)>)
    requires bi.attached ==> bi.storageBlockNum in st.cache
    requires DataSized(c, st.cache)
    ensures r.Done? ==> |r.value.1| == c.blockSize
    ensures r.Done? ==> r.value.0 == st.(cache := r.value.0.cache) && r.value.0.cache.Keys == st.cache.Keys
  {
    var s := bi.storageBlockNum;
    if !bi.attached then Done((st, Zeros(c.blockSize)))
    else
      var st1 := Touch(st, s, now);
      if s == 0 || chunkSize >= c.blockSize then Done((st1, Zeros(c.blockSize)))
      else
        var st2 :- Populate(c, st1, s);
        Done((st2, st2.cache[s].data))
  }

  /** `_writeBlockWrapper`: write one chunk into one block of a file. */
  ghost function WriteChunk(
      c: Config, st: Store, h: Handle, n: int, offset: int, chunk: seq<Byte>, now: int): Outcome<(Store, Handle)>
    requires HandleOk(st, h) && DataSized(c, st.cache)
    requires 0 <= offset && offset + |chunk| <= c.blockSize
  {
    var (st1, h1) :- GetFileBlock(c, st, h, n, now);
    var (st2, base) :- WriteBase(c, st1, h1.blocks[n], |chunk|, now);
    Done(WriteBlock(c, st2, h1, n, Splice(base, offset, chunk), now))
  }

  /** One iteration of the loops of `readBuf`: `len` bytes from `offset` of one block of a file. */
  ghost function ReadChunk(
      c: Config, st: Store, h: Handle, n: int, offset: int, len: int, now: int): Outcome<(Store, Handle, seq<Byte>)>
    requires HandleOk(st, h) && DataSized(c, st.cache)
    requires 0 <= offset && 0 <= len && offset + len <= c.blockSize
  {
    var (st1, h1) :- GetFileBlock(c, st, h, n, now);
    var bi := h1.blocks[n];
    var s := bi.storageBlockNum;
    if !bi.attached then Done((st1, h1, Zeros(len)))
    else
      var st2 := Touch(st1, s, now);
      if s == 0 then Done((st2, h1, Zeros(len)))
      else
        var st3 :- Populate(c, st2, s);
        Done((st3, h1, st3.cache[s].data[offset..offset + len]))
  }

  /** One iteration of the loop of `truncate`: release a block in the table and in the cache. */
  ghost function ReleaseBlock(c: Config, st: Store, h: Handle, n: int): Outcome<(Store, Handle)> {
    var (st1, h1, s) :- ReleaseStorageBlock(c, st, h, n);
    Done((if s != 0 then st1.(cache := BumpCached(st1.cache, s, -1)) else st1, h1))
  }

  // ---------- The writer thread ----------

  /** The first loop of a pass: every dirty block is in its slot, and clean. */
  function FlushAll(st: Store): Store {
    st.(disk := st.disk + map s | s in st.cache && st.cache[s].dirty :: st.cache[s].data,
        cache := map s | s in st.cache :: st.cache[s].(dirty := false))
  }

  /** The second loop of a pass: forget the blocks of `evicted`. */
  function Evict(st: Store, evicted: set<int>): Store {
    st.(cache := st.cache - evicted)
  }

  /** Weak pointers to forgotten blocks have expired. */
  function Expire(h: Handle, evicted: set<int>): Handle {
    h.(blocks := map n | n in h.blocks ::
      if h.blocks[n].storageBlockNum in evicted then h.blocks[n].(attached := false) else h.blocks[n])
  }

  // ---------- Well-formed handles and cached data ----------

  /** A cached block has been read in completely or not at all. */
  predicate DataSized(c: Config, cache: map<int, Cached>) {
    forall s :: s in cache ==> cache[s].data == [] || |cache[s].data| == c.blockSize
  }

  /** A known block has a hash and a number that is a row's or 0; an unexpired pointer leads into the cache. */
  predicate EntryOk(st: Store, bi: BlockInfo) {
    && (!bi.empty ==> bi.hash.Some? && (bi.storageBlockNum in st.rows || bi.storageBlockNum == 0))
    && (bi.attached ==> bi.storageBlockNum in st.cache)
  }

  predicate HandleOk(st: Store, h: Handle) {
    forall n :: n in h.blocks ==> EntryOk(st, h.blocks[n])
  }
}
