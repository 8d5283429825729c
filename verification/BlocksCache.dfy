/**
 The block cache and the block half of the database as objects that are updated in place, each method
 proved to compute the function of `StoreModel` or `StoreBuffers` that the store theorems are about.
 */
module BlocksCache {
  import opened Basics
  import opened Bytes
  import opened StoreModel
  import opened StoreIntegrity
  import opened StoreExact
  import opened StoreRuns
  import opened StoreBuffers
  import opened StorePasses

  /** `storage_block` */
  class StorageBlock {
    const storageBlockNum: int
    var useCount: int
    var hash: Option<Digest>
    var data: Block
    var dirty: bool
    var loaded: bool
    var atime: int

    constructor (num: int, now: int)
      ensures storageBlockNum == num && Fields() == Cached(0, None, [], false, false, now)
    {
      storageBlockNum := num;
      useCount, hash, data, dirty, loaded, atime := 0, None, [], false, false, now;
    }

    method Assign(e: Cached)
      modifies this
      ensures Fields() == e
    {
      useCount, hash, data, dirty, loaded, atime := e.useCount, e.hash, e.data, e.dirty, e.loaded, e.atime;
    }

    function Fields(): Cached
      reads this
    {
      Cached(useCount, hash, data, dirty, loaded, atime)
    }
  }

  /** `block_info`, with a weak pointer to a cached block. */
  class FileBlock {
    const fileBlockNum: int
    var storageBlockNum: int
    var hash: Option<Digest>
    var loaded: bool
    var empty: bool
    var storageBlock: StorageBlock?

    constructor (n: int)
      ensures fileBlockNum == n && storageBlockNum == 0 && hash == None && !loaded && empty && storageBlock == null
    {
      fileBlockNum := n;
      storageBlockNum, hash, loaded, empty, storageBlock := 0, None, false, true, null;
    }
  }

  /** `file_info` */
  class FileInfo {
    const ino: FileId
    var size: int
    var blocks: map<int, FileBlock>

    constructor (ino: FileId, size: int)
      ensures this.ino == ino && this.size == size && blocks == map[]
    {
      this.ino, this.size, this.blocks := ino, size, map[];
    }
  }

  /** The three cases of `replaceStorageBlock` up to where they join. */
  datatype Replaced = Replaced(rows: map<int, Row>, lastRowId: int, cache: map<int, Cached>, entry: BlockInfo, present: bool)

  ghost function Replacing(
      rows: map<int, Row>, lastRowId: int, cache: map<int, Cached>, bi: BlockInfo, hash: Digest): Replaced
    requires bi.attached ==> bi.storageBlockNum in cache
  {
    var s := bi.storageBlockNum;
    match FindRow(rows, hash)
    case Some(id) =>
      Replaced(BumpRows(rows, hash, 1), lastRowId, Dereferenced(cache, bi), BlockInfo(id, Some(hash), bi.empty, false), true)
    case None =>
      if bi.attached && cache[s].useCount == 1 then
        Replaced(if s in rows then rows[s := Row(hash, rows[s].useCount)] else rows, lastRowId, cache, bi.(hash := Some(hash)), false)
      else
        Replaced(rows[lastRowId + 1 := Row(hash, 1)], lastRowId + 1, Dereferenced(cache, bi),
                 BlockInfo(lastRowId + 1, Some(hash), bi.empty, false), false)
  }

  lemma ReplacingJoins(st: Store, h: Handle, n: int, hash: Digest)
    requires n in h.blocks && EntryOk(st, h.blocks[n])
    ensures var r := Replacing(st.rows, st.lastRowId, st.cache, h.blocks[n], hash);
            StoreModel.ReplaceStorageBlock(st, h, n, hash)
            == (st.(rows := StoreCount(r.rows, r.cache, h.blocks[n]), lastRowId := r.lastRowId, cache := r.cache,
                    fileBlocks := st.fileBlocks[Key(h.ino, n) := hash]),
                h.(blocks := h.blocks[n := r.entry]), r.present)
  {
    hide BumpRows, BumpCached, StoreCount, Dereferenced;
  }

  class BlockStore {
    const config: Config

    // Tables of the database.
    var sizes: map<FileId, int>
    var fileBlocks: map<Key, Digest>
    var rows: map<int, Row>
    var lastRowId: int

    // The cache and the storage file.
    var blocks: map<int, StorageBlock>
    var storage: map<int, Block>

    ghost predicate Valid()
      reads this`blocks
    {
      forall n :: n in blocks ==> blocks[n].storageBlockNum == n
    }

    /** The values of the cached blocks. */
    ghost function Cache(): (m: map<int, Cached>)
      reads this`blocks, blocks.Values
      ensures m.Keys == blocks.Keys
    {
      map n | n in blocks :: blocks[n].Fields()
    }

    /** The value of the store. */
    ghost function State(): Store
      reads this, blocks.Values
    {
      Store(sizes, fileBlocks, rows, lastRowId, Cache(), storage)
    }

    /** Locking the weak pointer gives a block: the one it points to is still cached. */
    predicate Alive(b: FileBlock)
      reads this`blocks, b
    {
      b.storageBlock != null && b.storageBlock.storageBlockNum in blocks
      && blocks[b.storageBlock.storageBlockNum] == b.storageBlock
    }

    function EntryOf(b: FileBlock): BlockInfo
      reads this`blocks, b
    {
      BlockInfo(b.storageBlockNum, b.hash, b.empty, Alive(b))
    }

    /** Pointers of a block table lead to blocks of the number the entry names. */
    ghost predicate Table(f: FileInfo)
      reads f`blocks, f.blocks.Values
    {
      forall n :: n in f.blocks ==> f.blocks[n].fileBlockNum == n && PointerOk(f.blocks[n])
    }

    static ghost predicate PointerOk(b: FileBlock)
      reads b
    {
      b.storageBlock != null ==> b.storageBlock.storageBlockNum == b.storageBlockNum
    }

    /** The values of the entries of a handle. */
    ghost function Entries(f: FileInfo): (m: map<int, BlockInfo>)
      reads this`blocks, f`blocks, f.blocks.Values
      ensures m.Keys == f.blocks.Keys
    {
      map n | n in f.blocks :: EntryOf(f.blocks[n])
    }

    /** The value of a handle. */
    ghost function HandleOf(f: FileInfo): Handle
      reads this`blocks, f, f.blocks.Values
    {
      Handle(f.ino, f.size, Entries(f))
    }

    // ---------- Database ----------

    method FindByHash(h: Digest) returns (r: Option<int>)
      requires UniqueHashes(rows)
      ensures r == FindRow(rows, h)
    {
      if id: int :| id in rows && rows[id].hash == h {
        r := Some(id);
      } else {
        r := None;
      }
    }

    method LoadFileBlock(f: FileInfo, b: FileBlock) returns (useCount: int)
      requires UniqueHashes(rows)
      requires b.storageBlock == null && b.hash == None
      modifies b
      ensures b.storageBlock == null
      ensures (EntryOf(b), useCount) == StoreModel.LoadFileBlock(config, State(), f.ino, f.size, b.fileBlockNum)
    {
      if b.fileBlockNum * config.blockSize > f.size {
        b.empty := true;
        b.storageBlockNum := 0;
        useCount := 0;
        return;
      }
      var k := Key(f.ino, b.fileBlockNum);
      if k in fileBlocks {
        b.empty := false;
        var r := FindByHash(fileBlocks[k]);
        match r
        case Some(id) =>
          b.storageBlockNum, b.hash, useCount := id, Some(rows[id].hash), rows[id].useCount;
        case None =>
          b.storageBlockNum, b.hash, useCount := 0, Some([]), 0;
      } else {
        b.empty := true;
        b.storageBlockNum := 0;
        useCount := 0;
      }
    }

    // ---------- Changing one cached block or one entry ----------

    static lemma OneMoreValue<T>(m: map<int, T>, n: int, v: T)
      ensures m[n := v].Values - m.Values <= {v}
    {
    }

    ghost predicate IsCached(sblock: StorageBlock)
      reads this`blocks
    {
      sblock.storageBlockNum in blocks && blocks[sblock.storageBlockNum] == sblock
    }

    /** Cached blocks stay cached. */
    static ghost predicate Extends(a: map<int, StorageBlock>, b: map<int, StorageBlock>) {
      forall s :: s in a ==> s in b && b[s] == a[s]
    }

    /** Give a cached block new field values; no other block and no entry changes. */
    method Update(sblock: StorageBlock, e: Cached, ghost f: FileInfo)
      requires Valid() && IsCached(sblock)
      modifies sblock
      ensures sblock.Fields() == e
      ensures Cache() == old(Cache())[sblock.storageBlockNum := e]
      ensures Entries(f) == old(Entries(f)) && Table(f) == old(Table(f))
    {
      sblock.Assign(e);
      forall n | n in blocks
        ensures blocks[n].Fields() == if n == sblock.storageBlockNum then e else old(blocks[n].Fields())
      {
      }
      assert Cache() == old(Cache())[sblock.storageBlockNum := e];
    }

    /** Put a new block into the cache. */
    method Insert(s: int, e: Cached, ghost f: FileInfo) returns (item: StorageBlock)
      requires Valid() && s !in blocks && Table(f)
      modifies this`blocks
      ensures Valid() && fresh(item) && item.storageBlockNum == s && item.Fields() == e
      ensures blocks == old(blocks)[s := item] && fresh(blocks.Values - old(blocks.Values))
      ensures Cache() == old(Cache())[s := e]
      ensures Entries(f) == old(Entries(f)) && Table(f)
    {
      item := new StorageBlock(s, 0);
      item.Assign(e);
      OneMoreValue(blocks, s, item);
      blocks := blocks[s := item];
      assert Cache() == old(Cache())[s := e];
      forall n | n in f.blocks
        ensures EntryOf(f.blocks[n]) == old(EntryOf(f.blocks[n]))
      {
      }
      assert Entries(f) == old(Entries(f));
    }

    /** `block->use_count += d` */
    method AddReferences(sblock: StorageBlock, d: int, ghost f: FileInfo)
      requires Valid() && IsCached(sblock)
      modifies sblock
      ensures Cache() == BumpCached(old(Cache()), sblock.storageBlockNum, d)
      ensures Entries(f) == old(Entries(f)) && Table(f) == old(Table(f))
    {
      hide Entries, Table;
      Update(sblock, sblock.Fields().(useCount := sblock.useCount + d), f);
    }

    /** Assign the fields of an entry of a handle. */
    method SetEntry(f: FileInfo, b: FileBlock, num: int, hash: Option<Digest>, pointer: StorageBlock?)
      requires Table(f) && b.fileBlockNum in f.blocks && f.blocks[b.fileBlockNum] == b
      requires pointer != null ==> pointer.storageBlockNum == num
      modifies b
      ensures Table(f) && b.storageBlock == pointer && b.empty == old(b.empty)
      ensures Cache() == old(Cache())
      ensures EntryOf(b) == BlockInfo(num, hash, b.empty, Alive(b))
      ensures Entries(f) == old(Entries(f))[b.fileBlockNum := EntryOf(b)]
    {
      ghost var n := b.fileBlockNum;
      b.storageBlockNum, b.hash, b.storageBlock := num, hash, pointer;
      forall m | m in f.blocks && m != n
        ensures f.blocks[m] != b && EntryOf(f.blocks[m]) == old(EntryOf(f.blocks[m]))
      {
      }
      assert Entries(f) == old(Entries(f))[n := EntryOf(b)];
    }

    /** `sblock->use_count--`, if there is one. */
    method Dereference(sblock: StorageBlock?, ghost f: FileInfo, ghost bi: BlockInfo)
      requires Valid()
      requires sblock != null ==> IsCached(sblock)
      requires bi.attached <==> sblock != null
      requires sblock != null ==> bi.storageBlockNum == sblock.storageBlockNum
      modifies sblock
      ensures Cache() == Dereferenced(old(Cache()), bi)
      ensures Entries(f) == old(Entries(f)) && Table(f) == old(Table(f))
    {
      if sblock != null {
        AddReferences(sblock, -1, f);
      }
    }

    /** `UPDATE block_hashes SET use_count = ? WHERE _ID = ?` for the block that lost or kept its reference. */
    method StoreUseCount(sblock: StorageBlock?, ghost bi: BlockInfo)
      requires Valid()
      requires sblock != null ==> IsCached(sblock)
      requires bi.attached <==> sblock != null
      requires sblock != null ==> bi.storageBlockNum == sblock.storageBlockNum
      modifies this`rows
      ensures rows == StoreCount(old(rows), Cache(), bi)
      ensures Cache() == old(Cache())
    {
      if sblock != null && sblock.storageBlockNum in rows {
        rows := rows[sblock.storageBlockNum := Row(rows[sblock.storageBlockNum].hash, sblock.useCount)];
      }
    }

    /** First case: point the entry at row `id`, and count the reference there. */
    method ShareRow(f: FileInfo, b: FileBlock, sblock: StorageBlock?, hash: Digest, id: int)
      requires Valid() && Table(f)
      requires b.fileBlockNum in f.blocks && f.blocks[b.fileBlockNum] == b
      requires sblock == if Alive(b) then b.storageBlock else null
      modifies this`rows, b, sblock
      ensures Valid() && Table(f)
      ensures rows == BumpRows(old(rows), hash, 1) && Cache() == Dereferenced(old(Cache()), old(EntryOf(b)))
      ensures Entries(f) == old(Entries(f))[b.fileBlockNum := BlockInfo(id, Some(hash), old(b.empty), false)]
    {
      hide BumpCached, BumpRows, Dereferenced, Cache, Entries;
      ghost var bi := EntryOf(b);
      SetEntry(f, b, id, Some(hash), null);
      Dereference(sblock, f, bi);
      rows := BumpRows(rows, hash, 1);
    }

    /** Second case: the row of the sole owner takes the new hash. */
    method OverwriteRow(f: FileInfo, b: FileBlock, sblock: StorageBlock, hash: Digest)
      requires Valid() && Table(f)
      requires b.fileBlockNum in f.blocks && f.blocks[b.fileBlockNum] == b
      requires sblock == if Alive(b) then b.storageBlock else null
      modifies this`rows, b
      ensures Valid() && Table(f)
      ensures var s := sblock.storageBlockNum;
              rows == if s in old(rows) then old(rows)[s := Row(hash, old(rows)[s].useCount)] else old(rows)
      ensures Cache() == old(Cache())
      ensures Entries(f) == old(Entries(f))[b.fileBlockNum := old(EntryOf(b)).(hash := Some(hash))]
    {
      hide Cache, Entries;
      SetEntry(f, b, b.storageBlockNum, Some(hash), b.storageBlock);
      if sblock.storageBlockNum in rows {
        rows := rows[sblock.storageBlockNum := Row(hash, rows[sblock.storageBlockNum].useCount)];
      }
    }

    /** Third case: insert a row and point the entry at it. */
    method AllocateRow(f: FileInfo, b: FileBlock, sblock: StorageBlock?, hash: Digest)
      requires Valid() && Table(f)
      requires b.fileBlockNum in f.blocks && f.blocks[b.fileBlockNum] == b
      requires sblock == if Alive(b) then b.storageBlock else null
      modifies this`rows, this`lastRowId, b, sblock
      ensures Valid() && Table(f)
      ensures lastRowId == old(lastRowId) + 1 && rows == old(rows)[lastRowId := Row(hash, 1)]
      ensures Cache() == Dereferenced(old(Cache()), old(EntryOf(b)))
      ensures Entries(f) == old(Entries(f))[b.fileBlockNum := BlockInfo(lastRowId, Some(hash), old(b.empty), false)]
    {
      hide BumpCached, Dereferenced, Cache, Entries;
      ghost var bi := EntryOf(b);
      SetEntry(f, b, lastRowId + 1, Some(hash), null);
      Dereference(sblock, f, bi);
      lastRowId := lastRowId + 1;
      rows := rows[lastRowId := Row(hash, 1)];
    }

    /** The three cases, and the block that loses or keeps the reference. */
    method ReplaceRow(f: FileInfo, b: FileBlock, hash: Digest) returns (present: bool, sblock: StorageBlock?)
      requires Valid() && Table(f) && UniqueHashes(rows)
      requires b.fileBlockNum in f.blocks && f.blocks[b.fileBlockNum] == b
      modifies this`rows, this`lastRowId, b, blocks.Values
      ensures Valid() && Table(f)
      ensures sblock == old(if Alive(b) then b.storageBlock else null)
      ensures Replaced(rows, lastRowId, Cache(), EntryOf(b), present)
           == old(Replacing(rows, lastRowId, Cache(), EntryOf(b), hash))
      ensures Entries(f) == old(Entries(f))[b.fileBlockNum := EntryOf(b)]
    {
      hide BumpCached, BumpRows, Dereferenced, Cache, Entries;
      sblock := if Alive(b) then b.storageBlock else null;
      var r := FindByHash(hash);
      present := r.Some?;
      CachedUseCount(sblock);
      if r.Some? {
        ShareRow(f, b, sblock, hash, r.value);
      } else if sblock != null && sblock.useCount == 1 {
        OverwriteRow(f, b, sblock, hash);
      } else {
        AllocateRow(f, b, sblock, hash);
      }
      EntryInTable(f, b);
    }

    lemma CachedUseCount(s: StorageBlock?)
      ensures s != null && IsCached(s) ==> Cache()[s.storageBlockNum].useCount == s.useCount
    {
    }

    /** Returns whether a block of that hash was present. */
    method ReplaceStorageBlock(f: FileInfo, b: FileBlock, hash: Digest) returns (present: bool)
      requires Valid() && Table(f) && UniqueHashes(rows)
      requires b.fileBlockNum in f.blocks && f.blocks[b.fileBlockNum] == b
      modifies this`rows, this`fileBlocks, this`lastRowId, b, blocks.Values
      ensures Valid() && Table(f)
      ensures var r := old(Replacing(rows, lastRowId, Cache(), EntryOf(b), hash));
              && present == r.present
              && rows == StoreCount(r.rows, r.cache, old(EntryOf(b))) && lastRowId == r.lastRowId
              && Cache() == r.cache
              && EntryOf(b) == r.entry
      ensures fileBlocks == old(fileBlocks)[Key(f.ino, b.fileBlockNum) := hash]
      ensures Entries(f) == old(Entries(f))[b.fileBlockNum := EntryOf(b)]
    {
      hide BumpCached, BumpRows, Dereferenced, StoreCount, Cache, Entries, Replacing;
      ghost var bi := EntryOf(b);
      var sblock;
      present, sblock := ReplaceRow(f, b, hash);
      StoreUseCount(sblock, bi);
      fileBlocks := fileBlocks[Key(f.ino, b.fileBlockNum) := hash];
    }

    lemma EntryInTable(f: FileInfo, b: FileBlock)
      requires b.fileBlockNum in f.blocks && f.blocks[b.fileBlockNum] == b
      ensures HandleOf(f).blocks[b.fileBlockNum] == EntryOf(b)
    {
    }

    // ---------- BlocksCache: looking a block up ----------

    /** Put a loaded entry into the table of a handle. */
    method AddEntry(f: FileInfo, b: FileBlock)
      requires Table(f) && b.fileBlockNum !in f.blocks && PointerOk(b)
      modifies f`blocks
      ensures f.blocks == old(f.blocks)[b.fileBlockNum := b] && Table(f)
      ensures Entries(f) == old(Entries(f))[b.fileBlockNum := EntryOf(b)]
      ensures EntryOf(b) == old(EntryOf(b)) && Cache() == old(Cache())
    {
      f.blocks := f.blocks[b.fileBlockNum := b];
      assert Entries(f) == old(Entries(f))[b.fileBlockNum := EntryOf(b)];
    }

    /** The handle's entry for block `n`, loaded from the tables if it is new. */
    method FindEntry(f: FileInfo, n: int) returns (b: FileBlock, useCount: int)
      requires Valid() && Table(f) && UniqueHashes(rows)
      modifies f`blocks
      ensures Table(f) && n in f.blocks && f.blocks[n] == b && b.fileBlockNum == n
      ensures f.blocks == old(f.blocks)[n := b] && (if n in old(f.blocks) then b == old(f.blocks)[n] else fresh(b))
      ensures (EntryOf(b), useCount) == old(
        if n in f.blocks then (Entries(f)[n], 0) else StoreModel.LoadFileBlock(config, State(), f.ino, f.size, n))
      ensures Entries(f) == old(Entries(f))[n := EntryOf(b)]
      ensures Cache() == old(Cache())
    {
      hide StoreModel.LoadFileBlock, Cache, Entries;
      useCount := 0;
      if n in f.blocks {
        b := f.blocks[n];
        EntryInTable(f, b);
        assert Entries(f)[n] == EntryOf(b);
        assert Entries(f) == Entries(f)[n := EntryOf(b)];
      } else {
        ghost var st := State();
        b := new FileBlock(n);
        assert State() == st;
        useCount := LoadFileBlock(f, b);
        assert (EntryOf(b), useCount) == StoreModel.LoadFileBlock(config, st, f.ino, f.size, n);
        ghost var bi := EntryOf(b);
        b.loaded := true;
        assert EntryOf(b) == bi;
        AddEntry(f, b);
      }
    }

    /** The second half of `_getLockedFileBlock`: a known block is put into the cache and pointed to. */
    method AttachEntry(f: FileInfo, b: FileBlock, useCount: int, now: int) returns (ok: bool)
      requires Valid() && Table(f) && b.fileBlockNum in f.blocks && f.blocks[b.fileBlockNum] == b
      requires !b.empty && !Alive(b)
      modifies this`blocks, b
      ensures Valid() && Table(f)
      ensures Extends(old(blocks), blocks) && fresh(blocks.Values - old(blocks.Values))
      ensures var r := old(Attached(State(), HandleOf(f), b.fileBlockNum, useCount, now));
              (ok <==> r.Done?) && (ok ==> (State(), HandleOf(f)) == r.value)
    {
      hide Cache, Entries, Table;
      EntryInTable(f, b);
      ok := true;
      var item;
      if b.storageBlockNum !in blocks {
        item := Insert(b.storageBlockNum, Cached(useCount, b.hash, [], false, true, now), f);
      } else {
        item := blocks[b.storageBlockNum];
        CachedUseCount(item);
        ok := useCount == 0 || item.useCount == useCount;
      }
      if ok {
        SetEntry(f, b, b.storageBlockNum, b.hash, item);
      }
    }

    /** `_getLockedFileBlock`. Not `ok`: the assertion on the use counts fails. */
    method GetLockedFileBlock(f: FileInfo, n: int, now: int) returns (ok: bool, b: FileBlock)
      requires Valid() && Table(f) && UniqueHashes(rows)
      modifies this`blocks, f`blocks, f.blocks.Values
      ensures Valid() && Table(f) && n in f.blocks && f.blocks[n] == b && b.fileBlockNum == n
      ensures fresh(f.blocks.Values - old(f.blocks.Values))
      ensures Extends(old(blocks), blocks) && fresh(blocks.Values - old(blocks.Values))
      ensures ok <==> old(GetFileBlock(config, State(), HandleOf(f), n, now)).Done?
      ensures ok ==> (State(), HandleOf(f)) == old(GetFileBlock(config, State(), HandleOf(f), n, now)).value
    {
      hide StoreModel.LoadFileBlock, GetFileBlock, Attached, Cache, Entries, UniqueHashes, HandleOk, DataSized, EntryOk;
      GetIsAttach(config, State(), HandleOf(f), n, now);
      ok := true;
      var useCount;
      b, useCount := FindEntry(f, n);
      OneMoreValue(old(f.blocks), n, b);
      if b.empty || Alive(b) {
        return;
      }
      ok := AttachEntry(f, b, useCount, now);
    }

    // ---------- BlocksCache: writing a block ----------

    /** `_populateStorageBlock`. Not `ok`: the read of the slot fails. */
    method PopulateStorageBlock(block: StorageBlock, ghost f: FileInfo) returns (ok: bool)
      requires Valid() && IsCached(block)
      modifies block
      ensures var r := old(Populate(config, State(), block.storageBlockNum));
              (ok <==> r.Done?) && (ok ==> State() == r.value)
      ensures Entries(f) == old(Entries(f)) && Table(f) == old(Table(f))
    {
      hide Cache, Entries, Table;
      var s := block.storageBlockNum;
      CachedFields(block);
      ok := true;
      if block.data != [] || s == 0 {
        return;
      }
      if s in storage && |storage[s]| == config.blockSize {
        Update(block, block.Fields().(data := storage[s]), f);
      } else {
        ok := false;
      }
    }

    lemma CachedFields(s: StorageBlock)
      requires IsCached(s)
      ensures s.storageBlockNum in Cache() && Cache()[s.storageBlockNum] == s.Fields()
    {
    }

    /** The block of the entry takes the data that was written. */
    method PutBlock(f: FileInfo, b: FileBlock, data: Block, hash: Digest, now: int)
      requires Valid() && Table(f) && b.fileBlockNum in f.blocks && f.blocks[b.fileBlockNum] == b
      requires b.hash == Some(hash)
      modifies this`blocks, b, blocks.Values
      ensures Valid() && Table(f) && b.empty == old(b.empty)
      ensures Extends(old(blocks), blocks) && fresh(blocks.Values - old(blocks.Values))
      ensures var s := old(b.storageBlockNum);
              var atime := if s in old(Cache()) then old(Cache())[s].atime else now;
              Cache() == old(Cache())[s := Cached(1, Some(hash), data, true, true, atime)]
      ensures Entries(f) == old(Entries(f))[b.fileBlockNum := old(EntryOf(b)).(attached := true)]
    {
      hide Cache, Entries, Table;
      var s := b.storageBlockNum;
      var item;
      if s in blocks {
        item := blocks[s];
        CachedFields(item);
        Update(item, Cached(1, Some(hash), data, true, true, item.atime), f);
      } else {
        item := Insert(s, Cached(1, Some(hash), data, true, true, now), f);
      }
      SetEntry(f, b, s, b.hash, item);
    }

    /** The block of that number, if cached, has `d` more references. */
    method CountReferences(s: int, d: int, ghost f: FileInfo)
      requires Valid()
      modifies blocks.Values
      ensures Cache() == BumpCached(old(Cache()), s, d)
      ensures Entries(f) == old(Entries(f)) && Table(f) == old(Table(f))
    {
      hide Cache, Entries, Table, BumpCached;
      if s in blocks {
        AddReferences(blocks[s], d, f);
      } else {
        NotCached(s, d);
      }
    }

    /** `_writeBlock` */
    method WriteBlock(f: FileInfo, data: Block, b: FileBlock, now: int)
      requires Valid() && Table(f) && UniqueHashes(rows)
      requires b.fileBlockNum in f.blocks && f.blocks[b.fileBlockNum] == b
      requires EntryOk(State(), EntryOf(b))
      modifies this`rows, this`fileBlocks, this`lastRowId, this`blocks, b, blocks.Values
      ensures Valid() && Table(f)
      ensures Extends(old(blocks), blocks) && fresh(blocks.Values - old(blocks.Values))
      ensures b.fileBlockNum in old(HandleOf(f)).blocks && old(HandleOf(f)).blocks[b.fileBlockNum] == old(EntryOf(b))
      ensures (State(), HandleOf(f)) == old(StoreModel.WriteBlock(config, State(), HandleOf(f), b.fileBlockNum, data, now))
    {
      hide Cache, Entries, Table, State, BumpCached, StoreModel.ReplaceStorageBlock, UniqueHashes, EntryOk;
      EntryInTable(f, b);
      var hash := config.hash(data);
      var present := ReplaceForWrite(f, b, hash);
      EntryInTable(f, b);
      StateParts();
      if present {
        CountReferences(b.storageBlockNum, 1, f);
      } else {
        PutBlock(f, b, data, hash, now);
      }
      StateParts();
    }

    /** `replaceStorageBlock` as a whole. */
    method ReplaceForWrite(f: FileInfo, b: FileBlock, hash: Digest) returns (present: bool)
      requires Valid() && Table(f) && UniqueHashes(rows)
      requires b.fileBlockNum in f.blocks && f.blocks[b.fileBlockNum] == b
      requires EntryOk(State(), EntryOf(b))
      modifies this`rows, this`fileBlocks, this`lastRowId, b, blocks.Values
      ensures Valid() && Table(f) && b.hash == Some(hash)
      ensures b.fileBlockNum in old(HandleOf(f)).blocks && old(HandleOf(f)).blocks[b.fileBlockNum] == old(EntryOf(b))
      ensures (State(), HandleOf(f), present)
           == old(StoreModel.ReplaceStorageBlock(State(), HandleOf(f), b.fileBlockNum, hash))
    {
      hide Cache, Entries, Table, Replacing, StoreCount, StoreModel.ReplaceStorageBlock;
      ghost var st, h, n := State(), HandleOf(f), b.fileBlockNum;
      EntryInTable(f, b);
      ReplacingJoins(st, h, n, hash);
      ReplacedHash(rows, lastRowId, Cache(), EntryOf(b), hash);
      present := ReplaceStorageBlock(f, b, hash);
    }

    lemma StateParts()
      ensures State() == Store(sizes, fileBlocks, rows, lastRowId, Cache(), storage)
    {
    }

    lemma ReplacedHash(
        rows: map<int, Row>, lastRowId: int, cache: map<int, Cached>, bi: BlockInfo, hash: Digest)
      requires bi.attached ==> bi.storageBlockNum in cache
      ensures Replacing(rows, lastRowId, cache, bi, hash).entry.hash == Some(hash)
    {
    }

    lemma NotCached(s: int, d: int)
      ensures s !in blocks ==> BumpCached(Cache(), s, d) == Cache()
    {
    }

    /** `block->access()` */
    method Access(block: StorageBlock, ghost f: FileInfo, now: int)
      requires Valid() && IsCached(block)
      modifies block
      ensures block.storageBlockNum in old(Cache())
      ensures State() == old(Touch(State(), block.storageBlockNum, now))
      ensures Entries(f) == old(Entries(f)) && Table(f) == old(Table(f))
    {
      hide Cache, Entries, Table;
      CachedFields(block);
      Update(block, block.Fields().(atime := now), f);
    }

    /** The bytes a write of `chunkSize` bytes starts from. Not `ok`: the read of the slot fails. */
    method StartFrom(f: FileInfo, b: FileBlock, chunkSize: int, now: int) returns (ok: bool, data: Block)
      requires Valid() && Table(f)
      requires DataSized(config, Cache())
      requires b.fileBlockNum in f.blocks && f.blocks[b.fileBlockNum] == b
      modifies blocks.Values
      ensures Valid() && Table(f) && HandleOf(f) == old(HandleOf(f)) && EntryOf(b) == old(EntryOf(b))
      ensures var r := old(WriteBase(config, State(), EntryOf(b), chunkSize, now));
              (ok <==> r.Done?) && (ok ==> (State(), data) == r.value)
    {
      hide Cache, Entries;
      ok, data := true, Zeros(config.blockSize);
      if !Alive(b) {
        return;
      }
      var block := b.storageBlock;
      Access(block, f, now);
      if block.storageBlockNum != 0 && chunkSize < config.blockSize {
        ok := PopulateStorageBlock(block, f);
        CachedFields(block);
        data := block.data;
      }
    }

    /** The entry of the block to write to, and the bytes to start from. */
    method PrepareWrite(f: FileInfo, n: int, chunkSize: int, now: int) returns (ok: bool, b: FileBlock, data: Block)
      requires Valid() && Table(f) && UniqueHashes(rows)
      requires HandleOk(State(), HandleOf(f)) && DataSized(config, Cache())
      modifies this`blocks, f`blocks, f.blocks.Values, blocks.Values
      ensures Valid() && Table(f) && n in f.blocks && f.blocks[n] == b && b.fileBlockNum == n
      ensures fresh(f.blocks.Values - old(f.blocks.Values))
      ensures Extends(old(blocks), blocks) && fresh(blocks.Values - old(blocks.Values))
      ensures var r := old(Prepared(config, State(), HandleOf(f), n, chunkSize, now));
              (ok <==> r.Done?) && (ok ==> (State(), HandleOf(f), data) == r.value && EntryOk(State(), EntryOf(b)))
    {
      hide Cache, Entries, Table, HandleOf, UniqueHashes, GetFileBlock, WriteBase;
      data := [];
      ok, b := GetLockedFileBlock(f, n, now);
      if ok {
        EntryInTable(f, b);
        ok, data := StartFrom(f, b, chunkSize, now);
      }
    }

    /** `_writeBlockWrapper`. Not `ok`: it ends in a failed assertion or a failed read. */
    method WriteBlockWrapper(f: FileInfo, chunk: seq<Byte>, n: int, offset: int, now: int) returns (ok: bool)
      requires Valid() && Table(f) && UniqueHashes(rows)
      requires HandleOk(State(), HandleOf(f)) && DataSized(config, Cache())
      requires 0 <= offset && offset + |chunk| <= config.blockSize
      modifies this`rows, this`fileBlocks, this`lastRowId, this`blocks, f`blocks, f.blocks.Values, blocks.Values
      ensures Valid() && Table(f)
      ensures fresh(f.blocks.Values - old(f.blocks.Values))
      ensures Extends(old(blocks), blocks) && fresh(blocks.Values - old(blocks.Values))
      ensures ok <==> old(WriteChunk(config, State(), HandleOf(f), n, offset, chunk, now)).Done?
      ensures ok ==> (State(), HandleOf(f)) == old(WriteChunk(config, State(), HandleOf(f), n, offset, chunk, now)).value
    {
      hide DataSized, HandleOk, Cache, Entries, Table, State, HandleOf, UniqueHashes, Prepared, StoreModel.WriteBlock, Splice;
      StateParts();
      WriteIsPrepared(config, State(), HandleOf(f), n, offset, chunk, now);
      var b, data;
      ok, b, data := PrepareWrite(f, n, |chunk|, now);
      if ok {
        WriteBlock(f, Splice(data, offset, chunk), b, now);
      }
    }

    // ---------- BlocksCache: reading a block ----------

    /** `_getStorageBlock`: the block cached for block `n` of the file, or a new one that is no slot's. */
    method GetStorageBlock(f: FileInfo, n: int, now: int) returns (ok: bool, res: StorageBlock)
      requires Valid() && Table(f) && UniqueHashes(rows) && HandleOk(State(), HandleOf(f))
      modifies this`blocks, f`blocks, f.blocks.Values, blocks.Values
      ensures Valid() && Table(f)
      ensures fresh(f.blocks.Values - old(f.blocks.Values))
      ensures Extends(old(blocks), blocks) && fresh(blocks.Values - old(blocks.Values))
      ensures ok <==> old(GetFileBlock(config, State(), HandleOf(f), n, now)).Done?
      ensures ok ==>
        var (st, h) := old(GetFileBlock(config, State(), HandleOf(f), n, now)).value;
        && HandleOf(f) == h
        && res.storageBlockNum == (if h.blocks[n].attached then h.blocks[n].storageBlockNum else 0)
        && (if h.blocks[n].attached then IsCached(res) else fresh(res))
        && State() == if h.blocks[n].attached then Touch(st, h.blocks[n].storageBlockNum, now) else st
    {
      hide Cache, Entries, GetFileBlock;
      var b;
      ok, b := GetLockedFileBlock(f, n, now);
      EntryInTable(f, b);
      if ok && Alive(b) {
        res := b.storageBlock;
        Access(res, f, now);
      } else {
        res := new StorageBlock(0, now);
      }
    }

    /** Bytes of a block; zeros if it is no slot's. */
    method BlockBytes(block: StorageBlock, offset: int, len: int, ghost f: FileInfo) returns (ok: bool, bytes: seq<Byte>)
      requires Valid() && DataSized(config, Cache()) && 0 <= offset && 0 <= len && offset + len <= config.blockSize
      requires block.storageBlockNum != 0 ==> IsCached(block)
      modifies block
      ensures var s := block.storageBlockNum;
              if s == 0 then ok && bytes == Zeros(len) && State() == old(State())
              else
                var r := old(Populate(config, State(), block.storageBlockNum));
                && (ok <==> r.Done?)
                && (ok ==> State() == r.value && bytes == r.value.cache[s].data[offset..offset + len])
      ensures HandleOf(f) == old(HandleOf(f)) && Table(f) == old(Table(f))
    {
      hide Cache, Entries, Table;
      ok, bytes := true, Zeros(len);
      if block.storageBlockNum != 0 {
        ok := PopulateStorageBlock(block, f);
        CachedFields(block);
        bytes := if ok then block.data[offset..offset + len] else [];
      }
    }

    /** The body of the loop of `readBuf`. */
    method ReadBlock(f: FileInfo, n: int, offset: int, len: int, now: int) returns (ok: bool, bytes: seq<Byte>)
      requires Valid() && Table(f) && UniqueHashes(rows)
      requires HandleOk(State(), HandleOf(f)) && DataSized(config, Cache())
      requires 0 <= offset && 0 <= len && offset + len <= config.blockSize
      modifies this`blocks, f`blocks, f.blocks.Values, blocks.Values
      ensures Valid() && Table(f)
      ensures fresh(f.blocks.Values - old(f.blocks.Values))
      ensures Extends(old(blocks), blocks) && fresh(blocks.Values - old(blocks.Values))
      ensures var r := old(ReadChunk(config, State(), HandleOf(f), n, offset, len, now));
              (ok <==> r.Done?) && (ok ==> (State(), HandleOf(f), bytes) == r.value)
    {
      hide Cache, Entries, Table, HandleOf, UniqueHashes, GetFileBlock, Populate;
      bytes := [];
      var block;
      ok, block := GetStorageBlock(f, n, now);
      if ok {
        ok, bytes := BlockBytes(block, offset, len, f);
      }
    }

    // ---------- Truncation ----------

    /** Take the entry of a block out of the table of a handle, or load it. */
    method ExtractEntry(f: FileInfo, n: int) returns (b: FileBlock)
      requires Table(f) && UniqueHashes(rows)
      modifies f`blocks
      ensures Table(f) && f.blocks.Values <= old(f.blocks.Values)
      ensures EntryOf(b) == old(
        if n in f.blocks then Entries(f)[n] else StoreModel.LoadFileBlock(config, State(), f.ino, f.size, n).0)
      ensures Entries(f) == old(Entries(f)) - {n} && Cache() == old(Cache())
    {
      hide StoreModel.LoadFileBlock, Cache;
      if n in f.blocks {
        b := f.blocks[n];
        EntryInTable(f, b);
        f.blocks := f.blocks - {n};
      } else {
        b := new FileBlock(n);
        var useCount := LoadFileBlock(f, b);
      }
      assert Entries(f) == old(Entries(f)) - {n};
    }

    /** `releaseStorageBlock`. Not `ok`: the entry has no hash, and its null pointer is dereferenced. */
    method ReleaseStorageBlock(f: FileInfo, n: int) returns (ok: bool, num: int)
      requires Valid() && Table(f) && UniqueHashes(rows)
      modifies this`rows, this`fileBlocks, f`blocks
      ensures Table(f) && f.blocks.Values <= old(f.blocks.Values) && UniqueHashes(rows)
      ensures Cache() == old(Cache())
      ensures var r := old(StoreModel.ReleaseStorageBlock(config, State(), HandleOf(f), n));
              (ok <==> r.Done?) && (ok ==> (State(), HandleOf(f), num) == r.value)
    {
      hide StoreModel.LoadFileBlock, Cache, Entries, BumpRows;
      var b := ExtractEntry(f, n);
      fileBlocks := fileBlocks - {Key(f.ino, n)};
      ok, num := b.hash.Some?, b.storageBlockNum;
      if ok {
        rows := BumpRows(rows, b.hash.value, -1);
      }
    }

    /** The body of the loop of `truncate`. */
    method ReleaseBlock(f: FileInfo, n: int) returns (ok: bool)
      requires Valid() && Table(f) && UniqueHashes(rows)
      modifies this`rows, this`fileBlocks, f`blocks, blocks.Values
      ensures Valid() && Table(f) && f.blocks.Values <= old(f.blocks.Values) && UniqueHashes(rows)
      ensures var r := old(StoreModel.ReleaseBlock(config, State(), HandleOf(f), n));
              (ok <==> r.Done?) && (ok ==> (State(), HandleOf(f)) == r.value)
    {
      hide StoreModel.ReleaseStorageBlock, Cache, BumpCached, Entries, Table, UniqueHashes;
      var num;
      ok, num := ReleaseStorageBlock(f, n);
      if ok && num != 0 {
        CountReferences(num, -1, f);
      }
    }

    /** `ftruncate` of the database: 0, or `-EINVAL`. */
    method Ftruncate(f: FileInfo, newSize: int) returns (r: int)
      modifies this`sizes, f`size
      ensures r == if newSize < 0 then -22 else 0
      ensures (State(), HandleOf(f))
           == old(if newSize < 0 then (State(), HandleOf(f)) else StoreModel.Ftruncate(State(), HandleOf(f), newSize))
      ensures Table(f) == old(Table(f))
    {
      hide Cache, Entries;
      if newSize < 0 {
        return -22;
      }
      r := 0;
      if f.size == newSize {
        return;
      }
      if f.ino in sizes {
        sizes := sizes[f.ino := newSize];
      }
      f.size := newSize;
    }

    // ---------- The loops over the blocks of a buffer ----------

    /** `writeBuf`: how much was written. Not `ok`: a chunk ends in a failed assertion or a failed read. */
    method WriteBuf(f: FileInfo, buf: seq<Byte>, offset: int, now: int) returns (ok: bool, factSize: int)
      requires Valid() && Table(f) && Integrity(config, State()) && HandleOk(State(), HandleOf(f)) && 0 <= offset
      modifies this`sizes, this`rows, this`fileBlocks, this`lastRowId, this`blocks, blocks.Values
      modifies f`size, f`blocks, f.blocks.Values
      ensures Valid() && Table(f)
      ensures fresh(f.blocks.Values - old(f.blocks.Values))
      ensures Extends(old(blocks), blocks) && fresh(blocks.Values - old(blocks.Values))
      ensures var r := old(StoreBuffers.WriteBuf(config, State(), HandleOf(f), buf, offset, now));
              (ok <==> r.Done?) && (ok ==> (State(), HandleOf(f)) == r.value && factSize == |buf|)
    {
      hide Cache, Entries, Table, State, HandleOf, Integrity, HandleOk, WriteFrom, StoreModel.Ftruncate, WriteChunk;
      var b := config.blockSize;
      ghost var st, h := State(), HandleOf(f);
      Grow(f, |buf| + offset);
      ghost var r := WriteFrom(config, State(), HandleOf(f), offset / b, offset % b, buf, now);
      assert r == StoreBuffers.WriteBuf(config, st, h, buf, offset, now);
      var curBlockNum := offset / b;
      var startOffset := offset - curBlockNum * b;
      ghost var endBlockNum := (offset + |buf| - 1) / b;
      Joined(b, offset);
      var chunkSize := Min(|buf|, b - startOffset);
      ok := WriteNext(f, buf, curBlockNum, startOffset, chunkSize, now);
      factSize := chunkSize;
      while ok && factSize < |buf|
        invariant Valid() && Table(f)
        invariant fresh(f.blocks.Values - old(f.blocks.Values))
        invariant Extends(old(blocks), blocks) && fresh(blocks.Values - old(blocks.Values))
        invariant 0 <= factSize <= |buf|
        invariant factSize < |buf| ==> (curBlockNum + 1) * b == offset + factSize
        invariant !ok ==> r.Aborted?
        invariant ok ==> Integrity(config, State()) && HandleOk(State(), HandleOf(f))
        invariant ok && factSize == |buf| ==> r == Done((State(), HandleOf(f)))
        invariant ok && factSize < |buf| ==>
          r == WriteFrom(config, State(), HandleOf(f), curBlockNum + 1, 0, buf[factSize..], now)
        decreases |buf| - factSize, ok
      {
        QuotientAtLeast(curBlockNum + 1, b, offset + |buf| - 1);
        assert curBlockNum <= endBlockNum;
        chunkSize := Min(b, |buf| - factSize);
        curBlockNum := curBlockNum + 1;
        ok := WriteNext(f, buf[factSize..], curBlockNum, 0, chunkSize, now);
        assert buf[factSize..][chunkSize..] == buf[factSize + chunkSize..];
        factSize := factSize + chunkSize;
        NextMultiple(curBlockNum, b);
      }
    }

    /** Make the file at least that long. */
    method Grow(f: FileInfo, end: int)
      requires Table(f) && Integrity(config, State()) && HandleOk(State(), HandleOf(f)) && 0 <= end
      modifies this`sizes, f`size
      ensures (State(), HandleOf(f))
           == old(if end > HandleOf(f).size then StoreModel.Ftruncate(State(), HandleOf(f), end) else (State(), HandleOf(f)))
      ensures Table(f) && Integrity(config, State()) && HandleOk(State(), HandleOf(f))
    {
      hide Cache, Entries, Table, Integrity, HandleOk, StoreModel.Ftruncate;
      FtruncateKeepsIntegrity(config, State(), HandleOf(f), end);
      if end > f.size {
        var _ := Ftruncate(f, end);
      }
    }

    lemma QuotientAtLeast(q: int, b: int, x: int)
      requires b > 0 && q * b <= x
      ensures q <= x / b
    {
      Joined(b, x);
      if x / b < q {
        assert (x / b + 1) * b <= q * b;
        NextMultiple(x / b, b);
      }
    }

    /** Write the first chunk of `buf`; what is left of the loop then starts from the new state. */
    method WriteNext(f: FileInfo, buf: seq<Byte>, n: int, offset: int, len: int, now: int) returns (ok: bool)
      requires Valid() && Table(f) && Integrity(config, State()) && HandleOk(State(), HandleOf(f))
      requires 0 <= offset < config.blockSize && len == Min(|buf|, config.blockSize - offset)
      modifies this`rows, this`fileBlocks, this`lastRowId, this`blocks, f`blocks, f.blocks.Values, blocks.Values
      ensures Valid() && Table(f)
      ensures fresh(f.blocks.Values - old(f.blocks.Values))
      ensures Extends(old(blocks), blocks) && fresh(blocks.Values - old(blocks.Values))
      ensures var r := old(WriteFrom(config, State(), HandleOf(f), n, offset, buf, now));
              && (!ok ==> r.Aborted?)
              && (ok ==> Integrity(config, State()) && HandleOk(State(), HandleOf(f)))
              && (ok && len == |buf| ==> r == Done((State(), HandleOf(f))))
              && (ok && len < |buf| ==> r == WriteFrom(config, State(), HandleOf(f), n + 1, 0, buf[len..], now))
    {
      hide Cache, Entries, Table, HandleOk, HandleOf, WriteChunk, DataSized;
      WriteFromUnfolds(config, State(), HandleOf(f), n, offset, buf, now);
      hide Integrity, WriteFrom;
      ok := WriteBlockWrapper(f, buf[..len], n, offset, now);
    }

    /** `readBuf`: what was read. Not `ok`: a failed assertion, a failed read, or a copy of a negative length. */
    method ReadBuf(f: FileInfo, size: int, offset: int, now: int) returns (ok: bool, bytes: seq<Byte>)
      requires Valid() && Table(f) && Integrity(config, State()) && HandleOk(State(), HandleOf(f))
      requires 0 <= size && 0 <= offset
      modifies this`blocks, f`blocks, f.blocks.Values, blocks.Values
      ensures Valid() && Table(f)
      ensures fresh(f.blocks.Values - old(f.blocks.Values))
      ensures Extends(old(blocks), blocks) && fresh(blocks.Values - old(blocks.Values))
      ensures var r := old(StoreBuffers.ReadBuf(config, State(), HandleOf(f), size, offset, now));
              (ok <==> r.Done?) && (ok ==> (State(), HandleOf(f), bytes) == r.value)
    {
      hide Cache, Entries, Table, State, HandleOf, Integrity, HandleOk, ReadFrom, ReadChunk;
      var b := config.blockSize;
      var size' := if size + offset > f.size then f.size - offset else size;
      SizeOf(f);
      if size' < 0 {
        return false, [];
      }
      ghost var r := ReadFrom(config, State(), HandleOf(f), offset / b, offset % b, size', now);
      assert r == StoreBuffers.ReadBuf(config, State(), HandleOf(f), size, offset, now);
      var startBlockNum := offset / b;
      ghost var endBlockNum := (offset + size') / b;
      var startOffset := offset - startBlockNum * b;
      Joined(b, offset);
      var chunkSize := Min(size', b - startOffset);
      ok, bytes := ReadNext(f, startBlockNum, startOffset, size', chunkSize, now);
      while ok && |bytes| < size'
        invariant Valid() && Table(f)
        invariant fresh(f.blocks.Values - old(f.blocks.Values))
        invariant Extends(old(blocks), blocks) && fresh(blocks.Values - old(blocks.Values))
        invariant !ok ==> r.Aborted?
        invariant ok ==> |bytes| <= size' && Integrity(config, State()) && HandleOk(State(), HandleOf(f))
        invariant ok && |bytes| < size' ==> (startBlockNum + 1) * b == offset + |bytes|
        invariant ok && |bytes| == size' ==> r == Done((State(), HandleOf(f), bytes))
        invariant ok && |bytes| < size' ==>
          r == Prepended(bytes, ReadFrom(config, State(), HandleOf(f), startBlockNum + 1, 0, size' - |bytes|, now))
        decreases ok, size' - |bytes|
      {
        QuotientAtLeast(startBlockNum + 1, b, offset + size');
        assert startBlockNum <= endBlockNum;
        chunkSize := Min(b, size' - |bytes|);
        startBlockNum := startBlockNum + 1;
        var more;
        ok, more := ReadNext(f, startBlockNum, 0, size' - |bytes|, chunkSize, now);
        PrependedTwice(bytes, more);
        bytes := bytes + more;
        NextMultiple(startBlockNum, b);
      }
    }

    lemma RowsHaveUniqueHashes()
      requires Integrity(config, State())
      ensures UniqueHashes(rows)
    {
    }

    lemma SizeOf(f: FileInfo)
      ensures HandleOf(f).size == f.size
    {
    }

    /** Read the first chunk of `len` bytes; what is left of the loop then starts from the new state. */
    method ReadNext(f: FileInfo, n: int, offset: int, len: int, chunk: int, now: int) returns (ok: bool, bytes: seq<Byte>)
      requires Valid() && Table(f) && Integrity(config, State()) && HandleOk(State(), HandleOf(f))
      requires 0 <= len && 0 <= offset < config.blockSize && chunk == Min(len, config.blockSize - offset)
      modifies this`blocks, f`blocks, f.blocks.Values, blocks.Values
      ensures Valid() && Table(f)
      ensures fresh(f.blocks.Values - old(f.blocks.Values))
      ensures Extends(old(blocks), blocks) && fresh(blocks.Values - old(blocks.Values))
      ensures var r := old(ReadFrom(config, State(), HandleOf(f), n, offset, len, now));
              && (!ok ==> r.Aborted?)
              && (ok ==> |bytes| == chunk && Integrity(config, State()) && HandleOk(State(), HandleOf(f)))
              && (ok && chunk == len ==> r == Done((State(), HandleOf(f), bytes)))
              && (ok && chunk < len ==>
                    r == Prepended(bytes, ReadFrom(config, State(), HandleOf(f), n + 1, 0, len - chunk, now)))
    {
      hide Cache, Entries, Table, HandleOk, HandleOf, ReadChunk, DataSized;
      ReadFromUnfolds(config, State(), HandleOf(f), n, offset, len, now);
      hide Integrity, ReadFrom;
      ok, bytes := ReadBlock(f, n, offset, chunk, now);
    }

    /** `truncate`: 0 or `-EINVAL`. Not `ok`: a block without a hash is released. */
    method Truncate(f: FileInfo, newSize: int) returns (ok: bool, r: int)
      requires Valid() && Table(f) && Integrity(config, State()) && HandleOk(State(), HandleOf(f))
      modifies this`sizes, this`rows, this`fileBlocks, blocks.Values, f`size, f`blocks
      ensures Valid() && Table(f) && f.blocks.Values <= old(f.blocks.Values)
      ensures newSize < 0 ==> ok && r == -22 && State() == old(State()) && HandleOf(f) == old(HandleOf(f))
      ensures newSize >= 0 ==>
        var t := old(StoreBuffers.Truncate(config, State(), HandleOf(f), newSize));
        (ok <==> t.Done?) && (ok ==> r == 0 && (State(), HandleOf(f)) == t.value)
    {
      hide Cache, Entries, Table, State, HandleOf, Integrity, HandleOk, ReleaseFrom, StoreModel.ReleaseBlock, UniqueHashes, StoreModel.Ftruncate;
      ok, r := true, 0;
      if newSize < 0 {
        return true, -22;
      }
      SizeOf(f);
      RowsHaveUniqueHashes();
      if f.size <= newSize {
        r := Ftruncate(f, newSize);
        return;
      }
      var b := config.blockSize;
      var curBlock := if newSize != 0 then (newSize - 1) / b + 1 else 0;
      var endBlock := if f.size != 0 then (f.size - 1) / b + 1 else 1;
      ghost var released := ReleaseFrom(config, State(), HandleOf(f), curBlock, endBlock);
      while ok && curBlock < endBlock
        invariant Valid() && Table(f)
        invariant f.blocks.Values <= old(f.blocks.Values) && blocks == old(blocks) && UniqueHashes(rows)
        invariant !ok ==> released.Aborted?
        invariant ok ==> released == ReleaseFrom(config, State(), HandleOf(f), curBlock, endBlock)
        decreases ok, endBlock - curBlock
      {
        ReleaseFromUnfolds(config, State(), HandleOf(f), curBlock, endBlock);
        ok := ReleaseBlock(f, curBlock);
        curBlock := curBlock + 1;
      }
      if ok {
        ReleaseFromUnfolds(config, State(), HandleOf(f), curBlock, endBlock);
        r := Ftruncate(f, newSize);
      }
    }

    // ---------- The writer thread ----------

    /** Write a dirty block into its slot. */
    method WriteOut(block: StorageBlock, ghost f: FileInfo)
      requires Valid() && IsCached(block)
      requires block.dirty ==> |block.data| == config.blockSize
      modifies this`storage, block
      ensures block.storageBlockNum in old(Cache()) && State() == WrittenOut(old(State()), block.storageBlockNum)
      ensures Entries(f) == old(Entries(f)) && Table(f) == old(Table(f))
    {
      hide Cache, Entries, Table;
      CachedFields(block);
      if block.dirty {
        assert block.data[..config.blockSize] == block.data;
        storage := storage[block.storageBlockNum := block.data[..config.blockSize]];
        Update(block, block.Fields().(dirty := false), f);
      }
    }

    /** The first loop of a pass: write dirty blocks out, and find the oldest access. */
    method FlushBlocks(now: int, ghost f: FileInfo) returns (mintime: int)
      requires Valid() && DirtyIsWhole(config, Cache())
      modifies this`storage, blocks.Values
      ensures State() == FlushAll(old(State()))
      ensures OldestAccess(old(Cache()), now, mintime)
      ensures HandleOf(f) == old(HandleOf(f)) && Table(f) == old(Table(f))
    {
      hide Cache, Entries, Table, WrittenOut, FlushSome, FlushAll, OldestAmong;
      ghost var st := State();
      mintime := now;
      var todo := blocks.Keys;
      FlushedNone(st);
      OldestOfNone(st.cache, now);
      while |todo| > 0
        invariant Valid() && todo <= blocks.Keys
        invariant State() == FlushSome(st, blocks.Keys - todo)
        invariant OldestAmong(st.cache, blocks.Keys - todo, now, mintime)
        invariant Entries(f) == old(Entries(f)) && Table(f) == old(Table(f))
        decreases |todo|
      {
        LeastExists(todo);
        var s :| s in todo && forall t :: t in todo ==> s <= t;
        var block := blocks[s];
        CachedFields(block);
        FlushStep(st, blocks.Keys, todo, s);
        OldestStep(st.cache, todo, s, now, mintime);
        mintime := Min(mintime, block.atime);
        WriteOut(block, f);
        todo := todo - {s};
      }
      FlushedEverything(st, blocks.Keys - todo);
    }

    /** The second loop of a pass: up to 64 blocks not used for long, the lowest numbers first. */
    method FindOld(mintime: int, ghost f: FileInfo) returns (toDelete: set<int>)
      requires Valid() && NothingDirty(Cache())
      modifies this`storage, blocks.Values
      ensures State() == old(State())
      ensures LowestOld(Cache(), mintime, toDelete)
      ensures HandleOf(f) == old(HandleOf(f)) && Table(f) == old(Table(f))
    {
      hide Cache, Entries, Table, Old, NothingDirty, WrittenOut, LowestOld, OldBefore;
      toDelete := {};
      var todo := blocks.Keys;
      NoneFound(Cache(), mintime);
      while |todo| > 0 && |toDelete| <= 63
        invariant Valid() && todo <= blocks.Keys
        invariant State() == old(State())
        invariant OldBefore(Cache(), mintime, todo, toDelete)
        invariant Entries(f) == old(Entries(f)) && Table(f) == old(Table(f))
        decreases |todo|
      {
        LeastExists(todo);
        var s :| s in todo && forall t :: t in todo ==> s <= t;
        var block := blocks[s];
        CachedFields(block);
        CleanStays(State(), s);
        OldStep(Cache(), mintime, todo, toDelete, s);
        if block.atime < mintime + 10 {
          WriteOut(block, f);
          toDelete := toDelete + {s};
        }
        todo := todo - {s};
      }
      CountOld(Cache(), mintime, todo, toDelete);
    }

    /** Erase blocks from the cache; weak pointers to them expire. */
    method Forget(toDelete: set<int>, ghost f: FileInfo)
      requires Valid() && Table(f)
      modifies this`blocks
      ensures Valid() && Table(f) && blocks == old(blocks) - toDelete
      ensures State() == Evict(old(State()), toDelete)
      ensures HandleOf(f) == Expire(old(HandleOf(f)), toDelete)
    {
      blocks := blocks - toDelete;
      assert Cache() == old(Cache()) - toDelete;
      ghost var expired := Expire(old(HandleOf(f)), toDelete).blocks;
      forall n | n in f.blocks
        ensures EntryOf(f.blocks[n]) == expired[n]
      {
        assert PointerOk(f.blocks[n]);
      }
      assert Entries(f) == expired;
    }

    /** One pass of the writer thread over the cache: flush, evict, and whether to go on at once. */
    method WriterPass(now: int, ghost f: FileInfo) returns (repeat: bool, ghost evicted: set<int>)
      requires Valid() && Table(f) && DirtyIsWhole(config, Cache())
      modifies this`blocks, this`storage, blocks.Values
      ensures Valid() && Table(f) && blocks == old(blocks) - evicted
      ensures State() == Evict(FlushAll(old(State())), evicted)
      ensures HandleOf(f) == Expire(old(HandleOf(f)), evicted)
      ensures Evictable(old(Cache()), now, evicted)
      ensures repeat <==> |blocks| > 500
    {
      hide Cache, Entries, Table, FlushAll, Evict, LowestOld, OldestAccess, NothingDirty, DirtyIsWhole, Expire, HandleOf;
      ghost var st, h := State(), HandleOf(f);
      var mintime := FlushBlocks(now, f);
      FlushedStaysFlushed(st);
      evicted := {};
      if |blocks| > 500 {
        var toDelete := FindOld(mintime, f);
        evicted := toDelete;
        Forget(toDelete, f);
        EvictableWhenFull(st, now, mintime, evicted);
      } else {
        NothingForgotten(State(), h);
      }
      repeat := |blocks| > 500;
    }

    /**
     Passes until no more are wanted, while the clock runs on. They end when the clock is at most ten
     seconds behind the accesses, and are together one flush and one eviction.
     */
    method RepeatPasses(start: int, ghost f: FileInfo) returns (ghost evicted: set<int>)
      requires Valid() && Table(f) && Integrity(config, State()) && AccessedBefore(Cache(), start + 10)
      modifies this`blocks, this`storage, blocks.Values
      ensures Valid() && Table(f) && |blocks| <= 500
      ensures State() == Evict(FlushAll(old(State())), evicted)
      ensures HandleOf(f) == Expire(old(HandleOf(f)), evicted)
      ensures evicted <= old(blocks.Keys) && (old(|blocks|) <= 500 ==> evicted == {})
      ensures Integrity(config, State())
    {
      hide Cache, Entries, Table, FlushAll, Evict, DirtyIsWhole, AccessedBefore, Evictable, Expire, HandleOf, Integrity;
      IntegrityMakesWhole(config, State());
      ghost var st, h, keys := State(), HandleOf(f), blocks.Keys;
      var now := start;
      var repeat;
      repeat, evicted := WriterPass(now, f);
      PassProgress(st.cache, now, evicted);
      AfterPass(config, st, evicted, start + 10);
      while repeat
        invariant Valid() && Table(f) && blocks.Values <= old(blocks.Values)
        invariant State() == Evict(FlushAll(st), evicted) && HandleOf(f) == Expire(h, evicted)
        invariant DirtyIsWhole(config, Cache()) && AccessedBefore(Cache(), start + 10) && start <= now
        invariant repeat <==> |blocks| > 500
        invariant evicted <= keys && (|keys| <= 500 ==> evicted == {})
        invariant blocks.Keys <= keys
        decreases |blocks|, repeat
      {
        var time: int := *;
        now := if time > now then time else now;
        ghost var before, more := State(), evicted;
        repeat, more := WriterPass(now, f);
        SomeEvicted(before.cache, start, now, more);
        AfterPass(config, before, more, start + 10);
        PassesCompose(st, evicted, more);
        ExpireTwice(h, evicted, more);
        evicted := evicted + more;
      }
      PassKeepsIntegrity(config, st, evicted);
    }

    // ---------- Other handles ----------

    /**
     Operations through one handle leave the value of every other handle alone: its pointers neither
     expire nor come back to life, not even when a forgotten block is cached anew under its number.
     */
    twostate lemma OtherHandles(g: FileInfo)
      requires old(Valid()) && Valid() && old(Table(g))
      requires unchanged(g) && forall n :: n in g.blocks ==> unchanged(g.blocks[n])
      requires Extends(old(blocks), blocks) && fresh(blocks.Values - old(blocks.Values))
      ensures HandleOf(g) == old(HandleOf(g))
    {
      forall n | n in g.blocks
        ensures EntryOf(g.blocks[n]) == old(EntryOf(g.blocks[n]))
      {
        var b := g.blocks[n].storageBlock;
        if b != null && b.storageBlockNum in blocks && b.storageBlockNum !in old(blocks) {
          forall k | k in old(blocks)
            ensures old(blocks)[k] != blocks[b.storageBlockNum]
          {
            assert old(blocks)[k].storageBlockNum == k;
          }
          assert blocks[b.storageBlockNum] in blocks.Values - old(blocks.Values);
        }
      }
      assert Entries(g) == old(Entries(g));
    }

    /** A pass lets the pointers of every handle to the evicted blocks expire, and changes nothing else of it. */
    twostate lemma OtherHandlesExpire(g: FileInfo)
      requires old(Valid()) && old(Table(g)) && blocks.Keys <= old(blocks.Keys)
      requires forall s :: s in blocks ==> blocks[s] == old(blocks)[s]
      requires unchanged(g) && forall n :: n in g.blocks ==> unchanged(g.blocks[n])
      ensures Table(g) && HandleOf(g) == Expire(old(HandleOf(g)), old(blocks.Keys) - blocks.Keys)
    {
      ghost var expired := Expire(old(HandleOf(g)), old(blocks.Keys) - blocks.Keys).blocks;
      forall n | n in g.blocks
        ensures EntryOf(g.blocks[n]) == expired[n]
      {
        assert old(PointerOk(g.blocks[n]));
      }
      assert Entries(g) == expired;
    }
  }

  /** The outcome of a read of which the first bytes were read before. */
  function Prepended(bytes: seq<Byte>, r: Outcome<(Store, Handle, seq<Byte>)>): Outcome<(Store, Handle, seq<Byte>)> {
    match r
    case Aborted => Aborted
    case Done(v) => Done((v.0, v.1, bytes + v.2))
  }

  lemma PrependedTwice(a: seq<Byte>, b: seq<Byte>)
    ensures forall r :: Prepended(a, Prepended(b, r)) == Prepended(a + b, r)
    ensures forall st, h :: Prepended(a, Done((st, h, b))) == Done((st, h, a + b))
  {
    forall r
      ensures Prepended(a, Prepended(b, r)) == Prepended(a + b, r)
    {
      if r.Done? {
        assert a + (b + r.value.2) == a + b + r.value.2;
      }
    }
  }

  lemma ReadFromUnfolds(c: Config, st: Store, h: Handle, n: int, offset: int, len: int, now: int)
    requires Integrity(c, st) && HandleOk(st, h) && 0 <= offset < c.blockSize && 0 <= len
    ensures DataSized(c, st.cache)
    ensures var chunk := Min(len, c.blockSize - offset);
            match ReadChunk(c, st, h, n, offset, chunk, now)
            case Aborted =>
              ReadFrom(c, st, h, n, offset, len, now).Aborted?
            case Done(v) =>
              && Integrity(c, v.0) && HandleOk(v.0, v.1) && |v.2| == chunk
              && ReadFrom(c, st, h, n, offset, len, now)
                 == if chunk == len then Done(v)
                    else Prepended(v.2, ReadFrom(c, v.0, v.1, n + 1, 0, len - chunk, now))
  {
    hide HandleOk, Integrity, ReadChunk, DataSized;
    var chunk := Min(len, c.blockSize - offset);
    RowsAreStored(c, st);
    ReadChunkLength(c, st, h, n, offset, chunk, now);
    if ReadChunk(c, st, h, n, offset, chunk, now).Done? {
      ReadChunkKeepsIntegrity(c, st, h, n, offset, chunk, now);
    }
  }

  lemma ReadChunkLength(c: Config, st: Store, h: Handle, n: int, offset: int, len: int, now: int)
    requires HandleOk(st, h) && DataSized(c, st.cache) && 0 <= offset && 0 <= len && offset + len <= c.blockSize
    ensures var r := ReadChunk(c, st, h, n, offset, len, now);
            r.Done? ==> |r.value.2| == len
  {
    hide GetFileBlock, Populate;
  }

  lemma ReleaseFromUnfolds(c: Config, st: Store, h: Handle, cur: int, end: int)
    ensures ReleaseFrom(c, st, h, cur, end)
         == if cur >= end then Done((st, h))
            else
              var r := StoreModel.ReleaseBlock(c, st, h, cur);
              if r.Aborted? then Aborted else ReleaseFrom(c, r.value.0, r.value.1, cur + 1, end)
  {
  }

  /** What precedes `_writeBlock` in `_writeBlockWrapper`. */
  ghost function Prepared(
      c: Config, st: Store, h: Handle, n: int, chunkSize: int, now: int): (r: Outcome<(Store, Handle, Block)>)
    requires HandleOk(st, h) && DataSized(c, st.cache)
    ensures r.Done? ==> n in r.value.1.blocks && EntryOk(r.value.0, r.value.1.blocks[n]) && |r.value.2| == c.blockSize
  {
    var (st1, h1) :- GetFileBlock(c, st, h, n, now);
    var (st2, base) :- WriteBase(c, st1, h1.blocks[n], chunkSize, now);
    Done((st2, h1, base))
  }

  lemma WriteIsPrepared(c: Config, st: Store, h: Handle, n: int, offset: int, chunk: seq<Byte>, now: int)
    requires HandleOk(st, h) && DataSized(c, st.cache) && 0 <= offset && offset + |chunk| <= c.blockSize
    ensures WriteChunk(c, st, h, n, offset, chunk, now)
         == match Prepared(c, st, h, n, |chunk|, now)
            case Aborted => Aborted
            case Done((st2, h1, base)) => Done(StoreModel.WriteBlock(c, st2, h1, n, Splice(base, offset, chunk), now))
  {
    hide GetFileBlock, WriteBase, StoreModel.WriteBlock, Splice;
  }

  /** What `_getLockedFileBlock` does once the entry is there, known and not attached. */
  function Attached(st: Store, h: Handle, n: int, useCount: int, now: int): Outcome<(Store, Handle)>
    requires n in h.blocks
  {
    var bi := h.blocks[n];
    var s := bi.storageBlockNum;
    var h' := h.(blocks := h.blocks[n := bi.(attached := true)]);
    if s !in st.cache then Done((st.(cache := st.cache[s := Cached(useCount, bi.hash, [], false, true, now)]), h'))
    else if useCount == 0 || st.cache[s].useCount == useCount then Done((st, h'))
    else Aborted
  }

  lemma GetIsAttach(c: Config, st: Store, h: Handle, n: int, now: int)
    ensures var (bi, useCount) := if n in h.blocks then (h.blocks[n], 0) else StoreModel.LoadFileBlock(c, st, h.ino, h.size, n);
            var h1 := h.(blocks := h.blocks[n := bi]);
            GetFileBlock(c, st, h, n, now)
            == if bi.empty || bi.attached then Done((st, h1)) else Attached(st, h1, n, useCount, now)
  {
    hide StoreModel.LoadFileBlock;
    var (bi, useCount) := if n in h.blocks then (h.blocks[n], 0) else StoreModel.LoadFileBlock(c, st, h.ino, h.size, n);
    var bi' := bi.(attached := true);
    assert h.blocks[n := bi][n := bi'] == h.blocks[n := bi'];
  }

  lemma WriteFromUnfolds(c: Config, st: Store, h: Handle, n: int, offset: int, buf: seq<Byte>, now: int)
    requires Integrity(c, st) && HandleOk(st, h) && 0 <= offset < c.blockSize
    ensures DataSized(c, st.cache)
    ensures var len := Min(|buf|, c.blockSize - offset);
            match WriteChunk(c, st, h, n, offset, buf[..len], now)
            case Aborted =>
              WriteFrom(c, st, h, n, offset, buf, now).Aborted?
            case Done(v) =>
              && Integrity(c, v.0) && HandleOk(v.0, v.1)
              && WriteFrom(c, st, h, n, offset, buf, now)
                 == if len == |buf| then Done(v) else WriteFrom(c, v.0, v.1, n + 1, 0, buf[len..], now)
  {
    hide WriteChunk, HandleOk, Integrity;
    var len := Min(|buf|, c.blockSize - offset);
    RowsAreStored(c, st);
    if WriteChunk(c, st, h, n, offset, buf[..len], now).Done? {
      WriteChunkKeepsIntegrity(c, st, h, n, offset, buf[..len], now);
    }
  }
}
