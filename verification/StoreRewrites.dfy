/**
 Buffers that leave some blocks as they are. Each such chunk leaves the stored count of its row one too low; here is when
 `writeBuf` still completes, and what it then has written.
 */
module StoreRewrites {
  import opened Basics
  import opened Bytes
  import opened StoreModel
  import opened StoreIntegrity
  import opened StoreExact
  import opened StoreCounts
  import opened StoreSteps
  import opened StoreReuse
  import opened StoreRuns
  import opened StoreBuffers

  // ---------- Counts that are one too low ----------

  function LowerRows(rows: map<int, Row>, low: set<int>): map<int, Row> {
    map id | id in rows :: if id in low then Row(rows[id].hash, rows[id].useCount - 1) else rows[id]
  }

  /** The store with the stored counts of the rows `low` one lower. */
  function Lowered(st: Store, low: set<int>): Store {
    st.(rows := LowerRows(st.rows, low))
  }

  lemma LoweredFinds(rows: map<int, Row>, low: set<int>, h: Digest)
    requires UniqueHashes(rows)
    ensures UniqueHashes(LowerRows(rows, low)) && FindRow(LowerRows(rows, low), h) == FindRow(rows, h)
  {
    var lower := LowerRows(rows, low);
    if id :| id in rows && rows[id].hash == h {
      FindsUniqueRow(rows, id);
      assert lower[id].hash == h;
      FindsUniqueRow(lower, id);
    } else {
      assert forall id :: id in lower ==> lower[id].hash == rows[id].hash;
    }
  }

  /** Lowered counts are not seen in the files. */
  lemma LoweredView(c: Config, st: Store, low: set<int>)
    requires Integrity(c, st)
    ensures Integrity(c, Lowered(st, low)) && View(Lowered(st, low)) == View(st)
    ensures forall k :: k in st.fileBlocks ==>
              FindRow(Lowered(st, low).rows, st.fileBlocks[k]) == FindRow(st.rows, st.fileBlocks[k])
  {
    hide FindRow, LowerRows;
    LowerIntegrity(c, st, low);
    HashesUnique(c, st);
    forall k | k in st.fileBlocks
      ensures FindRow(Lowered(st, low).rows, st.fileBlocks[k]) == FindRow(st.rows, st.fileBlocks[k])
    {
      LoweredFinds(st.rows, low, st.fileBlocks[k]);
    }
    assert View(Lowered(st, low)).blocks == View(st).blocks;
  }

  lemma LowerIntegrity(c: Config, st: Store, low: set<int>)
    requires Integrity(c, st)
    ensures Integrity(c, Lowered(st, low))
  {
    if 0 in st.cache {
      assert CachedOk(c, st, 0);
    }
    RecountKeepsIntegrity(c, st, Lowered(st, low));
  }

  /** Only then are the counts exact. */
  lemma LoweredExact(c: Config, st: Store, low: set<int>)
    requires Inv(c, st) && low <= st.cache.Keys
    ensures Inv(c, Lowered(st, low)) <==> low == {}
  {
    hide Refs, Integrity, Placed, FindRow;
    InvParts(c, st);
    LowerIntegrity(c, st, low);
    if low == {} {
      assert LowerRows(st.rows, low) == st.rows;
      assert Lowered(st, low) == st;
    } else {
      var id := SomeMember(low);
      assert Lowered(st, low).rows[id].useCount == st.rows[id].useCount - 1;
    }
  }

  // ---------- The same steps on lowered counts ----------

  /** A lookup of a block that the handle has no entry for fails if its row is cached and one too low, unless it then counts 0. */
  lemma LoweredGet(c: Config, st: Store, h: Handle, n: int, now: int, low: set<int>)
    requires Inv(c, st) && HandleOk(st, h) && Current(st, h) && n !in h.blocks && low <= st.cache.Keys
    ensures var k := Key(h.ino, n);
            GetFileBlock(c, Lowered(st, low), h, n, now)
            == if k in st.fileBlocks && RowOf(st, k) in low && Refs(st.fileBlocks, st.fileBlocks[k]) != 1 then Aborted
               else
                 match GetFileBlock(c, st, h, n, now)
                 case Aborted => Aborted
                 case Done((st1, h1)) => Done((Lowered(st1, low), h1))
  {
    hide Integrity, Refs, FindRow, Placed;
    var k := Key(h.ino, n);
    HashesUnique(c, st) by {
      InvParts(c, st);
    }
    if k in st.fileBlocks {
      LoweredFinds(st.rows, low, st.fileBlocks[k]);
      ReferredRowCounts(st, k);
    }
    InvParts(c, st);
  }

  lemma LoweredBase(c: Config, st: Store, bi: BlockInfo, size: int, now: int, low: set<int>)
    requires EntryOk(st, bi) && DataSized(c, st.cache)
    ensures WriteBase(c, Lowered(st, low), bi, size, now)
         == match WriteBase(c, st, bi, size, now)
            case Aborted => Aborted
            case Done((st1, base)) => Done((Lowered(st1, low), base))
  {
  }

  /** The old row keeps its count or takes that of its cached block. */
  lemma LoweredStoreCount(rows: map<int, Row>, cache: map<int, Cached>, bi: BlockInfo, low: set<int>)
    requires bi.attached ==> bi.storageBlockNum in cache && bi.storageBlockNum !in low
    ensures StoreCount(LowerRows(rows, low), cache, bi) == LowerRows(StoreCount(rows, cache, bi), low)
  {
  }

  lemma LoweredBump(rows: map<int, Row>, hash: Digest, low: set<int>)
    ensures BumpRows(LowerRows(rows, low), hash, 1) == LowerRows(BumpRows(rows, hash, 1), low)
  {
  }

  lemma LoweredUpdate(rows: map<int, Row>, id: int, row: Row, low: set<int>)
    requires id !in low
    ensures LowerRows(rows, low)[id := row] == LowerRows(rows[id := row], low)
  {
  }

  lemma LoweredShare(st: Store, h: Handle, n: int, hash: Digest, id: int, low: set<int>)
    requires n in h.blocks && EntryOk(st, h.blocks[n])
    requires h.blocks[n].attached ==> h.blocks[n].storageBlockNum !in low
    ensures Share(Lowered(st, low), h, n, hash, id) == (Lowered(Share(st, h, n, hash, id).0, low), Share(st, h, n, hash, id).1)
  {
    hide BumpCached, Dereferenced, StoreCount, LowerRows, BumpRows;
    LoweredBump(st.rows, hash, low);
    LoweredStoreCount(BumpRows(st.rows, hash, 1), Dereferenced(st.cache, h.blocks[n]), h.blocks[n], low);
  }

  lemma LoweredInPlace(st: Store, h: Handle, n: int, hash: Digest, low: set<int>)
    requires n in h.blocks && EntryOk(st, h.blocks[n]) && h.blocks[n].attached && h.blocks[n].storageBlockNum !in low
    ensures Overwrite(Lowered(st, low), h, n, hash) == (Lowered(Overwrite(st, h, n, hash).0, low), Overwrite(st, h, n, hash).1)
  {
    hide StoreCount, LowerRows;
    var bi := h.blocks[n];
    var s := bi.storageBlockNum;
    LoweredOverwrite(st.rows, s, hash, low);
    LoweredStoreCount(if s in st.rows then st.rows[s := Row(hash, st.rows[s].useCount)] else st.rows, st.cache, bi, low);
  }

  lemma LoweredAllocate(st: Store, h: Handle, n: int, hash: Digest, low: set<int>)
    requires n in h.blocks && EntryOk(st, h.blocks[n])
    requires st.lastRowId + 1 !in low && (h.blocks[n].attached ==> h.blocks[n].storageBlockNum !in low)
    ensures Allocate(Lowered(st, low), h, n, hash) == (Lowered(Allocate(st, h, n, hash).0, low), Allocate(st, h, n, hash).1)
  {
    hide BumpCached, Dereferenced, StoreCount, LowerRows;
    LoweredUpdate(st.rows, st.lastRowId + 1, Row(hash, 1), low);
    LoweredStoreCount(st.rows[st.lastRowId + 1 := Row(hash, 1)], Dereferenced(st.cache, h.blocks[n]), h.blocks[n], low);
  }

  /** The three cases commute with lowered counts, if the old row is not one of the low ones. */
  lemma LoweredWrite(c: Config, st: Store, h: Handle, n: int, data: Block, now: int, low: set<int>)
    requires UniqueHashes(st.rows) && n in h.blocks && EntryOk(st, h.blocks[n])
    requires st.lastRowId + 1 !in low && (h.blocks[n].attached ==> h.blocks[n].storageBlockNum !in low)
    ensures WriteBlock(c, Lowered(st, low), h, n, data, now)
         == (Lowered(WriteBlock(c, st, h, n, data, now).0, low), WriteBlock(c, st, h, n, data, now).1)
  {
    hide FindRow, UniqueHashes, Share, Overwrite, Allocate, BumpCached, LowerRows;
    LoweredFinds(st.rows, low, c.hash(data));
    match FindRow(st.rows, c.hash(data))
    case Some(id) =>
      LoweredShare(st, h, n, c.hash(data), id, low);
    case None =>
      if h.blocks[n].attached && st.cache[h.blocks[n].storageBlockNum].useCount == 1 {
        LoweredInPlace(st, h, n, c.hash(data), low);
      } else {
        LoweredAllocate(st, h, n, c.hash(data), low);
      }
  }

  lemma LoweredOverwrite(rows: map<int, Row>, s: int, hash: Digest, low: set<int>)
    requires s !in low
    ensures s in LowerRows(rows, low) <==> s in rows
    ensures s in rows ==> LowerRows(rows, low)[s] == rows[s]
    ensures s in rows ==>
              var row := Row(hash, rows[s].useCount);
              LowerRows(rows, low)[s := row] == LowerRows(rows[s := row], low)
  {
  }

  /**
   A chunk written to a block that the handle has no entry for, when the row of that block has another reference: it fails
   if that row is one too low, and else does what it does on exact counts.
   */
  lemma LoweredChunk(c: Config, st: Store, h: Handle, n: int, offset: int, chunk: seq<Byte>, now: int, low: set<int>)
    requires WriteAllowed(c, st, h, n, offset, chunk) && DataSized(c, st.cache) && n !in h.blocks && low <= st.cache.Keys
    requires var k := Key(h.ino, n);
             k in st.fileBlocks && RowOf(st, k) in low ==> Refs(st.fileBlocks, st.fileBlocks[k]) != 1
    ensures HandleOk(Lowered(st, low), h) && DataSized(c, Lowered(st, low).cache)
    ensures var k := Key(h.ino, n);
            WriteChunk(c, Lowered(st, low), h, n, offset, chunk, now)
            == if k in st.fileBlocks && RowOf(st, k) in low then Aborted
               else
                 match WriteChunk(c, st, h, n, offset, chunk, now)
                 case Aborted => Aborted
                 case Done((st1, h1)) => Done((Lowered(st1, low), h1))
  {
    hide GetFileBlock, WriteBase, WriteBlock, Integrity, Placed, Refs, FindRow, NoCollision, NewBlock, View, Splice, LowerRows;
    HandlesStayOk(st, Lowered(st, low), h) by {
      assert Lowered(st, low).rows.Keys == st.rows.Keys by {
        LoweredKeys(st.rows, low);
      }
    }
    var k := Key(h.ino, n);
    LoweredGet(c, st, h, n, now, low);
    WritePrepared(c, st, h, n, offset, chunk, now);
    var (st1, h1) := GetFileBlock(c, st, h, n, now).value;
    LoweredBase(c, st1, h1.blocks[n], |chunk|, now, low);
    var (st2, base) := WriteBase(c, st1, h1.blocks[n], |chunk|, now).value;
    InvParts(c, st2);
    HashesUnique(c, st2);
    NextIdIsNew(c, st2);
    if !(k in st.fileBlocks && RowOf(st, k) in low) {
      LoweredWrite(c, st2, h1, n, Splice(base, offset, chunk), now, low);
    }
  }

  lemma LoweredKeys(rows: map<int, Row>, low: set<int>)
    ensures LowerRows(rows, low).Keys == rows.Keys
  {
  }

  /** A chunk that leaves its block as it is leaves exact counts but for its row. */
  lemma UnchangedChunk(c: Config, st: Store, h: Handle, n: int, offset: int, chunk: seq<Byte>, now: int) returns (st1: Store)
    requires WriteAllowed(c, st, h, n, offset, chunk) && DataSized(c, st.cache) && n !in h.blocks
    requires SameHash(st, Key(h.ino, n), c.hash(NewBlock(c, st, Key(h.ino, n), offset, chunk)))
    ensures var w := WriteChunk(c, st, h, n, offset, chunk, now);
            var s := RowOf(st, Key(h.ino, n));
            && w.Done? && w.value.0 == Lowered(st1, {s}) && Inv(c, st1) && SameBytes(w.value.0, st1)
            && st1.rows.Keys == w.value.0.rows.Keys && st1.cache == w.value.0.cache
            && s in st1.cache && st1.fileBlocks == st.fileBlocks && st1.sizes == st.sizes
            && st.cache.Keys <= st1.cache.Keys
            && (forall j :: j in st.fileBlocks ==> FindRow(st1.rows, st.fileBlocks[j]) == FindRow(st.rows, st.fileBlocks[j]))
  {
    hide WriteChunk, GetFileBlock, WriteBase, WriteBlock, Integrity, Placed, Refs, FindRow, NoCollision, View, Splice,
         SameBytes, ExactBut, EntriesStay, NewBlock, Linked, WriteReady, UniqueHashes;
    var k := Key(h.ino, n);
    var data := NewBlock(c, st, k, offset, chunk);
    FirstWrite(c, st, h, n, offset, chunk, now);
    UnchangedTables(c, st, h, n, offset, chunk, now);
    var st' := WriteChunk(c, st, h, n, offset, chunk, now).value.0;
    var s := RowOf(st, k);
    st1 := st'.(rows := st'.rows[s := Row(st'.rows[s].hash, st'.rows[s].useCount + 1)]);
    InvParts(c, st);
    RaisedIsExact(c, st, st', st1, s, k);
    assert LowerRows(st1.rows, {s}) == st'.rows;
    WriteChunkStep(c, st, h, n, offset, chunk, now);
    HashesUnique(c, st1) by {
      InvParts(c, st1);
    }
    forall j | j in st.fileBlocks
      ensures FindRow(st1.rows, st.fileBlocks[j]) == FindRow(st.rows, st.fileBlocks[j])
    {
      LoweredFinds(st1.rows, {s}, st.fileBlocks[j]);
    }
  }

  /** What such a chunk leaves alone. */
  lemma UnchangedTables(c: Config, st: Store, h: Handle, n: int, offset: int, chunk: seq<Byte>, now: int)
    requires WriteAllowed(c, st, h, n, offset, chunk) && DataSized(c, st.cache) && n !in h.blocks
    requires SameHash(st, Key(h.ino, n), c.hash(NewBlock(c, st, Key(h.ino, n), offset, chunk)))
    ensures var w := WriteChunk(c, st, h, n, offset, chunk, now);
            var s := RowOf(st, Key(h.ino, n));
            && w.Done? && w.value.0.fileBlocks == st.fileBlocks && w.value.0.sizes == st.sizes
            && s in w.value.0.cache && st.cache.Keys <= w.value.0.cache.Keys
            && n in w.value.1.blocks && w.value.1.blocks[n].storageBlockNum == s
  {
    hide GetFileBlock, WriteBase, WriteBlock, Integrity, Placed, Refs, FindRow, NoCollision, View, Splice, NewBlock;
    WritePrepared(c, st, h, n, offset, chunk, now);
    var (st1, h1) := GetFileBlock(c, st, h, n, now).value;
    var (st2, base) := WriteBase(c, st1, h1.blocks[n], |chunk|, now).value;
    WriteBlockTables(c, st2, h1, n, Splice(base, offset, chunk), now);
  }

  lemma RaisedIsExact(c: Config, st: Store, st': Store, st1: Store, s: int, k: Key)
    requires Placed(c, st) && k in st.fileBlocks && st'.fileBlocks == st.fileBlocks && st'.sizes == st.sizes
    requires Linked(c, st') && ExactBut(st', s) && s in st'.rows && st'.rows[s].hash == st.fileBlocks[k]
    requires st'.rows[s].useCount == Refs(st.fileBlocks, st.fileBlocks[k]) - 1
    requires s in st'.cache ==> st'.cache[s].useCount == Refs(st.fileBlocks, st.fileBlocks[k])
    requires st1 == st'.(rows := st'.rows[s := Row(st'.rows[s].hash, st'.rows[s].useCount + 1)])
    ensures Inv(c, st1) && SameBytes(st', st1)
  {
    hide Refs, RowOk, CachedOk;
    ZeroIsNoRow(c, st');
    RecountKeepsIntegrity(c, st', st1);
    HashesUnique(c, st');
    HashesUnique(c, st1);
    forall j | j in st1.fileBlocks
      ensures FindRow(st1.rows, st1.fileBlocks[j]).Some?
    {
      var row := RowOf(st', j);
      assert row in st1.rows && st1.rows[row].hash == st1.fileBlocks[j];
    }
  }

  // ---------- Which blocks were left as they are ----------

  /** Row `id` is the row of some block. */
  ghost predicate Referenced(st: Store, id: int)
    requires AllFound(st)
  {
    exists k :: k in st.fileBlocks && RowOf(st, k) == id
  }

  /** The rows `low` are those of the blocks with bytes in `same`. */
  ghost predicate LowShows(st: Store, low: set<int>, same: iset<Block>) {
    && AllFound(st)
    && (forall id :: id in low ==> Referenced(st, id))
    && (forall k :: k in st.fileBlocks ==> (RowOf(st, k) in low <==> BytesOf(st, k) in same))
  }

  /** The bytes `same` are those of blocks before block `n`. */
  ghost predicate Earlier(a: Sparse, f: FileId, n: int, same: iset<Block>) {
    forall x :: x in same ==> exists m: int :: m < n && Key(f, m) in a.blocks && a.blocks[Key(f, m)] == x
  }

  /** Blocks with the same bytes have the same row, and the other way round. */
  lemma SameBytesSameRow(c: Config, st: Store, k: Key, k': Key)
    requires Linked(c, st) && k in st.fileBlocks && k' in st.fileBlocks
    ensures BytesOf(st, k) == BytesOf(st, k') <==> RowOf(st, k) == RowOf(st, k')
    ensures BytesOf(st, k) == BytesOf(st, k') ==> st.fileBlocks[k] == st.fileBlocks[k']
  {
    hide Effective, Stored;
    assert RowOk(c, st, RowOf(st, k)) && RowOk(c, st, RowOf(st, k'));
  }

  /** A row that is one too low has two references if the block is not one of those left as they are. */
  lemma LowIsShared(c: Config, st: Store, f: FileId, n: int, low: set<int>, same: iset<Block>)
    requires Inv(c, st) && LowShows(st, low, same) && Earlier(View(st), f, n, same)
    requires Key(f, n) in st.fileBlocks && RowOf(st, Key(f, n)) in low
    ensures Refs(st.fileBlocks, st.fileBlocks[Key(f, n)]) != 1
  {
    hide Refs, FindRow, BytesOf, Integrity, Placed, View, Earlier;
    var k := Key(f, n);
    ViewBlocks(st);
    var j := EarlierBlock(View(st), f, n, same, BytesOf(st, k));
    SameBytesSameRow(c, st, k, j);
    if Refs(st.fileBlocks, st.fileBlocks[k]) == 1 {
      OnlyReference(st.fileBlocks, k, j);
    }
  }

  lemma EarlierStays(a: Sparse, a': Sparse, f: FileId, n: int, data: Block, same: iset<Block>)
    requires Earlier(a, f, n, same) && a'.blocks == a.blocks[Key(f, n) := data]
    ensures Earlier(a', f, n + 1, same)
  {
    forall x | x in same
      ensures exists m: int :: m < n + 1 && Key(f, m) in a'.blocks && a'.blocks[Key(f, m)] == x
    {
      var m: int :| m < n && Key(f, m) in a.blocks && a.blocks[Key(f, m)] == x;
      assert m < n + 1 && Key(f, m) in a'.blocks;
    }
  }

  lemma EarlierGrows(a: Sparse, f: FileId, n: int, same: iset<Block>)
    requires Earlier(a, f, n, same) && Key(f, n) in a.blocks
    ensures Earlier(a, f, n + 1, same + iset{a.blocks[Key(f, n)]})
  {
    var x := a.blocks[Key(f, n)];
    EarlierStays(a, a.(blocks := a.blocks[Key(f, n) := x]), f, n, x, same);
    assert a.blocks[Key(f, n) := x] == a.blocks;
    assert n < n + 1 && Key(f, n) in a.blocks;
  }

  lemma ViewBlocks(st: Store)
    ensures forall k :: k in st.fileBlocks <==> k in View(st).blocks
    ensures forall k :: k in st.fileBlocks ==> View(st).blocks[k] == BytesOf(st, k)
  {
  }

  lemma ChangedOthers(c: Config, st: Store, st': Store, k: Key, data: Block)
    requires Inv(c, st) && Inv(c, st') && OthersStay(st, st', k)
    requires View(st').blocks == View(st).blocks[k := data]
    ensures AllFound(st) && AllFound(st') && k in st'.fileBlocks && BytesOf(st', k) == data
    ensures forall j :: j in st.fileBlocks ==> j in st'.fileBlocks
    ensures forall j :: j in st'.fileBlocks && j != k ==>
              j in st.fileBlocks && RowOf(st', j) == RowOf(st, j) && BytesOf(st', j) == BytesOf(st, j)
  {
    hide FindRow, BytesOf, Integrity, Placed, Refs, View;
    ViewBlocks(st);
    ViewBlocks(st');
  }

  /** A chunk that changes block `n` leaves the other blocks their rows. */
  lemma ChangedLow(c: Config, st: Store, st': Store, f: FileId, n: int, data: Block, low: set<int>, same: iset<Block>)
    requires Inv(c, st) && Inv(c, st') && LowShows(st, low, same) && Earlier(View(st), f, n, same)
    requires OthersStay(st, st', Key(f, n)) && View(st').blocks == View(st).blocks[Key(f, n) := data]
    requires Key(f, n) in st.fileBlocks ==> RowOf(st, Key(f, n)) !in low
    ensures LowShows(st', low, same)
  {
    hide Integrity, Placed, FindRow, BytesOf, Refs, View, Earlier, Referenced, OthersStay;
    var k := Key(f, n);
    ChangedOthers(c, st, st', k, data);
    forall id | id in low
      ensures Referenced(st', id)
    {
      var j := RowOwner(st, id);
      StillReferenced(st', j, id);
    }
    if RowOf(st', k) in low {
      var j := RowOwner(st, RowOf(st', k));
      SameBytesSameRow(c, st', j, k);
    }
    ViewBlocks(st);
    if data in same {
      var j := EarlierBlock(View(st), f, n, same, data);
      SameBytesSameRow(c, st', j, k);
    }
  }

  lemma RowOwner(st: Store, id: int) returns (k: Key)
    requires AllFound(st) && Referenced(st, id)
    ensures k in st.fileBlocks && RowOf(st, k) == id
  {
    k :| k in st.fileBlocks && RowOf(st, k) == id;
  }

  lemma StillReferenced(st: Store, k: Key, id: int)
    requires AllFound(st) && k in st.fileBlocks && RowOf(st, k) == id
    ensures Referenced(st, id)
  {
  }

  lemma EarlierBlock(a: Sparse, f: FileId, n: int, same: iset<Block>, x: Block) returns (k: Key)
    requires Earlier(a, f, n, same) && x in same
    ensures k != Key(f, n) && k in a.blocks && a.blocks[k] == x
  {
    var m: int :| m < n && Key(f, m) in a.blocks && a.blocks[Key(f, m)] == x;
    k := Key(f, m);
  }

  /** A chunk that leaves block `n` as it is adds its row and its bytes. */
  lemma UnchangedLow(c: Config, st: Store, st1: Store, f: FileId, n: int, low: set<int>, same: iset<Block>)
    requires Inv(c, st) && Inv(c, st1) && LowShows(st, low, same)
    requires Key(f, n) in st.fileBlocks && st1.fileBlocks == st.fileBlocks && View(st1) == View(st)
    requires forall k :: k in st.fileBlocks ==> RowOf(st1, k) == RowOf(st, k)
    ensures LowShows(st1, low + {RowOf(st, Key(f, n))}, same + iset{BytesOf(st, Key(f, n))})
  {
    hide FindRow, BytesOf, Integrity, Placed, Refs, View;
    var k := Key(f, n);
    ViewBlocks(st);
    ViewBlocks(st1);
    forall j | j in st1.fileBlocks
      ensures BytesOf(st1, j) == BytesOf(st, j) && (BytesOf(st, j) == BytesOf(st, k) <==> RowOf(st, j) == RowOf(st, k))
    {
      SameBytesSameRow(c, st, j, k);
    }
  }

  // ---------- The loop of `writeBuf` ----------

  /** Some chunk goes to a block with bytes that an earlier chunk left as they were, or that are in `same`. */
  ghost predicate Trips(c: Config, a: Sparse, f: FileId, n: int, offset: int, buf: seq<Byte>, same: iset<Block>)
    requires SizedFiles(c, a) && 0 <= offset < c.blockSize
    decreases |buf|
  {
    var k := Key(f, n);
    var len := Min(|buf|, c.blockSize - offset);
    var data := Splice(BlockAt(c, a, k), offset, buf[..len]);
    || (k in a.blocks && a.blocks[k] in same)
    || (len < |buf| && Trips(c, a.(blocks := a.blocks[k := data]), f, n + 1, 0, buf[len..], SameAfter(a, k, data, same)))
  }

  ghost function SameAfter(a: Sparse, k: Key, data: Block, same: iset<Block>): iset<Block> {
    if k in a.blocks && a.blocks[k] == data then same + iset{data} else same
  }

  /** What holds between two chunks: exact counts but for the rows `low`, and no entries for the blocks to come. */
  ghost predicate Going(
      c: Config, seen: iset<Block>, st: Store, h: Handle, n: int, end: int, low: set<int>, same: iset<Block>)
  {
    && Ready(c, seen, st, h, iset{}) && SizedFiles(c, View(st))
    && low <= st.cache.Keys && LowShows(st, low, same) && Earlier(View(st), h.ino, n, same)
    && 0 <= n && forall m :: n <= m < end ==> m !in h.blocks
  }

  lemma BytesHash(c: Config, st: Store, k: Key)
    requires Linked(c, st) && k in st.fileBlocks
    ensures c.hash(BytesOf(st, k)) == st.fileBlocks[k]
  {
    hide Effective, Stored;
    assert RowOk(c, st, RowOf(st, k));
  }

  lemma LoweredTwice(st: Store, low: set<int>, s: int)
    requires s !in low
    ensures Lowered(Lowered(st, {s}), low) == Lowered(st, low + {s})
  {
  }

  lemma UnchangedGoing(
      c: Config, seen: iset<Block>, st: Store, h: Handle, n: int, end: int, low: set<int>, same: iset<Block>,
      offset: int, chunk: seq<Byte>, now: int) returns (st1: Store)
    requires Going(c, seen, st, h, n, end, low, same) && n < end && DataSized(c, st.cache)
    requires WriteAllowed(c, st, h, n, offset, chunk) && NewBlock(c, st, Key(h.ino, n), offset, chunk) in seen
    requires var k := Key(h.ino, n);
             k in st.fileBlocks && BytesOf(st, k) == NewBlock(c, st, k, offset, chunk) && RowOf(st, k) !in low
    ensures var k := Key(h.ino, n);
            var w := WriteChunk(c, st, h, n, offset, chunk, now);
            && w.Done? && Lowered(w.value.0, low) == Lowered(st1, low + {RowOf(st, k)})
            && Going(c, seen, st1, w.value.1, n + 1, end, low + {RowOf(st, k)}, same + iset{BytesOf(st, k)})
            && View(st1) == View(st)
  {
    hide WriteChunk, Integrity, Exact, Placed, NoCollision, BytesOf, FreshEntry, AllSeen, CollisionFree, FindRow, NewBlock,
         Earlier, LowShows, Lowered, View, Refs, HandleOk, OthersStay;
    var k := Key(h.ino, n);
    InvParts(c, st);
    ViewBlocks(st);
    BytesHash(c, st, k);
    st1 := UnchangedChunk(c, st, h, n, offset, chunk, now);
    WriteChunkStep(c, st, h, n, offset, chunk, now);
    WriteChunkSeen(c, seen, st, h, n, offset, chunk, now);
    var (st', h') := WriteChunk(c, st, h, n, offset, chunk, now).value;
    InvParts(c, st1);
    LoweredView(c, st1, {RowOf(st, k)});
    LoweredTwice(st1, low, RowOf(st, k));
    assert View(st').blocks == View(st).blocks && View(st1) == View(st);
    HandlesStayOk(st', st1, h');
    SameBytesSeen(c, seen, st', st1);
    UnchangedLow(c, st, st1, h.ino, n, low, same);
    EarlierGrows(View(st), h.ino, n, same);
  }

  /** One chunk fails if and only if its block has bytes that an earlier chunk left as they were. */
  lemma RewriteIteration(
      c: Config, seen: iset<Block>, st: Store, h: Handle, n: int, end: int, low: set<int>, same: iset<Block>,
      offset: int, chunk: seq<Byte>, now: int) returns (st1: Store, low1: set<int>)
    requires Going(c, seen, st, h, n, end, low, same) && n < end
    requires 0 <= offset && offset + |chunk| <= c.blockSize && n * c.blockSize < st.sizes[h.ino]
    requires Splice(BlockAt(c, View(st), Key(h.ino, n)), offset, chunk) in seen
    ensures HandleOk(Lowered(st, low), h) && DataSized(c, Lowered(st, low).cache)
    ensures var k := Key(h.ino, n);
            var data := Splice(BlockAt(c, View(st), k), offset, chunk);
            var r := WriteChunk(c, Lowered(st, low), h, n, offset, chunk, now);
            && (r.Done? <==> !(k in View(st).blocks && View(st).blocks[k] in same))
            && (r.Done? ==>
                 && r.value.0 == Lowered(st1, low1)
                 && Going(c, seen, st1, r.value.1, n + 1, end, low1, SameAfter(View(st), k, data, same))
                 && View(st1) == View(st).(blocks := View(st).blocks[k := data])
                 && r.value.1.ino == h.ino && r.value.1.size == h.size
                 && (low1 == {} <==> low == {} && !(k in View(st).blocks && View(st).blocks[k] == data)))
  {
    hide WriteChunk, Integrity, Exact, Placed, NoCollision, BytesOf, FreshEntry, Splice, AllSeen, CollisionFree, FindRow,
         OthersStay, EntriesStay, Earlier, LowShows, Lowered, View, Refs, HandleOk;
    var k := Key(h.ino, n);
    InvParts(c, st);
    RowsAreStored(c, st);
    ViewBlocks(st);
    ViewSizes(st);
    var data := NewBlock(c, st, k, offset, chunk);
    SeenMeansNoCollision(c, seen, st, data);
    ForgottenIsUsable(st, h, n);
    if k in st.fileBlocks {
      LowMatches(st, low, same, k);
      if RowOf(st, k) in low {
        LowIsShared(c, st, h.ino, n, low, same);
      }
    }
    LoweredChunk(c, st, h, n, offset, chunk, now, low);
    WriteChunkStep(c, st, h, n, offset, chunk, now);
    WriteChunkSeen(c, seen, st, h, n, offset, chunk, now);
    var (st', h') := WriteChunk(c, st, h, n, offset, chunk, now).value;
    ViewSizes(st');
    st1, low1 := st', low;
    if !(k in st.fileBlocks && BytesOf(st, k) in same) {
      if k in st.fileBlocks && BytesOf(st, k) == data {
        st1 := UnchangedGoing(c, seen, st, h, n, end, low, same, offset, chunk, now);
        low1 := low + {RowOf(st, k)};
      } else {
        HashChanges(c, seen, st, k, data);
        ChangedLow(c, st, st', h.ino, n, data, low, same);
        EarlierStays(View(st), View(st'), h.ino, n, data, same);
        ViewIsSized(c, st');
      }
    }
  }

  lemma LowMatches(st: Store, low: set<int>, same: iset<Block>, k: Key)
    requires LowShows(st, low, same) && k in st.fileBlocks
    ensures AllFound(st) && (RowOf(st, k) in low <==> BytesOf(st, k) in same)
  {
  }

  /** The loop fails if and only if some chunk trips over an earlier one, and the counts stay exact if and only if all alter. */
  lemma RewriteFrom(
      c: Config, seen: iset<Block>, st: Store, h: Handle, n: int, end: int, low: set<int>, same: iset<Block>,
      offset: int, buf: seq<Byte>, now: int) returns (st1: Store, low1: set<int>)
    requires Going(c, seen, st, h, n, end, low, same) && 0 <= offset < c.blockSize && |buf| > 0
    requires n * c.blockSize + offset + |buf| <= end * c.blockSize && n * c.blockSize + offset + |buf| <= st.sizes[h.ino]
    requires Gives(c, seen, View(st), h.ino, n, offset, buf)
    ensures Integrity(c, Lowered(st, low)) && HandleOk(Lowered(st, low), h)
    ensures var r := WriteFrom(c, Lowered(st, low), h, n, offset, buf, now);
            && (r.Done? <==> !Trips(c, View(st), h.ino, n, offset, buf, same))
            && (r.Done? ==>
                 && r.value.0 == Lowered(st1, low1) && Inv(c, st1) && low1 <= st1.cache.Keys
                 && View(st1) == Written(c, View(st), h.ino, n, offset, buf)
                 && (low1 == {} <==> low == {} && Alters(c, View(st), h.ino, n, offset, buf))
                 && HandleOk(st1, r.value.1) && r.value.1.ino == h.ino && r.value.1.size == h.size)
    decreases |buf|
  {
    hide WriteChunk, View, Inv, HandleOk, AllSeen, CollisionFree, Splice, Usable, Lowered, LowShows, Earlier, SameAfter;
    InvParts(c, st);
    LowerIntegrity(c, st, low);
    var len := Min(|buf|, c.blockSize - offset);
    FewerBlocks(n, end, c.blockSize);
    st1, low1 := RewriteIteration(c, seen, st, h, n, end, low, same, offset, buf[..len], now);
    var r := WriteChunk(c, Lowered(st, low), h, n, offset, buf[..len], now);
    if r.Done? && len < |buf| {
      var k := Key(h.ino, n);
      var data := Splice(BlockAt(c, View(st), k), offset, buf[..len]);
      ViewSizes(st);
      ViewSizes(st1);
      NextMultiple(n, c.blockSize);
      st1, low1 := RewriteFrom(c, seen, st1, r.value.1, n + 1, end, low1, SameAfter(View(st), k, data, same), 0, buf[len..], now);
    }
  }

  lemma TripsIgnoresSizes(c: Config, a: Sparse, a': Sparse, f: FileId, n: int, offset: int, buf: seq<Byte>, same: iset<Block>)
    requires SizedFiles(c, a) && a'.blocks == a.blocks && 0 <= offset < c.blockSize
    ensures SizedFiles(c, a')
    ensures Trips(c, a', f, n, offset, buf, same) == Trips(c, a, f, n, offset, buf, same)
    decreases |buf|
  {
    hide Splice;
    var k := Key(f, n);
    var len := Min(|buf|, c.blockSize - offset);
    if len < |buf| {
      var data := Splice(BlockAt(c, a, k), offset, buf[..len]);
      TripsIgnoresSizes(c, a.(blocks := a.blocks[k := data]), a'.(blocks := a.blocks[k := data]), f, n + 1, 0, buf[len..],
                        SameAfter(a, k, data, same));
    }
  }

  /**
   `writeBuf` through a handle that has not used the blocks it goes to, whether or not the buffer changes them. It fails
   if and only if some chunk goes to a block with bytes that an earlier chunk wrote over themselves. If it completes,
   the bytes are spliced in, and the counts are exact if and only if every chunk changed its block or filled a
   hole.
   */
  lemma WriteBufOutcome(c: Config, seen: iset<Block>, st: Store, h: Handle, buf: seq<Byte>, offset: int, now: int)
    requires Ready(c, seen, st, h, iset{}) && SizedFiles(c, View(st)) && 0 <= offset && |buf| > 0
    requires forall m :: m in WriteRange(c, offset, |buf|) ==> m !in h.blocks
    requires Gives(c, seen, View(st), h.ino, offset / c.blockSize, offset % c.blockSize, buf)
    ensures Integrity(c, st) && HandleOk(st, h)
    ensures var r := WriteBuf(c, st, h, buf, offset, now);
            var n, o := offset / c.blockSize, offset % c.blockSize;
            && (r.Done? <==> !Trips(c, View(st), h.ino, n, o, buf, iset{}))
            && (r.Done? ==>
                 && Integrity(c, r.value.0) && HandleOk(r.value.0, r.value.1)
                 && View(r.value.0) == FilesAfterWrite(c, View(st), h.ino, offset, buf)
                 && (Inv(c, r.value.0) <==> Alters(c, View(st), h.ino, n, o, buf))
                 && r.value.1.ino == h.ino && r.value.1.size == Max(h.size, offset + |buf|))
  {
    hide View, HandleOk, AllSeen, CollisionFree, Written, Ftruncate, WriteFrom, Gives, Trips, Alters, Usable, BlocksOf, Integrity,
         Exact, Placed, LowerRows, Earlier, LowShows;
    InvParts(c, st);
    var size := Max(h.size, offset + |buf|);
    GrowReady(c, seen, st, h, size, iset{});
    var (st1, h1) := Ftruncate(st, h, size);
    if size == h.size {
      assert (st1, h1) == (st, h) by {
        SameSize(st, h);
      }
    }
    ViewSizes(st);
    ViewSizes(st1);
    var n, o, end := offset / c.blockSize, offset % c.blockSize, BlocksOf(c, offset + |buf|);
    ChangesIgnoresSizes(c, seen, View(st), View(st1), h.ino, n, o, buf);
    TripsIgnoresSizes(c, View(st), View(st1), h.ino, n, o, buf, iset{});
    Joined(c.blockSize, offset);
    NonNegativeQuotient(offset, c.blockSize);
    BlocksCover(c, offset + |buf|);
    AtFirst(c, seen, st1, h1, n, end) by {
      forall m | n <= m < end
        ensures m !in h.blocks
      {
        assert InRange(m, n, end);
      }
    }
    var st2, low2 := RewriteFrom(c, seen, st1, h1, n, end, {}, iset{}, o, buf, now);
    NothingLowered(st1);
    if !Trips(c, View(st), h.ino, n, o, buf, iset{}) {
      InvParts(c, st2);
      LoweredView(c, st2, low2);
      LoweredExact(c, st2, low2);
      assert HandleOk(Lowered(st2, low2), WriteFrom(c, st1, h1, n, o, buf, now).value.1) by {
        LoweredKeys(st2.rows, low2);
        HandlesStayOk(st2, Lowered(st2, low2), WriteFrom(c, st1, h1, n, o, buf, now).value.1);
      }
    }
  }

  lemma NothingLowered(st: Store)
    ensures Lowered(st, {}) == st
  {
    assert LowerRows(st.rows, {}) == st.rows;
  }

  lemma AtFirst(c: Config, seen: iset<Block>, st: Store, h: Handle, n: int, end: int)
    requires Ready(c, seen, st, h, iset{}) && SizedFiles(c, View(st)) && 0 <= n
    requires forall m :: n <= m < end ==> m !in h.blocks
    ensures Going(c, seen, st, h, n, end, {}, iset{})
  {
    hide Integrity, Placed, View, HandleOk, AllSeen, CollisionFree;
  }
}
