/**
 Where the guarantees of the store end: exact conditions, and small stores on the wrong side of them.
 */
module StoreLimits {
  import opened Basics
  import opened Bytes
  import opened StoreModel
  import opened StoreIntegrity
  import opened StoreExact
  import opened StoreSteps
  import opened StoreCounts
  import opened StoreReuse
  import opened StoreBuffers
  import opened StoreRewrites
  import opened FlatFiles

  /**
   Writing a chunk and reading the block again through one handle, with or without a pass of the writer in between:
   the block comes back if and only if the write did not leave the entry without a pointer and marked as empty,
   or the block is all zeros. The entry of a new handle counts as empty for a hole. The counts are exact
   after the reread if and only if they were after the write, and the lookup need not cache the block anew.
   */
  lemma WriteThenReread(
      c: Config, st: Store, h: Handle, n: int, offset: int, chunk: seq<Byte>, now: int, pass: Option<set<int>>, later: int)
    requires WriteAllowed(c, st, h, n, offset, chunk) && DataSized(c, st.cache)
    ensures var data := NewBlock(c, st, Key(h.ino, n), offset, chunk);
            var w := WriteChunk(c, st, h, n, offset, chunk, now);
            && w.Done? && n in w.value.1.blocks
            && var s := w.value.1.blocks[n].storageBlockNum;
               var (b, hb) := Between(w.value.0, w.value.1, pass);
               && HandleOk(b, hb) && DataSized(c, b.cache)
               && var r := ReadChunk(c, b, hb, n, 0, c.blockSize, later);
                  && r.Done?
                  && (r.value.2 == data <==> !Lost(c, st, h, n, data, pass, s) || data == Zeros(c.blockSize))
                  && (Exact(r.value.0) <==>
                       !SameHash(st, Key(h.ino, n), c.hash(data)) && (MarkedEmpty(st, h, n) || s in b.cache))
  {
    hide WriteChunk, ReadChunk, Integrity, Exact, Placed, View, BytesOf, NoCollision, FindRow, MarkedEmpty, NewBlock, Usable,
         Between, Refs, ExactBut;
    var s := FirstWriteThenPass(c, st, h, n, offset, chunk, now, pass);
    var (st', h') := WriteChunk(c, st, h, n, offset, chunk, now).value;
    var (b, hb) := Between(st', h', pass);
    RereadOutcome(c, b, hb, n, later);
    CountsAfterReread(c, b, hb, n, 0, c.blockSize, later);
    ExactIsExactBut(b, s);
    assert hb.blocks[n].attached ==> s in b.cache;
  }

  // ---------- A store with one block ----------

  /** Blocks of one byte, and a hash without any collision. */
  function Tiny(): Config { Settings(1, (b: Block) => b) }

  /** File 0 holds one byte, 7; file 1 is one hole. */
  function OneBlock(): Store {
    Store(map[0 := 1, 1 := 1], map[Key(0, 0) := [7]], map[1 := Row([7], 1)], 1, map[], map[1 := [7]])
  }

  lemma OneBlockIsExact()
    ensures Inv(Tiny(), OneBlock())
    ensures forall data: Block :: NoCollision(Tiny(), OneBlock(), data)
    ensures FindRow(OneBlock().rows, [7]) == Some(1)
  {
    var st := OneBlock();
    assert RefSet(st.fileBlocks, [7]) == {Key(0, 0)};
    FindsUniqueRow(st.rows, 1);
  }

  /** The byte 7 written to file 1 is stored, but the handle that wrote it reads something else. */
  lemma WrittenByteNotReread(now: int, later: int)
    ensures var st, h := OneBlock(), Handle(1, 1, map[]);
            && HandleOk(st, h)
            && var w := WriteChunk(Tiny(), st, h, 0, 0, [7], now);
               && w.Done? && HandleOk(w.value.0, w.value.1) && DataSized(Tiny(), w.value.0.cache)
               && var r := ReadChunk(Tiny(), w.value.0, w.value.1, 0, 0, 1, later);
                  r.Done? && r.value.2 != [7]
  {
    hide WriteChunk, ReadChunk, Inv, NoCollision;
    OneBlockIsExact();
    ByteBecomes(7);
    WriteThenReread(Tiny(), OneBlock(), Handle(1, 1, map[]), 0, 0, [7], now, None, later);
  }

  lemma ByteBecomes(byte: Byte)
    ensures Inv(Tiny(), OneBlock())
    ensures NewBlock(Tiny(), OneBlock(), Key(1, 0), 0, [byte]) == [byte]
    ensures NewBlock(Tiny(), OneBlock(), Key(0, 0), 0, [byte]) == [byte]
    ensures byte != 0 ==> Zeros(1) != [byte]
  {
    OneBlockIsExact();
    var c, st := Tiny(), OneBlock();
    BlocksAreSized(c, st, Key(0, 0));
    BlocksAreSized(c, st, Key(1, 0));
    var a, b := BlockAt(c, View(st), Key(0, 0)), BlockAt(c, View(st), Key(1, 0));
    assert a[..0] + [byte] + a[1..] == [byte] && b[..0] + [byte] + b[1..] == [byte];
    assert Zeros(1)[0] == 0;
  }

  /** The byte 8 written to file 1 is stored in a new row. Once that is evicted, its handle reads something else. */
  lemma EvictedByteNotReread(now: int, later: int)
    ensures var st, h := OneBlock(), Handle(1, 1, map[]);
            && Inv(Tiny(), st) && HandleOk(st, h)
            && var w := WriteChunk(Tiny(), st, h, 0, 0, [8], now);
               && w.Done? && 0 in w.value.1.blocks
               && var evicted := {w.value.1.blocks[0].storageBlockNum};
                  var (b, hb) := (Evict(FlushAll(w.value.0), evicted), Expire(w.value.1, evicted));
                  && HandleOk(b, hb) && DataSized(Tiny(), b.cache)
                  && var r := ReadChunk(Tiny(), b, hb, 0, 0, 1, later);
                     r.Done? && r.value.2 != [8]
  {
    hide WriteChunk, ReadChunk, Inv, NoCollision, Evict, FlushAll, Expire, Exact;
    var st, h := OneBlock(), Handle(1, 1, map[]);
    OneBlockIsExact();
    ByteBecomes(8);
    var s := FirstWriteThenPass(Tiny(), st, h, 0, 0, [8], now, None);
    WriteThenReread(Tiny(), st, h, 0, 0, [8], now, Some({s}), later);
  }

  /** The byte 7 written over itself in file 0 makes the counts wrong, though no bytes. */
  lemma SameByteMiscounted(now: int)
    ensures var st, h := OneBlock(), Handle(0, 1, map[]);
            && HandleOk(st, h) && Inv(Tiny(), st)
            && var w := WriteChunk(Tiny(), st, h, 0, 0, [7], now);
               w.Done? && Integrity(Tiny(), w.value.0) && !Inv(Tiny(), w.value.0)
  {
    hide WriteChunk, ReadChunk, Inv, NoCollision, Integrity;
    OneBlockIsExact();
    ByteBecomes(7);
    WriteChunkStep(Tiny(), OneBlock(), Handle(0, 1, map[]), 0, 0, [7], now);
  }

  /** Writing nothing to file 1 allocates a block of zeros for its hole. */
  lemma EmptyWriteFillsHole(now: int)
    ensures var c, st, h := Tiny(), OneBlock(), Handle(1, 1, map[]);
            && Inv(c, st) && HandleOk(st, h)
            && var w := WriteBuf(c, st, h, [], 0, now);
               w.Done? && Key(1, 0) in w.value.0.fileBlocks && BytesOf(w.value.0, Key(1, 0)) == [0]
  {
    hide WriteChunk, Inv, NoCollision, BytesOf, WriteBuf, Integrity;
    var c, st, h := Tiny(), OneBlock(), Handle(1, 1, map[]);
    OneBlockIsExact();
    InvParts(c, st);
    EmptyWrite(c, st, h, 0, now);
    NothingIntoHole();
    WriteChunkStep(c, st, h, 0, 0, [], now);
    ViewBlocks(WriteChunk(c, st, h, 0, 0, [], now).value.0);
  }

  lemma NothingIntoHole()
    ensures Inv(Tiny(), OneBlock()) && NewBlock(Tiny(), OneBlock(), Key(1, 0), 0, []) == [0]
  {
    OneBlockIsExact();
    BlocksAreSized(Tiny(), OneBlock(), Key(1, 0));
    assert Zeros(1) == [0];
    assert Zeros(1)[..0] + [] + Zeros(1)[0..] == [0];
  }

  /** Truncating file 1 to nothing fails on its hole. */
  lemma HoleStopsTruncate()
    ensures Inv(Tiny(), OneBlock()) && HandleOk(OneBlock(), Handle(1, 1, map[]))
    ensures Truncate(Tiny(), OneBlock(), Handle(1, 1, map[]), 0).Aborted?
  {
    hide Inv;
    OneBlockIsExact();
    ReleaseOutcome(Tiny(), OneBlock(), Handle(1, 1, map[]), 0);
  }

  /** Blocks of two bytes. */
  function Pair(): Config { Settings(2, (b: Block) => b) }

  /** One file of one block of two bytes. */
  function OneFile(): Store {
    Store(map[0 := 2], map[Key(0, 0) := [7, 8]], map[1 := Row([7, 8], 1)], 1, map[], map[1 := [7, 8]])
  }

  /** A file with the bytes 7 and 8, cut after the first and grown by one, has the bytes 7 and 8 again. */
  lemma CutByteReturns()
    ensures var c, st, h := Pair(), OneFile(), Handle(0, 2, map[]);
            && Inv(c, st) && HandleOk(st, h) && SizedFiles(c, View(st))
            && var r := Truncate(c, st, h, 1);
               && r.Done?
               && var g := Truncate(c, r.value.0, r.value.1, 2);
                  g == Done((st, h)) && Contents(c, View(st), 0) == [7, 8]
  {
    var c, st, h := Pair(), OneFile(), Handle(0, 2, map[]);
    OneFileIsExact();
    hide Inv, View, Contents;
    assert BlocksOf(c, 1) == 1 && BlocksOf(c, 2) == 1;
    assert ReleaseFrom(c, st, h, 1, 1) == Done((st, h));
    assert st.sizes[0 := 1] == map[0 := 1] && map[0 := 1][0 := 2] == st.sizes;
  }

  lemma OneFileIsExact()
    ensures var c, st := Pair(), OneFile();
            Inv(c, st) && SizedFiles(c, View(st)) && Contents(c, View(st), 0) == [7, 8]
  {
    var c, st := Pair(), OneFile();
    assert RefSet(st.fileBlocks, [7, 8]) == {Key(0, 0)};
    FindsUniqueRow(st.rows, 1);
    ViewIsSized(c, st);
    assert View(st).blocks[Key(0, 0)] == [7, 8];
    assert Contents(c, View(st), 0) == [7, 8];
  }

  /** Reading a byte from behind the end of a file fails. */
  lemma ReadBehindEnd(now: int)
    ensures var c, st, h := Pair(), OneFile(), Handle(0, 2, map[]);
            Inv(c, st) && HandleOk(st, h) && ReadBuf(c, st, h, 1, 3, now).Aborted?
  {
    OneFileIsExact();
  }

  // ---------- What a used handle leads to ----------

  /** The handle of file 0 once its block was looked up. */
  function Knows(): Handle { Handle(0, 1, map[0 := BlockInfo(1, Some([7]), false, true)]) }

  /** The same handle after the block was evicted. */
  function Expired(): Handle { Handle(0, 1, map[0 := BlockInfo(1, Some([7]), false, false)]) }

  /** The store with its block cached and read in, counting `n` references. */
  function InCache(n: int, now: int): Store {
    OneBlock().(cache := map[1 := Cached(n, Some([7]), [7], false, true, now)])
  }

  /** Reading block 1 in once it was looked up. */
  lemma ReadsIn(st1: Store, n: int, now: int)
    requires st1 == OneBlock().(cache := map[1 := Cached(n, Some([7]), [], false, true, now)])
    ensures Populate(Tiny(), Touch(st1, 1, now), 1) == Done(InCache(n, now))
  {
    var e := Cached(n, Some([7]), [], false, true, now);
    assert map[1 := e][1 := e] == map[1 := e];
    assert map[1 := e][1 := e.(data := [7])] == map[1 := e.(data := [7])];
  }

  lemma FirstRead(now: int)
    ensures var c, st, h := Tiny(), OneBlock(), Handle(0, 1, map[]);
            HandleOk(st, h) && DataSized(c, st.cache)
            && ReadChunk(c, st, h, 0, 0, 1, now) == Done((InCache(1, now), Knows(), [7]))
  {
    hide Populate;
    var c, st, h := Tiny(), OneBlock(), Handle(0, 1, map[]);
    FindsUniqueRow(st.rows, 1);
    assert LoadFileBlock(c, st, 0, 1, 0) == (BlockInfo(1, Some([7]), false, false), 1);
    var st1 := st.(cache := map[1 := Cached(1, Some([7]), [], false, true, now)]);
    assert GetFileBlock(c, st, h, 0, now) == Done((st1, Knows()));
    ReadsIn(st1, 1, now);
    hide GetFileBlock, Touch;
    assert InCache(1, now).cache[1].data[0..1] == [7];
  }

  lemma PassExpires(now: int)
    ensures Evict(FlushAll(InCache(1, now)), {1}) == OneBlock() && Expire(Knows(), {1}) == Expired()
  {
    var st := FlushAll(InCache(1, now));
    assert st.cache - {1} == map[];
    assert st.disk == map[1 := [7]];
  }

  lemma ReadThroughExpired(now: int)
    ensures var c, st := Tiny(), OneBlock();
            HandleOk(st, Expired()) && DataSized(c, st.cache)
            && ReadChunk(c, st, Expired(), 0, 0, 1, now) == Done((InCache(0, now), Knows(), [7]))
  {
    hide Populate;
    var c, st := Tiny(), OneBlock();
    var st1 := st.(cache := map[1 := Cached(0, Some([7]), [], false, true, now)]);
    assert st.cache[1 := Cached(0, Some([7]), [], false, true, now)] == st1.cache;
    assert Expired().blocks[0 := BlockInfo(1, Some([7]), false, true)] == Knows().blocks;
    assert GetFileBlock(c, st, Expired(), 0, now) == Done((st1, Knows()));
    ReadsIn(st1, 0, now);
    hide GetFileBlock, Touch;
    assert InCache(0, now).cache[1].data[0..1] == [7];
  }

  /**
   A file is read, its block is evicted, and the file is read again, through one handle. After these reads
   the next handle cannot look the block up: the assertion that the counts agree fails.
   */
  lemma ReadsEndInAbort(t1: int, t2: int, t3: int)
    ensures var c, st, h := Tiny(), OneBlock(), Handle(0, 1, map[]);
            && Inv(c, st) && HandleOk(st, h) && DataSized(c, st.cache)
            && var a := ReadChunk(c, st, h, 0, 0, 1, t1);
               && a.Done? && a.value.2 == [7]
               && var (b, hb) := (Evict(FlushAll(a.value.0), {1}), Expire(a.value.1, {1}));
                  && HandleOk(b, hb) && DataSized(c, b.cache)
                  && var d := ReadChunk(c, b, hb, 0, 0, 1, t2);
                     && d.Done? && d.value.2 == [7] && HandleOk(d.value.0, h) && DataSized(c, d.value.0.cache)
                     && ReadChunk(c, d.value.0, h, 0, 0, 1, t3).Aborted?
  {
    OneBlockIsExact();
    FirstRead(t1);
    PassExpires(t1);
    ReadThroughExpired(t2);
    var st := InCache(0, t2);
    FindsUniqueRow(st.rows, 1);
    assert LoadFileBlock(Tiny(), st, 0, 1, 0) == (BlockInfo(1, Some([7]), false, false), 1);
    hide Inv, FlushAll, Evict, Expire;
  }

  /** One file of two blocks with the same byte. */
  function TwoAlike(): Store {
    Store(map[0 := 2], map[Key(0, 0) := [7], Key(0, 1) := [7]], map[1 := Row([7], 2)], 1, map[], map[1 := [7]])
  }

  lemma TwoAlikeIsExact()
    ensures Inv(Tiny(), TwoAlike())
    ensures View(TwoAlike()).blocks == map[Key(0, 0) := [7], Key(0, 1) := [7]]
  {
    var st := TwoAlike();
    assert RefSet(st.fileBlocks, [7]) == {Key(0, 0), Key(0, 1)};
    FindsUniqueRow(st.rows, 1);
  }

  /** Two alike blocks written over themselves: the second chunk goes to what the first left as it was. */
  lemma SecondTrips(a: Sparse)
    requires a.blocks == map[Key(0, 0) := [7], Key(0, 1) := [7]]
    ensures SizedFiles(Tiny(), a) && Trips(Tiny(), a, 0, 0, 0, [7, 7], iset{})
    ensures Gives(Tiny(), iset{[7]}, a, 0, 0, 0, [7, 7])
  {
    var c := Tiny();
    assert [7, 7][..1] == [7] && [7, 7][1..] == [7] && [7][..1] == [7];
    assert Splice([7], 0, [7]) == [7];
    assert a.(blocks := a.blocks[Key(0, 0) := [7]]) == a;
    assert Trips(c, a, 0, 1, 0, [7], iset{[7]});
    assert Splice(BlockAt(c, a, Key(0, 1)), 0, [7][..1]) == [7] && Min(1, c.blockSize) == 1;
    assert Gives(c, iset{[7]}, a, 0, 1, 0, [7]);
  }

  /** A file of two blocks with the same byte, written over itself through a new handle: the second lookup fails. */
  lemma RewriteAborts(now: int)
    ensures var c, st, h := Tiny(), TwoAlike(), Handle(0, 2, map[]);
            && Inv(c, st) && HandleOk(st, h) && Contents(c, View(st), 0) == [7, 7]
            && WriteBuf(c, st, h, [7, 7], 0, now).Aborted?
  {
    hide WriteBuf, Inv, Trips, Gives;
    var c, st, h := Tiny(), TwoAlike(), Handle(0, 2, map[]);
    TwoAlikeIsExact();
    SecondTrips(View(st));
    ViewSizes(st);
    assert Contents(c, View(st), 0) == [7, 7];
    assert Ready(c, iset{[7]}, st, h, iset{});
    WriteBufOutcome(c, iset{[7]}, st, h, [7, 7], 0, now);
  }

  /** File 0 holds the bytes 7 and 0; file 1 is one hole. */
  function OnePair(): Store {
    Store(map[0 := 2, 1 := 2], map[Key(0, 0) := [7, 0]], map[1 := Row([7, 0], 1)], 1, map[], map[1 := [7, 0]])
  }

  lemma OnePairIsExact()
    ensures Inv(Pair(), OnePair())
    ensures FindRow(OnePair().rows, [7, 0]) == Some(1)
    ensures NewBlock(Pair(), OnePair(), Key(1, 0), 0, [7]) == [7, 0]
  {
    var c, st := Pair(), OnePair();
    assert RefSet(st.fileBlocks, [7, 0]) == {Key(0, 0)};
    FindsUniqueRow(st.rows, 1);
    BlocksAreSized(c, st, Key(1, 0));
    assert Zeros(2)[..0] + [7] + Zeros(2)[1..] == [7, 0];
  }

  /** A hash that is the block itself never collides. */
  lemma PairNeverCollides(st: Store, data: Block)
    requires Integrity(Pair(), st)
    ensures NoCollision(Pair(), st, data)
  {
    forall id | id in st.rows
      ensures RowOk(Pair(), st, id)
    {
    }
  }

  /** The bytes 7 and 8 written one after the other to file 1 leave it with the bytes 0 and 8. */
  lemma SecondChunkLosesFirst(t1: int, t2: int)
    ensures var c, st, h := Pair(), OnePair(), Handle(1, 2, map[]);
            && Inv(c, st) && HandleOk(st, h) && DataSized(c, st.cache)
            && var w := WriteChunk(c, st, h, 0, 0, [7], t1);
               && w.Done? && HandleOk(w.value.0, w.value.1) && DataSized(c, w.value.0.cache)
               && var r := WriteChunk(c, w.value.0, w.value.1, 0, 1, [8], t2);
                  r.Done? && Key(1, 0) in r.value.0.fileBlocks && BytesOf(r.value.0, Key(1, 0)) == [0, 8]
  {
    hide WriteChunk, BytesOf, NoCollision, Inv, Integrity;
    var c, st, h := Pair(), OnePair(), Handle(1, 2, map[]);
    OnePairIsExact();
    PairNeverCollides(st, [7, 0]) by {
      InvParts(c, st);
    }
    FirstWrite(c, st, h, 0, 0, [7], t1);
    PairNeverCollides(WriteChunk(c, st, h, 0, 0, [7], t1).value.0, Rewritten(c, [7, 0], true, 1, [8]));
    TwoWrites(c, st, h, 0, 0, [7], t1, None, 1, [8], t2);
    assert Zeros(2)[..1] + [8] + Zeros(2)[2..] == [0, 8];
  }

  // ---------- What a wrong count leads to ----------

  /** Two files share the block [7]; its row counts `n` of them. */
  function Shared(n: int): Store {
    Store(map[0 := 1, 1 := 1], map[Key(0, 0) := [7], Key(1, 0) := [7]], map[1 := Row([7], n)], 1, map[], map[1 := [7]])
  }

  /** The cache once block 1 was looked up. */
  function LookedUp(n: int, now: int): Cached { Cached(n, Some([7]), [], false, true, now) }

  lemma SharedIsExact()
    ensures Inv(Tiny(), Shared(2))
  {
    var st := Shared(2);
    assert RefSet(st.fileBlocks, [7]) == {Key(0, 0), Key(1, 0)};
    FindsUniqueRow(st.rows, 1);
  }

  /** Up to `_writeBlock`, a write of one byte to file 0. */
  lemma PreparedInShared(n: int, byte: Byte, now: int)
    ensures var c, st, h := Tiny(), Shared(n), Handle(0, 1, map[]);
            var st1 := st.(cache := map[1 := LookedUp(n, now)]);
            && HandleOk(st, h) && DataSized(c, st.cache) && EntryOk(st1, Knows().blocks[0])
            && WriteChunk(c, st, h, 0, 0, [byte], now) == Done(WriteBlock(c, st1, Knows(), 0, [byte], now))
  {
    hide WriteBlock;
    var c, st, h := Tiny(), Shared(n), Handle(0, 1, map[]);
    FindsUniqueRow(st.rows, 1);
    var bi := BlockInfo(1, Some([7]), false, false);
    assert LoadFileBlock(c, st, 0, 1, 0) == (bi, n);
    var st1 := st.(cache := map[1 := LookedUp(n, now)]);
    var h1 := Knows();
    assert st.cache[1 := LookedUp(n, now)] == map[1 := LookedUp(n, now)];
    assert GetFileBlock(c, st, h, 0, now) == Done((st1, h1));
    assert Touch(st1, 1, now) == st1 by {
      assert map[1 := LookedUp(n, now)][1 := LookedUp(n, now)] == map[1 := LookedUp(n, now)];
    }
    assert WriteBase(c, st1, h1.blocks[0], 1, now) == Done((st1, Zeros(1)));
    assert Splice(Zeros(1), 0, [byte]) == [byte];
  }

  /** Sharing the block that is there already: the count of the row is lowered with that of the cached block. */
  lemma SharedAgain(n: int, now: int)
    ensures var st1 := Shared(n).(cache := map[1 := LookedUp(n, now)]);
            && EntryOk(st1, Knows().blocks[0])
            && Share(st1, Knows(), 0, [7], 1).0 == Shared(n - 1).(cache := map[1 := LookedUp(n - 1, now)])
  {
    var bi := BlockInfo(1, Some([7]), false, true);
    var rows, cache := map[1 := Row([7], n)], map[1 := LookedUp(n - 1, now)];
    assert Dereferenced(map[1 := LookedUp(n, now)], bi) == cache;
    assert BumpRows(rows, [7], 1) == map[1 := Row([7], n + 1)];
    assert StoreCount(map[1 := Row([7], n + 1)], cache, bi) == map[1 := Row([7], n - 1)];
    assert Shared(n).fileBlocks[Key(0, 0) := [7]] == Shared(n).fileBlocks;
  }

  /** Writing the same byte: the row loses a reference, the cached block does not. */
  lemma RewriteLowersRow(n: int, now: int)
    ensures var c, st, h := Tiny(), Shared(n), Handle(0, 1, map[]);
            && HandleOk(st, h) && DataSized(c, st.cache)
            && var w := WriteChunk(c, st, h, 0, 0, [7], now);
               w.Done? && w.value.0 == Shared(n - 1).(cache := map[1 := LookedUp(n, now)])
  {
    hide WriteChunk, WriteBlock, Share, HandleOk, EntryOk, DataSized, FindRow;
    PreparedInShared(n, 7, now);
    SharedAgain(n, now);
    FindsUniqueRow(Shared(n).rows, 1);
    WriteBlockShares(Tiny(), Shared(n).(cache := map[1 := LookedUp(n, now)]), Knows(), 0, [7], now, 1);
    assert BumpCached(map[1 := LookedUp(n - 1, now)], 1, 1) == map[1 := LookedUp(n, now)];
  }

  /** A pass that forgets the block leaves the wrong count as the only one. */
  lemma PassForgets(n: int, m: int, now: int)
    ensures Evict(FlushAll(Shared(n).(cache := map[1 := LookedUp(m, now)])), {1}) == Shared(n)
  {
    var st := FlushAll(Shared(n).(cache := map[1 := LookedUp(m, now)]));
    assert st.cache - {1} == map[];
    assert st.disk == map[1 := [7]];
  }

  /** The tables after the overwrite of the shared block. */
  function Overwritten(now: int): Store {
    Store(map[0 := 1, 1 := 1], map[Key(0, 0) := [8], Key(1, 0) := [7]], map[1 := Row([8], 1)], 1,
          map[1 := Cached(1, Some([8]), [8], true, true, now)], map[1 := [7]])
  }

  lemma OverwriteInShared(now: int)
    ensures var st1 := Shared(1).(cache := map[1 := LookedUp(1, now)]);
            && EntryOk(st1, Knows().blocks[0])
            && var (st2, h2) := Overwrite(st1, Knows(), 0, [8]);
               0 in h2.blocks && PutData(Tiny(), st2, h2, 0, [8], now).0 == Overwritten(now)
  {
    var st1 := Shared(1).(cache := map[1 := LookedUp(1, now)]);
    var (st2, h2) := Overwrite(st1, Knows(), 0, [8]);
    assert st2.rows == map[1 := Row([8], 1)];
    assert st2.fileBlocks == map[Key(0, 0) := [8], Key(1, 0) := [7]];
    assert h2.blocks[0] == BlockInfo(1, Some([8]), false, true);
    assert st2.cache[1 := Cached(1, Some([8]), [8], true, true, now)] == map[1 := Cached(1, Some([8]), [8], true, true, now)];
  }

  /** With a count of one, the block of both files is overwritten in place. */
  lemma OverwrittenForOne(now: int)
    ensures var c, st, h := Tiny(), Shared(1), Handle(0, 1, map[]);
            && HandleOk(st, h) && DataSized(c, st.cache)
            && var w := WriteChunk(c, st, h, 0, 0, [8], now);
               w.Done? && w.value.0 == Overwritten(now)
  {
    hide WriteChunk, HandleOk, EntryOk, DataSized, Share, Overwrite, Allocate, PutData, Overwritten, BumpCached;
    PreparedInShared(1, 8, now);
    OverwriteInShared(now);
    var st1 := Shared(1).(cache := map[1 := LookedUp(1, now)]);
    assert FindRow(st1.rows, [8]) == None by {
      assert st1.rows[1].hash == [7];
    }
  }

  /**
   Two files share a block. One file writes the same byte again, the block is evicted, and the file writes
   another byte, each time through a new handle. Then the other file reads zero instead of its byte.
   */
  lemma SharedBlockLost(t1: int, t2: int, t3: int)
    ensures var c, h := Tiny(), Handle(0, 1, map[]);
            && Inv(c, Shared(2)) && HandleOk(Shared(2), h) && DataSized(c, Shared(2).cache)
            && BytesOf(Shared(2), Key(1, 0)) == [7]
            && var a := WriteChunk(c, Shared(2), h, 0, 0, [7], t1);
               && a.Done?
               && var b := Evict(FlushAll(a.value.0), {1});
                  && HandleOk(b, h) && DataSized(c, b.cache)
                  && var d := WriteChunk(c, b, h, 0, 0, [8], t2);
                     && d.Done? && HandleOk(d.value.0, Handle(1, 1, map[])) && DataSized(c, d.value.0.cache)
                     && var r := ReadChunk(c, d.value.0, Handle(1, 1, map[]), 0, 0, 1, t3);
                        r.Done? && r.value.2 == [0]
  {
    SharedIsExact();
    FindsUniqueRow(Shared(2).rows, 1);
    RewriteLowersRow(2, t1);
    PassForgets(1, 2, t1);
    OverwrittenForOne(t2);
    hide WriteChunk, Inv, FlushAll, Evict;
    OtherFileReadsZero(t2, t3);
  }

  lemma OtherFileReadsZero(t2: int, t3: int)
    ensures var c, h := Tiny(), Handle(1, 1, map[]);
            && HandleOk(Overwritten(t2), h) && DataSized(c, Overwritten(t2).cache)
            && var r := ReadChunk(c, Overwritten(t2), h, 0, 0, 1, t3);
               r.Done? && r.value.2 == [0]
  {
    var c, st := Tiny(), Overwritten(t2);
    assert FindRow(st.rows, [7]) == None by {
      assert st.rows[1].hash == [8] != [7];
    }
    assert LoadFileBlock(c, st, 1, 1, 0) == (BlockInfo(0, Some([]), false, false), 0);
    assert Zeros(1) == [0];
  }
}
