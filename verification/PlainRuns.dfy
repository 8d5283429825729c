/**
 Runs of whole operations through open handles, against plain byte strings: the files as a user sees them.
 */
module PlainRuns {
  import opened Basics
  import opened Bytes
  import opened StoreModel
  import opened StoreIntegrity
  import opened StoreExact
  import opened StoreSteps
  import opened StoreRuns
  import opened StoreBuffers
  import opened FlatFiles

  /** `hd` names an open handle; `now` is the clock. */
  datatype Op =
    | OpCreate(file: FileId)
    | OpOpen(hd: nat, file: FileId)
    | OpWrite(hd: nat, buf: seq<Byte>, offset: int, now: int)
    | OpRead(hd: nat, size: int, offset: int, now: int)
    | OpTruncate(hd: nat, newSize: int)
    | OpPass(evicted: set<int>)

  // ---------- Integrity over whole operations ----------

  /** A step that leaves integrity and its own handle intact, and takes no row and no cached block away. */
  ghost predicate Intact(c: Config, st: Store, st': Store, h': Handle) {
    Integrity(c, st') && HandleOk(st', h') && st.rows.Keys <= st'.rows.Keys && st.cache.Keys <= st'.cache.Keys
  }

  lemma {:induction false} WriteFromIntact(
      c: Config, st: Store, h: Handle, n: int, offset: int, buf: seq<Byte>, now: int)
    requires Integrity(c, st) && HandleOk(st, h) && 0 <= offset < c.blockSize
    ensures var r := WriteFrom(c, st, h, n, offset, buf, now);
            r.Done? ==> Intact(c, st, r.value.0, r.value.1)
    decreases |buf|
  {
    hide Integrity, HandleOk, WriteChunk;
    var len := Min(|buf|, c.blockSize - offset);
    RowsAreStored(c, st);
    if WriteChunk(c, st, h, n, offset, buf[..len], now).Done? {
      WriteChunkKeepsIntegrity(c, st, h, n, offset, buf[..len], now);
      var (st1, h1) := WriteChunk(c, st, h, n, offset, buf[..len], now).value;
      if len < |buf| {
        WriteFromIntact(c, st1, h1, n + 1, 0, buf[len..], now);
      }
    }
  }

  lemma {:induction false} ReadFromIntact(c: Config, st: Store, h: Handle, n: int, offset: int, len: int, now: int)
    requires Integrity(c, st) && HandleOk(st, h) && 0 <= offset < c.blockSize && 0 <= len
    ensures var r := ReadFrom(c, st, h, n, offset, len, now);
            r.Done? ==> Intact(c, st, r.value.0, r.value.1)
    decreases len
  {
    hide Integrity, HandleOk, ReadChunk;
    var chunk := Min(len, c.blockSize - offset);
    RowsAreStored(c, st);
    if ReadChunk(c, st, h, n, offset, chunk, now).Done? {
      ReadChunkKeepsIntegrity(c, st, h, n, offset, chunk, now);
      var (st1, h1, _) := ReadChunk(c, st, h, n, offset, chunk, now).value;
      if chunk < len {
        ReadFromIntact(c, st1, h1, n + 1, 0, len - chunk, now);
      }
    }
  }

  lemma {:induction false} ReleaseFromIntact(c: Config, st: Store, h: Handle, cur: int, end: int)
    requires Integrity(c, st) && HandleOk(st, h)
    ensures var r := ReleaseFrom(c, st, h, cur, end);
            r.Done? ==> Intact(c, st, r.value.0, r.value.1)
    decreases end - cur
  {
    hide Integrity, HandleOk, ReleaseBlock;
    if cur < end && ReleaseBlock(c, st, h, cur).Done? {
      ReleaseKeepsIntegrity(c, st, h, cur);
      var (st1, h1) := ReleaseBlock(c, st, h, cur).value;
      ReleaseFromIntact(c, st1, h1, cur + 1, end);
    }
  }

  lemma FtruncateIntact(c: Config, st: Store, h: Handle, newSize: int)
    requires Integrity(c, st) && HandleOk(st, h)
    ensures var (st', h') := Ftruncate(st, h, newSize);
            Intact(c, st, st', h')
  {
    hide Integrity, HandleOk;
    FtruncateKeepsIntegrity(c, st, h, newSize);
  }

  lemma WriteBufIntact(c: Config, st: Store, h: Handle, buf: seq<Byte>, offset: int, now: int)
    requires Integrity(c, st) && HandleOk(st, h) && 0 <= offset
    ensures var r := WriteBuf(c, st, h, buf, offset, now);
            r.Done? ==> Intact(c, st, r.value.0, r.value.1)
  {
    hide Integrity, HandleOk, WriteFrom, Ftruncate;
    FtruncateIntact(c, st, h, |buf| + offset);
    var (st1, h1) := if |buf| + offset > h.size then Ftruncate(st, h, |buf| + offset) else (st, h);
    WriteFromIntact(c, st1, h1, offset / c.blockSize, offset % c.blockSize, buf, now);
  }

  lemma TruncateIntact(c: Config, st: Store, h: Handle, newSize: int)
    requires Integrity(c, st) && HandleOk(st, h) && 0 <= newSize
    ensures var r := Truncate(c, st, h, newSize);
            r.Done? ==> Intact(c, st, r.value.0, r.value.1)
  {
    hide Integrity, HandleOk, ReleaseFrom, Ftruncate;
    var start, end := BlocksOf(c, newSize), if h.size != 0 then BlocksOf(c, h.size) else 1;
    if h.size <= newSize {
      FtruncateIntact(c, st, h, newSize);
    } else {
      ReleaseFromIntact(c, st, h, start, end);
      if ReleaseFrom(c, st, h, start, end).Done? {
        var (st1, h1) := ReleaseFrom(c, st, h, start, end).value;
        FtruncateIntact(c, st1, h1, newSize);
      }
    }
  }

  /** The other open handles stay well formed. */
  lemma WorldIntact(c: Config, w: World, hd: nat, st': Store, h': Handle)
    requires WorldOk(c, w) && Intact(c, w.st, st', h')
    ensures WorldOk(c, World(st', w.handles[hd := h']))
  {
    hide Integrity, HandleOk;
    forall d | d in w.handles && d != hd
      ensures HandleOk(st', w.handles[d])
    {
      HandlesStayOk(w.st, st', w.handles[d]);
    }
  }

  // ---------- One operation ----------

  /**
   The operation names an open handle or a file as it should, within the ranges that the store takes; others
   are never made. `sizes` and `ends` are the sizes of files, and the sizes as handles know them.
   */
  predicate Made(sizes: map<FileId, int>, ends: map<nat, int>, op: Op) {
    match op
    case OpCreate(f) => f !in sizes
    case OpOpen(_, f) => f in sizes
    case OpWrite(hd, buf, offset, _) => hd in ends && 0 <= offset && |buf| > 0
    case OpRead(hd, size, offset, _) => hd in ends && 0 <= size && 0 <= offset <= ends[hd]
    case OpTruncate(hd, newSize) => hd in ends && 0 <= newSize
    case OpPass(_) => true
  }

  function Ends(handles: map<nat, Handle>): map<nat, int> {
    map hd | hd in handles :: handles[hd].size
  }

  /** The world after an operation, and the bytes read. */
  ghost function Perform(c: Config, w: World, op: Op): Outcome<(World, seq<Byte>)>
    requires WorldOk(c, w)
  {
    if !Made(w.st.sizes, Ends(w.handles), op) then Done((w, []))
    else
      match op
      case OpCreate(f) => Done((w.(st := w.st.(sizes := w.st.sizes[f := 0])), []))
      case OpOpen(hd, f) => Done((w.(handles := w.handles[hd := Handle(f, w.st.sizes[f], map[])]), []))
      case OpWrite(hd, buf, offset, now) =>
        var (st', h') :- WriteBuf(c, w.st, w.handles[hd], buf, offset, now);
        Done((World(st', w.handles[hd := h']), []))
      case OpRead(hd, size, offset, now) =>
        var (st', h', bytes) :- ReadBuf(c, w.st, w.handles[hd], size, offset, now);
        Done((World(st', w.handles[hd := h']), bytes))
      case OpTruncate(hd, newSize) =>
        var (st', h') :- Truncate(c, w.st, w.handles[hd], newSize);
        Done((World(st', w.handles[hd := h']), []))
      case OpPass(evicted) =>
        Done((World(Evict(FlushAll(w.st), evicted), ExpireAll(w.handles, evicted)), []))
  }

  /** Whatever the handles, whole operations that complete keep the store's integrity. */
  lemma PerformKeepsIntegrity(c: Config, w: World, op: Op)
    requires WorldOk(c, w) && Perform(c, w, op).Done?
    ensures WorldOk(c, Perform(c, w, op).value.0)
  {
    hide Integrity, HandleOk, WriteBuf, ReadBuf, Truncate, Intact, FlushAll, Evict;
    if Made(w.st.sizes, Ends(w.handles), op) {
      match op
      case OpCreate(f) => CreateIntact(c, w, f);
      case OpOpen(hd, f) =>
        EmptyHandleOk(w.st, f, w.st.sizes[f]);
      case OpWrite(hd, buf, offset, now) =>
        WriteBufIntact(c, w.st, w.handles[hd], buf, offset, now);
        var (st', h') := WriteBuf(c, w.st, w.handles[hd], buf, offset, now).value;
        WorldIntact(c, w, hd, st', h');
      case OpRead(hd, size, offset, now) =>
        ReadBufIntact(c, w.st, w.handles[hd], size, offset, now);
        var (st', h', _) := ReadBuf(c, w.st, w.handles[hd], size, offset, now).value;
        WorldIntact(c, w, hd, st', h');
      case OpTruncate(hd, newSize) =>
        TruncateIntact(c, w.st, w.handles[hd], newSize);
        var (st', h') := Truncate(c, w.st, w.handles[hd], newSize).value;
        WorldIntact(c, w, hd, st', h');
      case OpPass(evicted) => PassIntact(c, w, evicted);
    }
  }

  lemma ReadBufIntact(c: Config, st: Store, h: Handle, size: int, offset: int, now: int)
    requires Integrity(c, st) && HandleOk(st, h) && 0 <= size && 0 <= offset <= h.size
    ensures var r := ReadBuf(c, st, h, size, offset, now);
            r.Done? ==> Intact(c, st, r.value.0, r.value.1)
  {
    hide Integrity, HandleOk, ReadFrom;
    ReadFromIntact(c, st, h, offset / c.blockSize, offset % c.blockSize, Min(size, h.size - offset), now);
  }

  lemma PassIntact(c: Config, w: World, evicted: set<int>)
    requires WorldOk(c, w)
    ensures WorldOk(c, World(Evict(FlushAll(w.st), evicted), ExpireAll(w.handles, evicted)))
  {
    NextKeepsIntegrity(c, w, Pass(evicted));
  }

  lemma CreateIntact(c: Config, w: World, f: FileId)
    requires WorldOk(c, w)
    ensures WorldOk(c, w.(st := w.st.(sizes := w.st.sizes[f := 0])))
  {
    hide Integrity;
    SizesKeepIntegrity(c, w.st, w.st.sizes[f := 0]);
  }

  // ---------- Plain files ----------

  /** Files as byte strings, and which file each open handle is for. */
  datatype Plain = Plain(files: map<FileId, seq<Byte>>, handles: map<nat, FileId>)

  function PlainSizes(p: Plain): map<FileId, int> {
    map f | f in p.files :: |p.files[f]|
  }

  function PlainEnds(p: Plain): map<nat, int> {
    map hd | hd in p.handles && p.handles[hd] in p.files :: |p.files[p.handles[hd]]|
  }

  /** What the operation means for ordinary files. */
  function PlainPerform(p: Plain, op: Op): (Plain, seq<Byte>) {
    if !Made(PlainSizes(p), PlainEnds(p), op) then (p, [])
    else
      match op
      case OpCreate(f) => (p.(files := p.files[f := []]), [])
      case OpOpen(hd, f) => (p.(handles := p.handles[hd := f]), [])
      case OpWrite(hd, buf, offset, _) =>
        var f := p.handles[hd];
        (p.(files := p.files[f := PlainWrite(p.files[f], offset, buf)]), [])
      case OpRead(hd, size, offset, _) =>
        var s := p.files[p.handles[hd]];
        (p, s[offset..offset + Min(size, |s| - offset)])
      case OpTruncate(hd, newSize) =>
        var f := p.handles[hd];
        var s := p.files[f];
        (p.(files := p.files[f := if newSize <= |s| then s[..newSize] else s + Zeros(newSize - |s|)]), [])
      case OpPass(_) => (p, [])
  }

  /** The handle may use these blocks of its file. */
  ghost predicate MayUseBlocks(st: Store, h: Handle, ns: iset<int>) {
    Current(st, h) && forall m :: m in ns ==> Usable(st, h, m)
  }

  /** What a shrink needs: no hole in what it releases, and zeros behind the new end in the last block. */
  ghost predicate MayShrink(c: Config, st: Store, h: Handle, newSize: int)
    requires SizedFiles(c, View(st)) && 0 <= newSize < h.size
  {
    && (forall n :: BlocksOf(c, newSize) <= n < BlocksOf(c, h.size) ==> Key(h.ino, n) in st.fileBlocks && Named(st, h, n))
    && forall p :: newSize <= p < BlockEnd(c, newSize) ==> ByteAt(c, View(st), h.ino, p) == 0
  }

  /**
   What has to be seen to before an operation: its handle may use the blocks it goes to, or names the rows of those it
   releases; a write changes every block it goes to, or fills holes; a shrink meets no hole, and leaves
   only zeros behind the new end in the last block.
   */
  ghost predicate Prudent(c: Config, seen: iset<Block>, w: World, op: Op)
    requires SizedFiles(c, View(w.st))
  {
    match op
    case OpCreate(_) => true
    case OpOpen(_, _) => true
    case OpWrite(hd, buf, offset, _) =>
      hd in w.handles ==>
        && MayUseBlocks(w.st, w.handles[hd], WriteRange(c, offset, |buf|))
        && (0 <= offset ==>
             Changes(c, seen, View(w.st), w.handles[hd].ino, offset / c.blockSize, offset % c.blockSize, buf))
    case OpRead(hd, size, offset, _) =>
      hd in w.handles ==> MayUseBlocks(w.st, w.handles[hd], ReadRange(c, w.handles[hd], offset, size))
    case OpTruncate(hd, newSize) =>
      hd in w.handles ==>
        && Current(w.st, w.handles[hd])
        && (0 <= newSize < w.handles[hd].size ==> MayShrink(c, w.st, w.handles[hd], newSize))
    case OpPass(_) => true
  }

  /** The store holds these files, nothing behind their ends, and exact counts. */
  ghost predicate HoldsFiles(c: Config, seen: iset<Block>, st: Store, files: map<FileId, seq<Byte>>) {
    && Inv(c, st) && AllSeen(st, seen) && SizedFiles(c, View(st)) && View(st).sizes == st.sizes
    && files.Keys == st.sizes.Keys
    && forall f :: f in files ==> st.sizes[f] >= 0 && ZeroBeyond(c, View(st), f) && Contents(c, View(st), f) == files[f]
  }

  ghost predicate Holds(c: Config, seen: iset<Block>, w: World, p: Plain) {
    && WorldOk(c, w) && HoldsFiles(c, seen, w.st, p.files)
    && p.handles.Keys == w.handles.Keys
    && forall hd :: hd in w.handles ==> w.handles[hd].ino == p.handles[hd]
  }

  // ---------- Every operation is plain ----------

  lemma SizesAgree(c: Config, seen: iset<Block>, st: Store, files: map<FileId, seq<Byte>>)
    requires HoldsFiles(c, seen, st, files)
    ensures forall f :: f in files ==> |files[f]| == st.sizes[f]
  {
    hide Inv, AllSeen, ZeroBeyond;
    assert forall f :: f in files ==> |Contents(c, View(st), f)| == st.sizes[f];
  }

  /** The same operations are made on both sides. */
  lemma MadeAgrees(c: Config, seen: iset<Block>, w: World, p: Plain, op: Op)
    requires Holds(c, seen, w, p) && Prudent(c, seen, w, op)
    ensures Made(w.st.sizes, Ends(w.handles), op) == Made(PlainSizes(p), PlainEnds(p), op)
  {
    SizesAgree(c, seen, w.st, p.files);
    if op.OpWrite? || op.OpRead? || op.OpTruncate? {
      if op.hd in w.handles {
        assert Current(w.st, w.handles[op.hd]);
      }
    }
  }

  lemma UsableReady(
      c: Config, seen: iset<Block>, st: Store, h: Handle, files: map<FileId, seq<Byte>>, ns: iset<int>)
    requires HoldsFiles(c, seen, st, files) && CollisionFree(c, seen) && HandleOk(st, h) && MayUseBlocks(st, h, ns)
    ensures Ready(c, seen, st, h, ns) && h.ino in files && h.size == st.sizes[h.ino] && Integrity(c, st)
  {
    hide Inv, AllSeen, CollisionFree, HandleOk, Usable;
    InvParts(c, st);
  }

  /** A file whose size and bytes stay is the same file. */
  lemma FileStays(c: Config, a: Sparse, a': Sparse, g: FileId)
    requires SizedFiles(c, a) && SizedFiles(c, a') && g in a.sizes && g in a'.sizes && a'.sizes[g] == a.sizes[g] >= 0
    requires forall p :: p >= 0 ==> ByteAt(c, a', g, p) == ByteAt(c, a, g, p)
    ensures Contents(c, a', g) == Contents(c, a, g) && (ZeroBeyond(c, a, g) ==> ZeroBeyond(c, a', g))
  {
    hide ByteAt;
  }

  lemma WriteHolds(
      c: Config, seen: iset<Block>, st: Store, h: Handle, files: map<FileId, seq<Byte>>, buf: seq<Byte>, offset: int, now: int)
    requires HoldsFiles(c, seen, st, files) && CollisionFree(c, seen) && HandleOk(st, h)
    requires MayUseBlocks(st, h, WriteRange(c, offset, |buf|)) && 0 <= offset && |buf| > 0
    requires Changes(c, seen, View(st), h.ino, offset / c.blockSize, offset % c.blockSize, buf)
    ensures Integrity(c, st) && h.ino in files
    ensures var r := WriteBuf(c, st, h, buf, offset, now);
            && r.Done? && r.value.1.ino == h.ino
            && HoldsFiles(c, seen, r.value.0, files[h.ino := PlainWrite(files[h.ino], offset, buf)])
  {
    hide Inv, AllSeen, CollisionFree, HandleOk, Changes, WriteBuf, ByteAt, FilesAfterWrite, PlainWrite, Contents, ZeroBeyond,
         View, SizedFiles, Usable, Range;
    var ns := WriteRange(c, offset, |buf|);
    UsableReady(c, seen, st, h, files, ns);
    WriteBufRefines(c, seen, st, h, buf, offset, now, ns);
    var a, f := View(st), h.ino;
    var (st', h') := WriteBuf(c, st, h, buf, offset, now).value;
    WriteIsPlain(c, a, f, offset, buf);
    ViewIsSized(c, st');
    ViewSizes(st');
    forall g | g in files && g != f
      ensures ZeroBeyond(c, View(st'), g)
    {
      forall p | p >= 0
        ensures ByteAt(c, View(st'), g, p) == ByteAt(c, a, g, p)
      {
        WriteByte(c, a, f, offset, buf, g, p);
      }
      FileStays(c, a, View(st'), g);
    }
  }

  lemma ReadHolds(
      c: Config, seen: iset<Block>, st: Store, h: Handle, files: map<FileId, seq<Byte>>, size: int, offset: int, now: int,
      ns: iset<int>)
    requires HoldsFiles(c, seen, st, files) && CollisionFree(c, seen) && HandleOk(st, h) && MayUseBlocks(st, h, ns)
    requires 0 <= size && 0 <= offset <= h.size && ReadRange(c, h, offset, size) <= ns
    ensures Integrity(c, st) && h.ino in files && |files[h.ino]| == h.size
    ensures var r := ReadBuf(c, st, h, size, offset, now);
            && r.Done? && r.value.1.ino == h.ino
            && HoldsFiles(c, seen, r.value.0, files)
            && r.value.2 == files[h.ino][offset..offset + Min(size, h.size - offset)]
            && MayUseBlocks(r.value.0, r.value.1, ns)
  {
    hide Inv, AllSeen, CollisionFree, HandleOk, ReadBuf, ByteAt, Contents, ZeroBeyond, View, SizedFiles, Usable, ReadRange;
    UsableReady(c, seen, st, h, files, ns);
    SizesAgree(c, seen, st, files);
    ReadBufRefines(c, seen, st, h, size, offset, now, ns);
    ReadIsPlain(c, View(st), h.ino, offset, size);
    ViewSizes(st);
    ViewSizes(ReadBuf(c, st, h, size, offset, now).value.0);
  }

  lemma TruncateHolds(
      c: Config, seen: iset<Block>, st: Store, h: Handle, files: map<FileId, seq<Byte>>, newSize: int)
    requires HoldsFiles(c, seen, st, files) && CollisionFree(c, seen) && HandleOk(st, h) && Current(st, h)
    requires 0 <= newSize && (newSize < h.size ==> MayShrink(c, st, h, newSize))
    ensures h.ino in files
    ensures var r := Truncate(c, st, h, newSize);
            var s := files[h.ino];
            && r.Done? && r.value.1.ino == h.ino
            && HoldsFiles(c, seen, r.value.0,
                 files[h.ino := if newSize <= |s| then s[..newSize] else s + Zeros(newSize - |s|)])
  {
    hide Inv, AllSeen, CollisionFree, HandleOk, ByteAt, Contents, ZeroBeyond, View, SizedFiles, BlockEnd,
         FilesAfterShrink, ReleaseFrom, Ftruncate, BlocksOf, MayShrink;
    UsableReady(c, seen, st, h, files, iset{});
    SizesAgree(c, seen, st, files);
    if h.size <= newSize {
      GrowHolds(c, seen, st, h, files, newSize);
    } else {
      ShrinkHolds(c, seen, st, h, files, newSize);
    }
  }

  lemma GrowHolds(
      c: Config, seen: iset<Block>, st: Store, h: Handle, files: map<FileId, seq<Byte>>, newSize: int)
    requires HoldsFiles(c, seen, st, files) && Ready(c, seen, st, h, iset{}) && h.ino in files && h.size <= newSize
    ensures var (st', h') := Ftruncate(st, h, newSize);
            var s := files[h.ino];
            && h'.ino == h.ino && |s| == h.size
            && HoldsFiles(c, seen, st', files[h.ino := s + Zeros(newSize - |s|)])
  {
    hide Inv, AllSeen, CollisionFree, HandleOk, ByteAt, Contents, ZeroBeyond, View, SizedFiles, Ftruncate, Usable;
    SizesAgree(c, seen, st, files);
    GrowReady(c, seen, st, h, newSize, iset{});
    var st' := Ftruncate(st, h, newSize).0;
    var a, f := View(st), h.ino;
    GrowIsPlain(c, a, f, newSize);
    ViewIsSized(c, st');
    ViewSizes(st');
    forall g | g in files && g != f
      ensures ZeroBeyond(c, View(st'), g) && Contents(c, View(st'), g) == Contents(c, a, g)
    {
      SameBlocksSameBytes(c, a, View(st'));
      FileStays(c, a, View(st'), g);
    }
  }

  lemma SameBlocksSameBytes(c: Config, a: Sparse, a': Sparse)
    requires SizedFiles(c, a) && SizedFiles(c, a') && a'.blocks == a.blocks
    ensures forall g, p :: ByteAt(c, a', g, p) == ByteAt(c, a, g, p)
  {
  }

  lemma ShrinkHolds(
      c: Config, seen: iset<Block>, st: Store, h: Handle, files: map<FileId, seq<Byte>>, newSize: int)
    requires HoldsFiles(c, seen, st, files) && Ready(c, seen, st, h, iset{}) && h.ino in files && 0 <= newSize < h.size
    requires MayShrink(c, st, h, newSize)
    ensures var r := Truncate(c, st, h, newSize);
            var s := files[h.ino];
            && r.Done? && r.value.1.ino == h.ino && |s| == h.size
            && HoldsFiles(c, seen, r.value.0, files[h.ino := s[..newSize]])
  {
    hide Inv, AllSeen, CollisionFree, HandleOk, ByteAt, Contents, ZeroBeyond, View, SizedFiles, Truncate, Usable, Named, BlocksOf,
         BlockEnd, FilesAfterShrink;
    SizesAgree(c, seen, st, files);
    TruncateRefines(c, seen, st, h, newSize, iset{});
    var st' := Truncate(c, st, h, newSize).value.0;
    var a, f := View(st), h.ino;
    ShrinkIsPlain(c, a, f, newSize);
    ShrinkSizes(c, a, f, newSize);
    ViewIsSized(c, st');
    ViewSizes(st');
    forall g | g in files && g != f
      ensures ZeroBeyond(c, View(st'), g) && Contents(c, View(st'), g) == Contents(c, a, g)
    {
      OtherBytesStay(c, a, f, newSize, g);
      FileStays(c, a, View(st'), g);
    }
  }

  lemma OtherBytesStay(c: Config, a: Sparse, f: FileId, newSize: int, g: FileId)
    requires SizedFiles(c, a) && g != f
    ensures SizedFiles(c, FilesAfterShrink(c, a, f, newSize))
    ensures forall p :: ByteAt(c, FilesAfterShrink(c, a, f, newSize), g, p) == ByteAt(c, a, g, p)
  {
  }

  lemma CreateHolds(c: Config, seen: iset<Block>, st: Store, files: map<FileId, seq<Byte>>, f: FileId)
    requires HoldsFiles(c, seen, st, files) && f !in files
    ensures HoldsFiles(c, seen, st.(sizes := st.sizes[f := 0]), files[f := []])
  {
    hide Integrity, Exact, AllSeen, ByteAt, BytesOf;
    var st' := st.(sizes := st.sizes[f := 0]);
    InvParts(c, st);
    SizesStep(c, st, st'.sizes);
    SameBytesSeen(c, seen, st, st');
    ViewIsSized(c, st');
    SameBlocksSameBytes(c, View(st), View(st'));
    NoBlocksNoBytes(c, View(st'), f);
    hide Inv, SizedFiles;
    forall g | g in files
      ensures ZeroBeyond(c, View(st'), g) && Contents(c, View(st'), g) == Contents(c, View(st), g)
    {
      FileStays(c, View(st), View(st'), g);
    }
  }

  /** A file without bytes has no blocks, and its row can go. */
  lemma RemoveHolds(c: Config, seen: iset<Block>, st: Store, files: map<FileId, seq<Byte>>, f: FileId)
    requires HoldsFiles(c, seen, st, files) && f in files && files[f] == []
    ensures HoldsFiles(c, seen, st.(sizes := st.sizes - {f}), files - {f})
  {
    hide Integrity, Exact, AllSeen, ByteAt, BytesOf;
    var st' := st.(sizes := st.sizes - {f});
    InvParts(c, st);
    EmptyFileHasNoBlocks(c, st, f) by {
      assert |Contents(c, View(st), f)| == st.sizes[f];
    }
    SizesStep(c, st, st'.sizes);
    SameBytesSeen(c, seen, st, st');
    ViewIsSized(c, st');
    SameBlocksSameBytes(c, View(st), View(st'));
    hide Inv, SizedFiles;
    forall g | g in files && g != f
      ensures ZeroBeyond(c, View(st'), g) && Contents(c, View(st'), g) == Contents(c, View(st), g)
    {
      FileStays(c, View(st), View(st'), g);
    }
  }

  lemma NoBlocksNoBytes(c: Config, a: Sparse, f: FileId)
    requires SizedFiles(c, a) && forall k :: k in a.blocks ==> k.file != f
    ensures forall p :: ByteAt(c, a, f, p) == 0
  {
  }

  lemma PassHolds(c: Config, seen: iset<Block>, st: Store, files: map<FileId, seq<Byte>>, evicted: set<int>)
    requires HoldsFiles(c, seen, st, files)
    ensures HoldsFiles(c, seen, Evict(FlushAll(st), evicted), files)
  {
    hide Inv, AllSeen, ByteAt, View, Contents, ZeroBeyond, SizedFiles;
    PassStep(c, st, evicted);
    InvParts(c, st);
    SameBytesSeen(c, seen, st, Evict(FlushAll(st), evicted));
    ViewSizes(Evict(FlushAll(st), evicted));
  }

  /** The outcome of an operation on the plain side, when it completes. */
  ghost predicate Matches(c: Config, seen: iset<Block>, w: World, p: Plain, op: Op)
    requires WorldOk(c, w)
  {
    && Perform(c, w, op).Done?
    && var (w', bytes) := Perform(c, w, op).value;
       var (p', bytes') := PlainPerform(p, op);
       && bytes == bytes' && HoldsFiles(c, seen, w'.st, p'.files)
       && p'.handles.Keys == w'.handles.Keys && forall hd :: hd in w'.handles ==> w'.handles[hd].ino == p'.handles[hd]
  }

  lemma WriteMatches(c: Config, seen: iset<Block>, w: World, p: Plain, op: Op)
    requires CollisionFree(c, seen) && Holds(c, seen, w, p) && Prudent(c, seen, w, op)
    requires op.OpWrite? && Made(w.st.sizes, Ends(w.handles), op)
    ensures Matches(c, seen, w, p, op)
  {
    hide CollisionFree, HoldsFiles, Integrity, HandleOk, WriteBuf, MayUseBlocks, WriteRange, Changes, View, PlainWrite;
    MadeAgrees(c, seen, w, p, op);
    WriteHolds(c, seen, w.st, w.handles[op.hd], p.files, op.buf, op.offset, op.now);
  }

  lemma ReadMatches(c: Config, seen: iset<Block>, w: World, p: Plain, op: Op)
    requires CollisionFree(c, seen) && Holds(c, seen, w, p) && Prudent(c, seen, w, op)
    requires op.OpRead? && Made(w.st.sizes, Ends(w.handles), op)
    ensures Matches(c, seen, w, p, op)
  {
    hide CollisionFree, HoldsFiles, Integrity, HandleOk, ReadBuf, ReadRange, View;
    MadeAgrees(c, seen, w, p, op);
    ReadHolds(c, seen, w.st, w.handles[op.hd], p.files, op.size, op.offset, op.now,
              ReadRange(c, w.handles[op.hd], op.offset, op.size));
  }

  lemma TruncateMatches(c: Config, seen: iset<Block>, w: World, p: Plain, op: Op)
    requires CollisionFree(c, seen) && Holds(c, seen, w, p) && Prudent(c, seen, w, op)
    requires op.OpTruncate? && Made(w.st.sizes, Ends(w.handles), op)
    ensures Matches(c, seen, w, p, op)
  {
    hide CollisionFree, HoldsFiles, Integrity, HandleOk, Truncate, MayShrink, View;
    MadeAgrees(c, seen, w, p, op);
    TruncateHolds(c, seen, w.st, w.handles[op.hd], p.files, op.newSize);
  }

  lemma CreateMatches(c: Config, seen: iset<Block>, w: World, p: Plain, op: Op)
    requires Holds(c, seen, w, p) && Prudent(c, seen, w, op) && op.OpCreate? && Made(w.st.sizes, Ends(w.handles), op)
    ensures Matches(c, seen, w, p, op)
  {
    hide HoldsFiles, WorldOk, View;
    MadeAgrees(c, seen, w, p, op);
    CreateHolds(c, seen, w.st, p.files, op.file) by {
      SizesAgree(c, seen, w.st, p.files);
    }
  }

  lemma OpenMatches(c: Config, seen: iset<Block>, w: World, p: Plain, op: Op)
    requires Holds(c, seen, w, p) && Prudent(c, seen, w, op) && op.OpOpen? && Made(w.st.sizes, Ends(w.handles), op)
    ensures Matches(c, seen, w, p, op)
  {
    hide HoldsFiles, WorldOk, View;
    MadeAgrees(c, seen, w, p, op);
  }

  lemma PassMatches(c: Config, seen: iset<Block>, w: World, p: Plain, op: Op)
    requires Holds(c, seen, w, p) && Prudent(c, seen, w, op) && op.OpPass?
    ensures Matches(c, seen, w, p, op)
  {
    hide HoldsFiles, WorldOk, View, FlushAll, Evict;
    MadeAgrees(c, seen, w, p, op);
    PassHolds(c, seen, w.st, p.files, op.evicted);
  }

  lemma OperationMatches(c: Config, seen: iset<Block>, w: World, p: Plain, op: Op)
    requires CollisionFree(c, seen) && Holds(c, seen, w, p) && Prudent(c, seen, w, op)
    ensures Matches(c, seen, w, p, op)
  {
    if Made(w.st.sizes, Ends(w.handles), op) {
      hide Matches, Holds, Prudent, Made, CollisionFree;
      match op
      case OpCreate(_) => CreateMatches(c, seen, w, p, op);
      case OpOpen(_, _) => OpenMatches(c, seen, w, p, op);
      case OpWrite(_, _, _, _) => WriteMatches(c, seen, w, p, op);
      case OpRead(_, _, _, _) => ReadMatches(c, seen, w, p, op);
      case OpTruncate(_, _) => TruncateMatches(c, seen, w, p, op);
      case OpPass(_) => PassMatches(c, seen, w, p, op);
    } else {
      MadeAgrees(c, seen, w, p, op);
      hide HoldsFiles, WorldOk, Prudent, Made;
    }
  }

  /** One operation through the store does what it does to plain files, and returns the same bytes. */
  lemma OperationIsPlain(c: Config, seen: iset<Block>, w: World, p: Plain, op: Op)
    requires CollisionFree(c, seen) && Holds(c, seen, w, p) && Prudent(c, seen, w, op)
    ensures Perform(c, w, op).Done?
    ensures var (w', bytes) := Perform(c, w, op).value;
            bytes == PlainPerform(p, op).1 && Holds(c, seen, w', PlainPerform(p, op).0)
  {
    hide CollisionFree, HoldsFiles, WorldOk, View, Prudent, Perform, PlainPerform;
    OperationMatches(c, seen, w, p, op);
    PerformKeepsIntegrity(c, w, op);
  }

  // ---------- Runs ----------

  ghost function PerformAll(c: Config, w: World, ops: seq<Op>): Outcome<(World, seq<seq<Byte>>)>
    requires WorldOk(c, w)
    decreases |ops|
  {
    if ops == [] then Done((w, []))
    else
      var (w1, bytes) :- Perform(c, w, ops[0]);
      PerformKeepsIntegrity(c, w, ops[0]);
      var (w2, rest) :- PerformAll(c, w1, ops[1..]);
      Done((w2, [bytes] + rest))
  }

  function PlainPerformAll(p: Plain, ops: seq<Op>): (Plain, seq<seq<Byte>>)
    decreases |ops|
  {
    if ops == [] then (p, [])
    else
      var (p1, bytes) := PlainPerform(p, ops[0]);
      var (p2, rest) := PlainPerformAll(p1, ops[1..]);
      (p2, [bytes] + rest)
  }

  /** Before every operation of the run it is prudent. */
  ghost predicate PrudentRun(c: Config, seen: iset<Block>, w: World, ops: seq<Op>)
    requires WorldOk(c, w)
    decreases |ops|
  {
    ops != [] ==>
      && SizedFiles(c, View(w.st)) && Prudent(c, seen, w, ops[0])
      && (Perform(c, w, ops[0]).Done? ==>
           (PerformKeepsIntegrity(c, w, ops[0]);
            PrudentRun(c, seen, Perform(c, w, ops[0]).value.0, ops[1..])))
  }

  /**
   Over every prudent run of whole writes, reads, truncates and writer passes on any files through any
   handles, used again or new: no operation fails, reads return what plain byte strings return, and in the
   end the store holds exactly the plain files, with exact counts.
   */
  lemma {:induction false} RunIsPlain(c: Config, seen: iset<Block>, w: World, p: Plain, ops: seq<Op>)
    requires CollisionFree(c, seen) && Holds(c, seen, w, p) && PrudentRun(c, seen, w, ops)
    ensures PerformAll(c, w, ops).Done?
    ensures var (w', bytes) := PerformAll(c, w, ops).value;
            bytes == PlainPerformAll(p, ops).1 && Holds(c, seen, w', PlainPerformAll(p, ops).0)
    decreases |ops|
  {
    hide CollisionFree, HoldsFiles, Prudent, Perform, PlainPerform, Integrity, HandleOk, View;
    if ops != [] {
      OperationIsPlain(c, seen, w, p, ops[0]);
      RunIsPlain(c, seen, Perform(c, w, ops[0]).value.0, PlainPerform(p, ops[0]).0, ops[1..]);
    }
  }

  /** An empty store holds no files, so every run can start there. */
  lemma EmptyStoreHolds(c: Config, seen: iset<Block>, disk: map<int, Block>)
    ensures Holds(c, seen, World(Store(map[], map[], map[], 0, map[], disk), map[]), Plain(map[], map[]))
  {
  }
}
