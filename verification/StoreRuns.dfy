/**
 Runs of the store: any interleaving of opening files, block writes, reads and releases through many
 handles, size changes and writer passes. Block integrity holds over all of them; runs whose handles
 are fresh look exactly like runs on sparse files.
 */
module StoreRuns {
  import opened Bytes
  import opened StoreModel
  import opened StoreIntegrity
  import opened StoreExact
  import opened StoreSteps

  // ---------- The store as a state machine ----------

  datatype World = World(st: Store, handles: map<nat, Handle>)

  /** One atomic step. `hd` names an open handle; `now` is the clock. */
  datatype Step =
    | Create(f: FileId)
    | Remove(f: FileId)
    | Open(hd: nat, f: FileId)
    | Write(hd: nat, n: int, offset: int, chunk: seq<Byte>, now: int)
    | Read(hd: nat, n: int, offset: int, len: int, now: int)
    | Release(hd: nat, n: int)
    | Resize(hd: nat, newSize: int)
    | Pass(evicted: set<int>)

  ghost predicate WorldOk(c: Config, w: World) {
    Integrity(c, w.st) && forall hd :: hd in w.handles ==> HandleOk(w.st, w.handles[hd])
  }

  /** The step names an open handle and stays inside one block; other calls are never made. */
  predicate Callable(c: Config, s: Step, open: set<nat>) {
    match s
    case Create(_) => true
    case Remove(_) => true
    case Open(_, _) => true
    case Write(hd, _, offset, chunk, _) => hd in open && 0 <= offset && offset + |chunk| <= c.blockSize
    case Read(hd, _, offset, len, _) => hd in open && 0 <= offset && 0 <= len && offset + len <= c.blockSize
    case Release(hd, _) => hd in open
    case Resize(hd, newSize) => hd in open && newSize >= 0
    case Pass(_) => true
  }

  /** All handles after a pass. */
  function ExpireAll(handles: map<nat, Handle>, evicted: set<int>): map<nat, Handle> {
    map hd | hd in handles :: Expire(handles[hd], evicted)
  }

  /** The state after a step and the bytes it returns; a call that cannot be made changes nothing. */
  ghost function Next(c: Config, w: World, s: Step): Outcome<(World, seq<Byte>)>
    requires WorldOk(c, w)
  {
    RowsAreStored(c, w.st);
    if !Callable(c, s, w.handles.Keys) then Done((w, []))
    else
      match s
      case Create(f) =>
        Done((if f in w.st.sizes then w else w.(st := w.st.(sizes := w.st.sizes[f := 0])), []))
      case Remove(f) =>
        Done((w.(st := w.st.(sizes := w.st.sizes - {f})), []))
      case Open(hd, f) =>
        Done((if f in w.st.sizes then w.(handles := w.handles[hd := Handle(f, w.st.sizes[f], map[])]) else w, []))
      case Write(hd, n, offset, chunk, now) =>
        var (st', h') :- WriteChunk(c, w.st, w.handles[hd], n, offset, chunk, now);
        Done((World(st', w.handles[hd := h']), []))
      case Read(hd, n, offset, len, now) =>
        var (st', h', bytes) :- ReadChunk(c, w.st, w.handles[hd], n, offset, len, now);
        Done((World(st', w.handles[hd := h']), bytes))
      case Release(hd, n) =>
        var (st', h') :- ReleaseBlock(c, w.st, w.handles[hd], n);
        Done((World(st', w.handles[hd := h']), []))
      case Resize(hd, newSize) =>
        var (st', h') := Ftruncate(w.st, w.handles[hd], newSize);
        Done((World(st', w.handles[hd := h']), []))
      case Pass(evicted) =>
        Done((World(Evict(FlushAll(w.st), evicted), ExpireAll(w.handles, evicted)), []))
  }

  // ---------- Integrity over every run ----------

  lemma WriteChunkKeepsIntegrity(
      c: Config, st: Store, h: Handle, n: int, offset: int, chunk: seq<Byte>, now: int)
    requires Integrity(c, st) && HandleOk(st, h) && DataSized(c, st.cache)
    requires 0 <= offset && offset + |chunk| <= c.blockSize
    requires WriteChunk(c, st, h, n, offset, chunk, now).Done?
    ensures var (st', h') := WriteChunk(c, st, h, n, offset, chunk, now).value;
            && Integrity(c, st') && HandleOk(st', h')
            && st.rows.Keys <= st'.rows.Keys && st.cache.Keys <= st'.cache.Keys
  {
    hide Integrity, GetFileBlock, WriteBase, WriteBlock;
    GetKeepsIntegrity(c, st, h, n, now);
    var (st1, h1) := GetFileBlock(c, st, h, n, now).value;
    WriteBaseKeepsIntegrity(c, st1, h1.blocks[n], |chunk|, now);
    var (st2, base) := WriteBase(c, st1, h1.blocks[n], |chunk|, now).value;
    HandlesStayOk(st1, st2, h1);
    WriteBlockKeepsIntegrity(c, st2, h1, n, Splice(base, offset, chunk), now);
  }

  lemma ReadChunkKeepsIntegrity(c: Config, st: Store, h: Handle, n: int, offset: int, len: int, now: int)
    requires Integrity(c, st) && HandleOk(st, h) && DataSized(c, st.cache)
    requires 0 <= offset && 0 <= len && offset + len <= c.blockSize
    requires ReadChunk(c, st, h, n, offset, len, now).Done?
    ensures var (st', h', _) := ReadChunk(c, st, h, n, offset, len, now).value;
            && Integrity(c, st') && HandleOk(st', h')
            && st.rows.Keys == st'.rows.Keys && st.cache.Keys <= st'.cache.Keys
  {
    hide Integrity, GetFileBlock, Populate, RowOk;
    GetKeepsIntegrity(c, st, h, n, now);
    var (st1, h1) := GetFileBlock(c, st, h, n, now).value;
    var bi := h1.blocks[n];
    var s := bi.storageBlockNum;
    if bi.attached {
      ZeroOwnsNothing(c, st1);
      RecacheKeepsIntegrity(c, st1, s, st1.cache[s].(atime := now));
      var st2 := Touch(st1, s, now);
      if s != 0 {
        PopulateKeepsIntegrity(c, st2, s);
      }
      HandlesStayOk(st1, ReadChunk(c, st, h, n, offset, len, now).value.0, h1);
    }
  }

  lemma ZeroOwnsNothing(c: Config, st: Store)
    requires Integrity(c, st)
    ensures 0 in st.cache ==> st.cache[0].useCount <= 0
  {
    if 0 in st.cache {
      assert CachedOk(c, st, 0);
    }
  }

  lemma PassKeepsIntegrity(c: Config, st: Store, evicted: set<int>)
    requires Integrity(c, st)
    ensures Integrity(c, Evict(FlushAll(st), evicted)) && SameBytes(st, Evict(FlushAll(st), evicted))
  {
    hide Effective, Stored, RowOk, CachedOk;
    FlushKeepsIntegrity(c, st);
    EvictKeepsIntegrity(c, FlushAll(st), evicted);
  }

  /** Whatever step is taken through whatever handle, if it completes the store keeps its integrity. */
  lemma NextKeepsIntegrity(c: Config, w: World, s: Step)
    requires WorldOk(c, w) && Next(c, w, s).Done?
    ensures WorldOk(c, Next(c, w, s).value.0)
  {
    hide Integrity, WriteChunk, ReadChunk, ReleaseBlock, HandleOk;
    RowsAreStored(c, w.st);
    var w' := Next(c, w, s).value.0;
    if Callable(c, s, w.handles.Keys) {
      match s
      case Create(f) => SizesKeepIntegrity(c, w.st, w'.st.sizes);
      case Remove(f) => SizesKeepIntegrity(c, w.st, w'.st.sizes);
      case Open(hd, f) => EmptyHandleOk(w.st, f, if f in w.st.sizes then w.st.sizes[f] else 0);
      case Write(hd, n, offset, chunk, now) =>
        WriteChunkKeepsIntegrity(c, w.st, w.handles[hd], n, offset, chunk, now);
      case Read(hd, n, offset, len, now) =>
        ReadChunkKeepsIntegrity(c, w.st, w.handles[hd], n, offset, len, now);
      case Release(hd, n) =>
        ReleaseKeepsIntegrity(c, w.st, w.handles[hd], n);
      case Resize(hd, newSize) =>
        SizesKeepIntegrity(c, w.st, w'.st.sizes);
        SizeOfHandle(w'.st, w.handles[hd], newSize);
      case Pass(evicted) => PassKeepsIntegrity(c, w.st, evicted);
    }
    forall hd | hd in w'.handles
      ensures HandleOk(w'.st, w'.handles[hd])
    {
      if s.Pass? {
        HandlesStayOk(w.st, FlushAll(w.st), w.handles[hd]);
        ExpireKeepsHandles(FlushAll(w.st), w.handles[hd], s.evicted);
      } else if hd in w.handles {
        HandlesStayOk(w.st, w'.st, w.handles[hd]);
      }
    }
  }

  lemma EmptyHandleOk(st: Store, f: FileId, size: int)
    ensures HandleOk(st, Handle(f, size, map[]))
  {
  }

  lemma SizeOfHandle(st: Store, h: Handle, size: int)
    ensures HandleOk(st, h) ==> HandleOk(st, h.(size := size))
  {
  }

  /** A whole run: the final state and what each step returned. */
  ghost function Run(c: Config, w: World, steps: seq<Step>): Outcome<(World, seq<seq<Byte>>)>
    requires WorldOk(c, w)
    decreases |steps|
  {
    if steps == [] then Done((w, []))
    else
      var (w1, bytes) :- Next(c, w, steps[0]);
      NextKeepsIntegrity(c, w, steps[0]);
      var (w2, rest) :- Run(c, w1, steps[1..]);
      Done((w2, [bytes] + rest))
  }

  /**
   Over every run, through any handles however stale: no two rows share a hash, and the bytes behind
   each row, cached or stored, hash to the hash recorded for it.
   */
  lemma {:induction false} RunKeepsIntegrity(c: Config, w: World, steps: seq<Step>)
    requires WorldOk(c, w) && Run(c, w, steps).Done?
    ensures WorldOk(c, Run(c, w, steps).value.0)
    decreases |steps|
  {
    hide WorldOk, Next;
    if steps != [] {
      NextKeepsIntegrity(c, w, steps[0]);
      RunKeepsIntegrity(c, Next(c, w, steps[0]).value.0, steps[1..]);
    }
  }

  // ---------- The same runs on sparse files ----------

  /** A handle as its user sees it: the file, its size when opened or last set, the blocks used through it. */
  datatype SparseHandle = SparseHandle(file: FileId, size: int, touched: set<int>)

  datatype SparseWorld = SparseWorld(files: Sparse, handles: map<nat, SparseHandle>)

  function SparseNext(c: Config, a: SparseWorld, s: Step): (SparseWorld, seq<Byte>)
    requires SizedFiles(c, a.files)
  {
    if !Callable(c, s, a.handles.Keys) then (a, [])
    else
      match s
      case Create(f) =>
        (if f in a.files.sizes then a else a.(files := a.files.(sizes := a.files.sizes[f := 0])), [])
      case Remove(f) =>
        (a.(files := a.files.(sizes := a.files.sizes - {f})), [])
      case Open(hd, f) =>
        (if f in a.files.sizes then a.(handles := a.handles[hd := SparseHandle(f, a.files.sizes[f], {})]) else a, [])
      case Write(hd, n, offset, chunk, now) =>
        var h := a.handles[hd];
        var k := Key(h.file, n);
        (SparseWorld(a.files.(blocks := a.files.blocks[k := Splice(BlockAt(c, a.files, k), offset, chunk)]),
                     a.handles[hd := h.(touched := h.touched + {n})]), [])
      case Read(hd, n, offset, len, now) =>
        var h := a.handles[hd];
        (a.(handles := a.handles[hd := h.(touched := h.touched + {n})]),
         BlockAt(c, a.files, Key(h.file, n))[offset..offset + len])
      case Release(hd, n) =>
        var h := a.handles[hd];
        (SparseWorld(a.files.(blocks := a.files.blocks - {Key(h.file, n)}),
                     a.handles[hd := h.(touched := h.touched - {n})]), [])
      case Resize(hd, newSize) =>
        var h := a.handles[hd];
        (SparseWorld(a.files.(sizes := a.files.sizes[h.file := newSize]),
                     a.handles[hd := h.(size := newSize)]), [])
      case Pass(_) => (a, [])
  }

  /** The file has not been removed or resized through another handle. */
  predicate CurrentView(a: SparseWorld, hd: nat)
    requires hd in a.handles
  {
    a.handles[hd].file in a.files.sizes && a.handles[hd].size == a.files.sizes[a.handles[hd].file]
  }

  /**
   What a caller has to see to before a step, handles apart: handles are not outdated; a write changes the
   block and stays below the file's size; a release meets no hole; a shrunk or removed file has no blocks
   left above its new end.
   */
  ghost predicate Allowed(c: Config, seen: iset<Block>, a: SparseWorld, s: Step)
    requires SizedFiles(c, a.files)
  {
    Callable(c, s, a.handles.Keys) ==>
      match s
      case Create(_) => true
      case Remove(f) => forall k :: k in a.files.blocks ==> k.file != f
      case Open(_, _) => true
      case Write(hd, n, offset, chunk, _) =>
        var k := Key(a.handles[hd].file, n);
        var data := Splice(BlockAt(c, a.files, k), offset, chunk);
        && CurrentView(a, hd)
        && 0 <= n && n * c.blockSize < a.files.sizes[k.file]
        && data in seen
        && (k in a.files.blocks ==> data != a.files.blocks[k])
      case Read(hd, n, _, _, _) => CurrentView(a, hd)
      case Release(hd, n) => CurrentView(a, hd) && Key(a.handles[hd].file, n) in a.files.blocks
      case Resize(hd, newSize) =>
        && CurrentView(a, hd)
        && forall k :: k in a.files.blocks && k.file == a.handles[hd].file ==> k.offset * c.blockSize < newSize
      case Pass(_) => true
  }

  /** The step uses a block that its handle has not used before, if any. */
  predicate FirstUse(a: SparseWorld, s: Step) {
    match s
    case Write(hd, n, _, _, _) => hd in a.handles && n !in a.handles[hd].touched
    case Read(hd, n, _, _, _) => hd in a.handles && n !in a.handles[hd].touched
    case Release(hd, n) => hd in a.handles && n !in a.handles[hd].touched
    case _ => true
  }

  /** Allowed, and handles are used once per block. */
  ghost predicate Careful(c: Config, seen: iset<Block>, a: SparseWorld, s: Step)
    requires SizedFiles(c, a.files)
  {
    Callable(c, s, a.handles.Keys) ==> Allowed(c, seen, a, s) && FirstUse(a, s)
  }

  /** The step uses a block that its handle may use, for the first time or again. */
  ghost predicate MayUse(w: World, s: Step) {
    match s
    case Write(hd, n, _, _, _) => hd in w.handles && Usable(w.st, w.handles[hd], n)
    case Read(hd, n, _, _, _) => hd in w.handles && Usable(w.st, w.handles[hd], n)
    case Release(hd, n) => hd in w.handles && Named(w.st, w.handles[hd], n)
    case _ => true
  }

  lemma SparseStaysSized(c: Config, a: SparseWorld, s: Step)
    requires SizedFiles(c, a.files)
    ensures SizedFiles(c, SparseNext(c, a, s).0.files)
  {
    hide Splice;
  }

  ghost function SparseRun(c: Config, a: SparseWorld, steps: seq<Step>): (SparseWorld, seq<seq<Byte>>)
    requires SizedFiles(c, a.files)
    decreases |steps|
  {
    if steps == [] then (a, [])
    else
      var (a1, bytes) := SparseNext(c, a, steps[0]);
      SparseStaysSized(c, a, steps[0]);
      var (a2, rest) := SparseRun(c, a1, steps[1..]);
      (a2, [bytes] + rest)
  }

  ghost predicate CarefulRun(c: Config, seen: iset<Block>, a: SparseWorld, steps: seq<Step>)
    requires SizedFiles(c, a.files)
    decreases |steps|
  {
    steps != [] ==>
      && Careful(c, seen, a, steps[0])
      && (SparseStaysSized(c, a, steps[0]);
          CarefulRun(c, seen, SparseNext(c, a, steps[0]).0, steps[1..]))
  }

  // ---------- Refinement ----------

  /** The hash tells the blocks of `seen` apart. */
  ghost predicate CollisionFree(c: Config, seen: iset<Block>) {
    forall x, y :: x in seen && y in seen && c.hash(x) == c.hash(y) ==> x == y
  }

  ghost predicate AllSeen(st: Store, seen: iset<Block>) {
    forall id :: id in st.rows && Stored(st, id) ==> Effective(st, id) in seen
  }

  ghost predicate HandleMatches(h: Handle, v: SparseHandle) {
    h.ino == v.file && h.size == v.size && h.blocks.Keys == v.touched
  }

  ghost predicate Refines(c: Config, seen: iset<Block>, w: World, a: SparseWorld) {
    && Inv(c, w.st) && WorldOk(c, w) && AllSeen(w.st, seen)
    && View(w.st) == a.files
    && w.handles.Keys == a.handles.Keys
    && forall hd :: hd in w.handles ==> HandleMatches(w.handles[hd], a.handles[hd])
  }

  lemma SeenMeansNoCollision(c: Config, seen: iset<Block>, st: Store, data: Block)
    requires CollisionFree(c, seen) && AllSeen(st, seen) && data in seen && Integrity(c, st)
    ensures NoCollision(c, st, data)
    ensures forall k :: k in st.fileBlocks && FindRow(st.rows, st.fileBlocks[k]).Some? && BytesOf(st, k) != data ==>
        st.fileBlocks[k] != c.hash(data)
  {
    forall id | id in st.rows
      ensures RowOk(c, st, id)
    {
    }
  }

  lemma SameBytesSeen(c: Config, seen: iset<Block>, st: Store, st': Store)
    requires Integrity(c, st) && AllSeen(st, seen) && SameBytes(st, st') && st'.rows.Keys == st.rows.Keys
    ensures AllSeen(st', seen)
  {
    hide Effective, Stored, RowOk, CachedOk;
    RowsAreStored(c, st);
  }

  /** A write brings no block into the store but the one written. */
  lemma WriteBlockSeen(c: Config, seen: iset<Block>, st: Store, h: Handle, n: int, data: Block, now: int)
    requires Integrity(c, st) && HandleOk(st, h) && n in h.blocks && |data| == c.blockSize
    requires AllSeen(st, seen) && data in seen
    ensures AllSeen(WriteBlock(c, st, h, n, data, now).0, seen)
  {
    hide Effective, Stored, RowOk, CachedOk, Share, Overwrite, Allocate, PutData, Integrity;
    RowsAreStored(c, st);
    match FindRow(st.rows, c.hash(data))
    case Some(id) =>
      WriteBlockShares(c, st, h, n, data, now, id);
      ShareKeepsIntegrity(c, st, h, n, c.hash(data), id);
      SameBytesSeen(c, seen, st, WriteBlock(c, st, h, n, data, now).0);
    case None =>
      if h.blocks[n].attached && st.cache[h.blocks[n].storageBlockNum].useCount == 1 {
        OverwriteKeepsIntegrity(c, st, h, n, data, now);
      } else {
        AllocateKeepsIntegrity(c, st, h, n, data, now);
      }
  }

  lemma WriteChunkSeen(
      c: Config, seen: iset<Block>, st: Store, h: Handle, n: int, offset: int, chunk: seq<Byte>, now: int)
    requires WriteAllowed(c, st, h, n, offset, chunk) && DataSized(c, st.cache)
    requires AllSeen(st, seen) && NewBlock(c, st, Key(h.ino, n), offset, chunk) in seen
    ensures WriteChunk(c, st, h, n, offset, chunk, now).Done?
    ensures AllSeen(WriteChunk(c, st, h, n, offset, chunk, now).value.0, seen)
  {
    hide Effective, Stored, RowOk, CachedOk, GetFileBlock, WriteBase, NoCollision, View, WriteBlock, FreshEntry,
         Integrity, Exact, Placed, Splice, AllSeen, SameBytes;
    WritePrepared(c, st, h, n, offset, chunk, now);
    var (st1, h1) := GetFileBlock(c, st, h, n, now).value;
    var (st2, base) := WriteBase(c, st1, h1.blocks[n], |chunk|, now).value;
    InvParts(c, st);
    GetKeepsIntegrity(c, st, h, n, now);
    SameBytesSeen(c, seen, st, st1);
    WriteBaseKeepsIntegrity(c, st1, h1.blocks[n], |chunk|, now);
    SameBytesSeen(c, seen, st1, st2);
    InvParts(c, st2);
    WriteBlockSeen(c, seen, st2, h1, n, Splice(base, offset, chunk), now);
  }

  lemma WriteRefines(c: Config, seen: iset<Block>, w: World, a: SparseWorld, s: Step)
    requires CollisionFree(c, seen) && Refines(c, seen, w, a) && SizedFiles(c, a.files)
    requires s.Write? && Callable(c, s, w.handles.Keys) && Allowed(c, seen, a, s) && MayUse(w, s)
    ensures WorldOk(c, w) && Next(c, w, s).Done?
    ensures Refines(c, seen, Next(c, w, s).value.0, SparseNext(c, a, s).0)
    ensures Next(c, w, s).value.1 == SparseNext(c, a, s).1
  {
    hide Effective, Stored, RowOk, CachedOk, WriteChunk, NoCollision, BytesOf, FreshEntry,
         Integrity, Exact, Placed, Splice, AllSeen;
    var Write(hd, n, offset, chunk, now) := s;
    var h := w.handles[hd];
    var k := Key(h.ino, n);
    InvParts(c, w.st);
    RowsAreStored(c, w.st);
    var data := NewBlock(c, w.st, k, offset, chunk);
    SeenMeansNoCollision(c, seen, w.st, data);
    HashChanges(c, seen, w.st, k, data);
    WriteChunkStep(c, w.st, h, n, offset, chunk, now);
    WriteChunkSeen(c, seen, w.st, h, n, offset, chunk, now);
    NextKeepsIntegrity(c, w, s);
  }

  lemma HashChanges(c: Config, seen: iset<Block>, st: Store, k: Key, data: Block)
    requires CollisionFree(c, seen) && Inv(c, st) && AllSeen(st, seen) && data in seen
    requires k in View(st).blocks ==> data != View(st).blocks[k]
    ensures !(k in st.fileBlocks && st.fileBlocks[k] == c.hash(data))
  {
    hide Effective, Stored, RowOk, CachedOk, Refs;
    SeenMeansNoCollision(c, seen, st, data);
  }

  lemma ReadRefines(c: Config, seen: iset<Block>, w: World, a: SparseWorld, s: Step)
    requires CollisionFree(c, seen) && Refines(c, seen, w, a) && SizedFiles(c, a.files)
    requires s.Read? && Callable(c, s, w.handles.Keys) && Allowed(c, seen, a, s) && MayUse(w, s)
    ensures WorldOk(c, w) && Next(c, w, s).Done?
    ensures Refines(c, seen, Next(c, w, s).value.0, SparseNext(c, a, s).0)
    ensures Next(c, w, s).value.1 == SparseNext(c, a, s).1
  {
    hide Effective, Stored, RowOk, CachedOk, ReadChunk, BytesOf, Integrity, Exact, Placed, AllSeen;
    var Read(hd, n, offset, len, now) := s;
    InvParts(c, w.st);
    RowsAreStored(c, w.st);
    ReadChunkStep(c, w.st, w.handles[hd], n, offset, len, now);
    NextKeepsIntegrity(c, w, s);
    ReadChunkBytes(c, w.st, w.handles[hd], n, offset, len, now);
    SameBytesSeen(c, seen, w.st, Next(c, w, s).value.0.st);
  }

  lemma ReadChunkBytes(c: Config, st: Store, h: Handle, n: int, offset: int, len: int, now: int)
    requires Integrity(c, st) && HandleOk(st, h) && DataSized(c, st.cache)
    requires 0 <= offset && 0 <= len && offset + len <= c.blockSize
    requires ReadChunk(c, st, h, n, offset, len, now).Done?
    ensures var st' := ReadChunk(c, st, h, n, offset, len, now).value.0;
            SameBytes(st, st') && st'.rows == st.rows
  {
    hide Integrity, GetFileBlock, Populate, RowOk;
    GetKeepsIntegrity(c, st, h, n, now);
    var (st1, h1) := GetFileBlock(c, st, h, n, now).value;
    var s := h1.blocks[n].storageBlockNum;
    if h1.blocks[n].attached {
      ZeroOwnsNothing(c, st1);
      RecacheKeepsIntegrity(c, st1, s, st1.cache[s].(atime := now));
      if s != 0 {
        PopulateKeepsIntegrity(c, Touch(st1, s, now), s);
      }
    }
  }

  lemma ReleaseRefines(c: Config, seen: iset<Block>, w: World, a: SparseWorld, s: Step)
    requires CollisionFree(c, seen) && Refines(c, seen, w, a) && SizedFiles(c, a.files)
    requires s.Release? && Callable(c, s, w.handles.Keys) && Allowed(c, seen, a, s) && MayUse(w, s)
    ensures WorldOk(c, w) && Next(c, w, s).Done?
    ensures Refines(c, seen, Next(c, w, s).value.0, SparseNext(c, a, s).0)
    ensures Next(c, w, s).value.1 == SparseNext(c, a, s).1
  {
    hide Effective, Stored, RowOk, CachedOk, ReleaseBlock, BytesOf, Integrity, Exact, Placed, AllSeen, SameBytes;
    InvParts(c, w.st);
    RowsAreStored(c, w.st);
    ReleaseStep(c, w.st, w.handles[s.hd], s.n);
    NextKeepsIntegrity(c, w, s);
    SameBytesSeen(c, seen, w.st, Next(c, w, s).value.0.st);
  }

  lemma ResizeRefines(c: Config, seen: iset<Block>, w: World, a: SparseWorld, s: Step)
    requires CollisionFree(c, seen) && Refines(c, seen, w, a) && SizedFiles(c, a.files)
    requires s.Resize? && Callable(c, s, w.handles.Keys) && Allowed(c, seen, a, s)
    ensures WorldOk(c, w) && Next(c, w, s).Done?
    ensures Refines(c, seen, Next(c, w, s).value.0, SparseNext(c, a, s).0)
    ensures Next(c, w, s).value.1 == SparseNext(c, a, s).1
  {
    hide Effective, Stored, RowOk, CachedOk, BytesOf, Integrity, Exact, Placed, AllSeen, SameBytes;
    InvParts(c, w.st);
    RowsAreStored(c, w.st);
    forall k | k in w.st.fileBlocks && k.file == w.handles[s.hd].ino
      ensures k.offset * c.blockSize < s.newSize
    {
      assert k in a.files.blocks;
    }
    ResizeStep(c, w.st, w.handles[s.hd], s.newSize);
    NextKeepsIntegrity(c, w, s);
    SameBytesSeen(c, seen, w.st, Next(c, w, s).value.0.st);
  }

  lemma PassRefines(c: Config, seen: iset<Block>, w: World, a: SparseWorld, s: Step)
    requires CollisionFree(c, seen) && Refines(c, seen, w, a) && SizedFiles(c, a.files)
    requires s.Pass?
    ensures WorldOk(c, w) && Next(c, w, s).Done?
    ensures Refines(c, seen, Next(c, w, s).value.0, SparseNext(c, a, s).0)
    ensures Next(c, w, s).value.1 == SparseNext(c, a, s).1
  {
    hide Effective, Stored, RowOk, CachedOk, BytesOf, Integrity, Exact, Placed, AllSeen, SameBytes, View, FlushAll, Evict;
    InvParts(c, w.st);
    PassStep(c, w.st, s.evicted);
    NextKeepsIntegrity(c, w, s);
    SameBytesSeen(c, seen, w.st, Evict(FlushAll(w.st), s.evicted));
  }

  /** Creating, removing and opening files. */
  lemma FileRefines(c: Config, seen: iset<Block>, w: World, a: SparseWorld, s: Step)
    requires CollisionFree(c, seen) && Refines(c, seen, w, a) && SizedFiles(c, a.files)
    requires (s.Create? || s.Remove? || s.Open?) && Allowed(c, seen, a, s)
    ensures WorldOk(c, w) && Next(c, w, s).Done?
    ensures Refines(c, seen, Next(c, w, s).value.0, SparseNext(c, a, s).0)
    ensures Next(c, w, s).value.1 == SparseNext(c, a, s).1
  {
    hide Effective, Stored, RowOk, CachedOk, Integrity, AllSeen, SameBytes, Exact, BytesOf;
    InvParts(c, w.st);
    NextKeepsIntegrity(c, w, s);
    var w' := Next(c, w, s).value.0;
    forall k | k in w.st.fileBlocks
      ensures k.file in w'.st.sizes && k.offset * c.blockSize < w'.st.sizes[k.file]
    {
      assert k in a.files.blocks;
    }
    hide Placed, Inv, View;
    SizesStep(c, w.st, w'.st.sizes);
    SameBytesSeen(c, seen, w.st, w'.st);
  }

  /** One step through the real store and on the sparse files return the same bytes and stay related. */
  lemma NextRefines(c: Config, seen: iset<Block>, w: World, a: SparseWorld, s: Step)
    requires CollisionFree(c, seen) && Refines(c, seen, w, a) && SizedFiles(c, a.files)
    requires Callable(c, s, w.handles.Keys) ==> Allowed(c, seen, a, s) && MayUse(w, s)
    ensures WorldOk(c, w) && Next(c, w, s).Done?
    ensures Refines(c, seen, Next(c, w, s).value.0, SparseNext(c, a, s).0)
    ensures Next(c, w, s).value.1 == SparseNext(c, a, s).1
  {
    hide Inv, WorldOk, AllSeen, View, HandleMatches, Allowed, MayUse, CollisionFree;
    if Callable(c, s, w.handles.Keys) {
      match s
      case Create(_) => FileRefines(c, seen, w, a, s);
      case Remove(_) => FileRefines(c, seen, w, a, s);
      case Open(_, _) => FileRefines(c, seen, w, a, s);
      case Write(_, _, _, _, _) => WriteRefines(c, seen, w, a, s);
      case Read(_, _, _, _, _) => ReadRefines(c, seen, w, a, s);
      case Release(_, _) => ReleaseRefines(c, seen, w, a, s);
      case Resize(_, _) => ResizeRefines(c, seen, w, a, s);
      case Pass(_) => PassRefines(c, seen, w, a, s);
    }
  }

  /** Before every step of the run its handle may use the block. */
  ghost predicate AllowedRun(c: Config, seen: iset<Block>, w: World, a: SparseWorld, steps: seq<Step>)
    requires SizedFiles(c, a.files) && WorldOk(c, w)
    decreases |steps|
  {
    steps != [] ==>
      var s := steps[0];
      && (Callable(c, s, w.handles.Keys) ==> Allowed(c, seen, a, s) && MayUse(w, s))
      && (Next(c, w, s).Done? ==>
           (SparseStaysSized(c, a, s);
            NextKeepsIntegrity(c, w, s);
            AllowedRun(c, seen, Next(c, w, s).value.0, SparseNext(c, a, s).0, steps[1..])))
  }

  /**
   Over every allowed run, however reads, writes and releases of different files, through new or used
   handles, size changes and writer passes interleave: no step fails, every read returns what the sparse
   files return, and the counts of all rows, stored and cached, are the numbers of their references.
   */
  lemma {:induction false} AllowedRunRefines(c: Config, seen: iset<Block>, w: World, a: SparseWorld, steps: seq<Step>)
    requires CollisionFree(c, seen) && Refines(c, seen, w, a) && SizedFiles(c, a.files) && WorldOk(c, w)
    requires AllowedRun(c, seen, w, a, steps)
    ensures Run(c, w, steps).Done?
    ensures Run(c, w, steps).value.1 == SparseRun(c, a, steps).1
    ensures Refines(c, seen, Run(c, w, steps).value.0, SparseRun(c, a, steps).0)
    decreases |steps|
  {
    hide Next, SparseNext, Allowed, MayUse, CollisionFree, Inv, AllSeen, View, HandleMatches;
    if steps != [] {
      NextRefines(c, seen, w, a, steps[0]);
      SparseStaysSized(c, a, steps[0]);
      AllowedRunRefines(c, seen, Next(c, w, steps[0]).value.0, SparseNext(c, a, steps[0]).0, steps[1..]);
    }
  }

  lemma FirstUseMayUse(c: Config, seen: iset<Block>, w: World, a: SparseWorld, s: Step)
    requires Refines(c, seen, w, a) && SizedFiles(c, a.files) && Callable(c, s, w.handles.Keys) && Careful(c, seen, a, s)
    ensures MayUse(w, s)
  {
    hide Inv, AllSeen, BytesOf, WorldOk;
  }

  /**
   A run that uses handles once per block is an allowed one, and that can be seen on the sparse files alone:
   no step fails, every read returns what the sparse files return, and all counts are exact.
   */
  lemma {:induction false} RunRefinesSparseFiles(c: Config, seen: iset<Block>, w: World, a: SparseWorld, steps: seq<Step>)
    requires CollisionFree(c, seen) && Refines(c, seen, w, a) && SizedFiles(c, a.files) && CarefulRun(c, seen, a, steps)
    ensures WorldOk(c, w) && AllowedRun(c, seen, w, a, steps) && Run(c, w, steps).Done?
    ensures Run(c, w, steps).value.1 == SparseRun(c, a, steps).1
    ensures Refines(c, seen, Run(c, w, steps).value.0, SparseRun(c, a, steps).0)
    decreases |steps|
  {
    hide Next, SparseNext, Allowed, MayUse, FirstUse, CollisionFree, Inv, AllSeen, View, HandleMatches;
    if steps != [] {
      if Callable(c, steps[0], w.handles.Keys) {
        FirstUseMayUse(c, seen, w, a, steps[0]);
      }
      NextRefines(c, seen, w, a, steps[0]);
      SparseStaysSized(c, a, steps[0]);
      RunRefinesSparseFiles(c, seen, Next(c, w, steps[0]).value.0, SparseNext(c, a, steps[0]).0, steps[1..]);
    }
  }

  /** The empty store refines having no files, so every run can start there. */
  lemma EmptyStoreRefines(c: Config, seen: iset<Block>, disk: map<int, Block>)
    ensures Refines(c, seen, World(Store(map[], map[], map[], 0, map[], disk), map[]), SparseWorld(Sparse(map[], map[]), map[]))
  {
  }
}
