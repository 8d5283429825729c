/**
 The mounted file system as its users see it: runs of calls on paths and open files, against a tree of byte strings.
 */
module NamedRuns {
  import opened Basics
  import opened Bytes
  import opened StoreModel
  import opened StoreIntegrity
  import opened StoreExact
  import opened StoreSteps
  import opened StoreRuns
  import opened StoreBuffers
  import opened FlatFiles
  import opened PlainRuns
  import opened Unlinking
  import opened TreePaths
  import opened NamedTrees
  import TreeModel

  const EIO := -5

  /**
   `hd` names an open file, `id` is the key that the database gives a new row, `now` is the clock, and `unset` is what an
   uninitialised mode reads as.
   */
  datatype Call =
    | CallMkdir(path: Path, id: nat)
    | CallCreate(hd: nat, path: Path, id: nat)
    | CallOpen(hd: nat, path: Path)
    | CallWrite(hd: nat, buf: seq<Byte>, offset: int, now: int)
    | CallRead(hd: nat, size: int, offset: int, now: int)
    | CallFtruncate(hd: nat, newSize: int)
    | CallTruncate(path: Path, newSize: int)
    | CallUnlink(path: Path)
    | CallRmdir(path: Path, unset: bool)
    | CallRename(src: Path, dst: Path)
    | CallPass(evicted: set<int>)

  /** What a call returns, and the bytes it read. */
  datatype Reply = Reply(code: int, bytes: seq<Byte>)

  // ---------- The file system ----------

  /** The table of files, and the store with the open files. */
  datatype Mount = Mount(table: TreeModel.Files, w: World)

  ghost predicate MountOk(c: Config, m: Mount) {
    WorldOk(c, m.w) && Paired(m.table, m.w.st)
  }

  /** Keys of new rows are new. */
  predicate NewKey(m: Mount, call: Call) {
    match call
    case CallMkdir(_, id) => id > 0 && id !in m.table
    case CallCreate(_, _, id) => id > 0 && id !in m.table
    case _ => true
  }

  ghost function NewFileInfo(m: Mount, id: int): Handle
    requires Paired(m.table, m.w.st) && id in m.table
  {
    Handle(id, m.w.st.sizes[id], map[])
  }

  /** `create`: the row comes with size 0. */
  ghost function Created(m: Mount, path: Path, isDir: bool, id: nat): (Mount, int) {
    var (code, table) := TreeModel.Create(m.table, path, isDir, id);
    (Mount(table, if code == TreeModel.OK then m.w.(st := m.w.st.(sizes := m.w.st.sizes[id := 0])) else m.w), code)
  }

  ghost function Opened(m: Mount, hd: nat, id: int): Mount
    requires Paired(m.table, m.w.st) && id in m.table
  {
    m.(w := m.w.(handles := m.w.handles[hd := NewFileInfo(m, id)]))
  }

  /** Rows take their sizes with them. */
  ghost function WithTable(m: Mount, table: TreeModel.Files): Mount {
    Mount(table, m.w.(st := m.w.st.(sizes := map f | f in m.w.st.sizes && f in table :: m.w.st.sizes[f])))
  }

  ghost function Serve(c: Config, m: Mount, call: Call): Outcome<(Mount, Reply)>
    requires MountOk(c, m) && NewKey(m, call)
  {
    match call
    case CallMkdir(path, id) =>
      var (m', code) := Created(m, path, true, id);
      Done((m', Reply(code, [])))
    case CallCreate(hd, path, id) =>
      var (m', code) := Created(m, path, false, id);
      Done((if code == TreeModel.OK then Opened(m', hd, id) else m', Reply(code, [])))
    case CallOpen(hd, path) =>
      (match TreeModel.Find(m.table, path)
       case None => Done((m, Reply(TreeModel.ENOENT, [])))
       case Some(id) =>
         if m.table[id].isDir then Done((m, Reply(EIO, [])))
         else Done((Opened(m, hd, id), Reply(TreeModel.OK, []))))
    case CallWrite(hd, buf, offset, now) =>
      var (w, _) :- Perform(c, m.w, OpWrite(hd, buf, offset, now));
      Done((m.(w := w), Reply(|buf|, [])))
    case CallRead(hd, size, offset, now) =>
      var (w, bytes) :- Perform(c, m.w, OpRead(hd, size, offset, now));
      Done((m.(w := w), Reply(|bytes|, bytes)))
    case CallFtruncate(hd, newSize) =>
      if newSize < 0 then Done((m, Reply(TreeModel.EINVAL, [])))
      else
        var (w, _) :- Perform(c, m.w, OpTruncate(hd, newSize));
        Done((m.(w := w), Reply(TreeModel.OK, [])))
    case CallTruncate(path, newSize) =>
      (match TreeModel.Find(m.table, path)
       case None => Done((m, Reply(TreeModel.ENOENT, [])))
       case Some(id) =>
         if m.table[id].isDir || newSize < 0 then Done((m, Reply(TreeModel.EINVAL, [])))
         else
           var (st, _) :- Truncate(c, m.w.st, NewFileInfo(m, id), newSize);
           Done((m.(w := m.w.(st := st)), Reply(TreeModel.OK, []))))
    case CallUnlink(path) =>
      var (code, table, st) :- Unlink(c, m.table, m.w.st, path);
      Done((Mount(table, m.w.(st := st)), Reply(code, [])))
    case CallRmdir(path, unset) =>
      var (code, table) := TreeModel.Rmdir(m.table, path, unset);
      Done((WithTable(m, table), Reply(code, [])))
    case CallRename(src, dst) =>
      var (code, table) := TreeModel.Rename(m.table, src, dst);
      Done((WithTable(m, table), Reply(code, [])))
    case CallPass(evicted) =>
      var (w, _) :- Perform(c, m.w, OpPass(evicted));
      Done((m.(w := w), Reply(TreeModel.OK, [])))
  }

  // ---------- What the calls mean ----------

  /** The tree, and the path of each open file. */
  datatype Mounted = Mounted(nodes: Nodes, open: map<nat, Path>)

  ghost predicate IsOpen(t: Mounted, hd: nat) {
    hd in t.open && t.open[hd] in t.nodes && t.nodes[t.open[hd]].Regular?
  }

  ghost predicate NotOpen(t: Mounted, p: Path) {
    forall hd :: hd in t.open ==> t.open[hd] != p
  }

  /**
   The calls that the kernel makes: on proper paths and files that are open; not behind the end of a file; no removal of
   the root, of what does not exist, or of an open file; and no renaming of a path into itself.
   */
  ghost predicate Asked(t: Mounted, call: Call) {
    match call
    case CallMkdir(path, _) => WellFormed(path)
    case CallCreate(_, path, _) => WellFormed(path)
    case CallOpen(_, _) => true
    case CallWrite(hd, buf, offset, _) => IsOpen(t, hd) && 0 <= offset && |buf| > 0
    case CallRead(hd, size, offset, _) => IsOpen(t, hd) && 0 <= size && 0 <= offset <= |t.nodes[t.open[hd]].bytes|
    case CallFtruncate(hd, _) => IsOpen(t, hd)
    case CallTruncate(_, _) => true
    case CallUnlink(path) => NotOpen(t, path)
    case CallRmdir(path, _) => path in t.nodes && path != "/"
    case CallRename(src, dst) => WellFormed(src) && WellFormed(dst) && TreeModel.Elsewhere(src, dst) && NotOpen(t, dst)
    case CallPass(_) => true
  }

  function Resized(s: seq<Byte>, newSize: nat): seq<Byte> {
    if newSize <= |s| then s[..newSize] else s + Zeros(newSize - |s|)
  }

  /** The call on a tree of byte strings. */
  ghost function Meant(t: Mounted, call: Call): (Mounted, Reply)
    requires Asked(t, call)
  {
    match call
    case CallMkdir(path, _) =>
      var code := CreateCode(t.nodes, path);
      (if code == TreeModel.OK then t.(nodes := t.nodes[path := Folder]) else t, Reply(code, []))
    case CallCreate(hd, path, _) =>
      var code := CreateCode(t.nodes, path);
      (if code == TreeModel.OK then Mounted(t.nodes[path := Regular([])], t.open[hd := path]) else t, Reply(code, []))
    case CallOpen(hd, path) =>
      if path !in t.nodes then (t, Reply(TreeModel.ENOENT, []))
      else if t.nodes[path].Folder? then (t, Reply(EIO, []))
      else (t.(open := t.open[hd := path]), Reply(TreeModel.OK, []))
    case CallWrite(hd, buf, offset, _) =>
      var p := t.open[hd];
      (t.(nodes := t.nodes[p := Regular(PlainWrite(t.nodes[p].bytes, offset, buf))]), Reply(|buf|, []))
    case CallRead(hd, size, offset, _) =>
      var s := t.nodes[t.open[hd]].bytes;
      var len := Min(size, |s| - offset);
      (t, Reply(len, s[offset..offset + len]))
    case CallFtruncate(hd, newSize) =>
      var p := t.open[hd];
      if newSize < 0 then (t, Reply(TreeModel.EINVAL, []))
      else (t.(nodes := t.nodes[p := Regular(Resized(t.nodes[p].bytes, newSize))]), Reply(TreeModel.OK, []))
    case CallTruncate(p, newSize) =>
      if p !in t.nodes then (t, Reply(TreeModel.ENOENT, []))
      else if t.nodes[p].Folder? || newSize < 0 then (t, Reply(TreeModel.EINVAL, []))
      else (t.(nodes := t.nodes[p := Regular(Resized(t.nodes[p].bytes, newSize))]), Reply(TreeModel.OK, []))
    case CallUnlink(p) =>
      if p !in t.nodes then (t, Reply(TreeModel.ENOENT, []))
      else if t.nodes[p].Folder? then (t, Reply(TreeModel.EISDIR, []))
      else (t.(nodes := t.nodes - {p}), Reply(TreeModel.OK, []))
    case CallRmdir(p, _) =>
      var code := RemoveFolderCode(t.nodes, p);
      (if code == TreeModel.OK then t.(nodes := t.nodes - {p}) else t, Reply(code, []))
    case CallRename(src, dst) =>
      var code := RenameCode(t.nodes, src, dst);
      (if code == TreeModel.OK then
         Mounted(Renamed(t.nodes, src, dst), map hd | hd in t.open :: NewName(t.open[hd], src, dst))
       else t, Reply(code, []))
    case CallPass(_) => (t, Reply(TreeModel.OK, []))
  }

  // ---------- What the file system stands for ----------

  function BytesAt(nodes: Nodes, p: Path): seq<Byte> {
    if p in nodes && nodes[p].Regular? then nodes[p].bytes else []
  }

  /** The bytes of each row; directories have none. */
  ghost function Data(table: TreeModel.Files, nodes: Nodes): map<FileId, seq<Byte>> {
    map id: nat | id in table :: BytesAt(nodes, table[id].path)
  }

  /** The open file is the row of its path. */
  ghost predicate Follows(m: Mount, hd: nat, p: Path) {
    && hd in m.w.handles && m.w.handles[hd].ino in m.table
    && m.table[m.w.handles[hd].ino].path == p && !m.table[m.w.handles[hd].ino].isDir
  }

  /** The table is the tree, the store holds the bytes of its files with exact counts, and open files follow their paths. */
  ghost predicate Agrees(c: Config, seen: iset<Block>, m: Mount, t: Mounted) {
    && WorldOk(c, m.w) && Paired(m.table, m.w.st)
    && TreeModel.TreeOk(m.table) && Shows(m.table, t.nodes)
    && HoldsFiles(c, seen, m.w.st, Data(m.table, t.nodes))
    && forall hd :: hd in t.open ==> Follows(m, hd, t.open[hd])
  }

  /**
   What a user has to see to, beside what the kernel does: writes, reads and shrinks are prudent, unlinking meets no hole, and
   renaming replaces no file with bytes in it.
   */
  ghost predicate Prudently(c: Config, seen: iset<Block>, m: Mount, t: Mounted, call: Call)
    requires Agrees(c, seen, m, t)
  {
    match call
    case CallWrite(hd, buf, offset, now) => Prudent(c, seen, m.w, OpWrite(hd, buf, offset, now))
    case CallRead(hd, size, offset, now) => Prudent(c, seen, m.w, OpRead(hd, size, offset, now))
    case CallFtruncate(hd, newSize) => Prudent(c, seen, m.w, OpTruncate(hd, newSize))
    case CallTruncate(path, newSize) =>
      TreeModel.Find(m.table, path).Some? ==>
        var h := NewFileInfo(m, TreeModel.Find(m.table, path).value);
        0 <= newSize < h.size ==> MayShrink(c, m.w.st, h, newSize)
    case CallUnlink(path) =>
      TreeModel.Find(m.table, path).Some? ==>
        var h := NewFileInfo(m, TreeModel.Find(m.table, path).value);
        forall n :: 0 <= n < BlocksOf(c, h.size) ==> Key(h.ino, n) in m.w.st.fileBlocks
    case CallRename(src, dst) =>
      RenameCode(t.nodes, src, dst) == TreeModel.OK && dst in t.nodes ==> BytesAt(t.nodes, dst) == []
    case _ => true
  }

  // ---------- Files that are open ----------

  /** The same state as byte strings by key. */
  ghost function PlainOf(m: Mount, t: Mounted): Plain {
    Plain(Data(m.table, t.nodes), map hd | hd in m.w.handles :: m.w.handles[hd].ino)
  }

  lemma PlainHolds(c: Config, seen: iset<Block>, m: Mount, t: Mounted)
    requires Agrees(c, seen, m, t)
    ensures Holds(c, seen, m.w, PlainOf(m, t))
  {
    hide HoldsFiles, WorldOk, TreeModel.TreeOk, Shows;
  }

  /** The data of one row is the node of its path. */
  lemma DataUpdated(table: TreeModel.Files, nodes: Nodes, id: int, bytes: seq<Byte>)
    requires TreeModel.TreeOk(table) && Shows(table, nodes) && id in table && id > 0
    ensures Data(table, nodes[table[id].path := Regular(bytes)]) == Data(table, nodes)[id := bytes]
  {
    hide TreeModel.TreeOk, Shows;
    TreeModel.TreeIsUnique(table);
    var p := table[id].path;
    forall k | k in table
      ensures table[k].path == p <==> k == id
    {
    }
    hide TreeModel.UniquePaths;
    var before, after := Data(table, nodes), Data(table, nodes[p := Regular(bytes)]);
    assert after.Keys == before.Keys + {id};
    assert forall k :: k in after ==> after[k] == if k == id then bytes else before[k];
  }

  /** A store that holds the bytes of all rows has the sizes of these rows. */
  lemma HeldIsPaired(c: Config, seen: iset<Block>, table: TreeModel.Files, nodes: Nodes, st: Store)
    requires HoldsFiles(c, seen, st, Data(table, nodes)) && forall id :: id in table ==> id > 0
    ensures Paired(table, st)
  {
    hide Inv, AllSeen, Contents, ZeroBeyond;
    assert st.sizes.Keys == Data(table, nodes).Keys;
  }

  /** One file has new bytes. */
  lemma FileChanged(
      c: Config, seen: iset<Block>, m: Mount, t: Mounted, id: int, w': World, bytes: seq<Byte>)
    requires Agrees(c, seen, m, t) && id in m.table && !m.table[id].isDir
    requires WorldOk(c, w') && HoldsFiles(c, seen, w'.st, Data(m.table, t.nodes)[id := bytes])
    requires forall hd :: hd in m.w.handles ==> hd in w'.handles && w'.handles[hd].ino == m.w.handles[hd].ino
    ensures Agrees(c, seen, Mount(m.table, w'), t.(nodes := t.nodes[m.table[id].path := Regular(bytes)]))
  {
    hide HoldsFiles, WorldOk, TreeModel.TreeOk, Shows, Data;
    TreeModel.TreeIsUnique(m.table);
    DataUpdated(m.table, t.nodes, id, bytes);
    WrittenShows(m.table, t.nodes, id, bytes);
    HeldIsPaired(c, seen, m.table, t.nodes[m.table[id].path := Regular(bytes)], w'.st);
  }

  /** No file has other bytes. */
  lemma FilesUnchanged(c: Config, seen: iset<Block>, m: Mount, t: Mounted, w': World)
    requires Agrees(c, seen, m, t) && WorldOk(c, w') && HoldsFiles(c, seen, w'.st, Data(m.table, t.nodes))
    requires forall hd :: hd in m.w.handles ==> hd in w'.handles && w'.handles[hd].ino == m.w.handles[hd].ino
    ensures Agrees(c, seen, Mount(m.table, w'), t)
  {
    hide HoldsFiles, WorldOk, TreeModel.TreeOk, Shows, Data;
    HeldIsPaired(c, seen, m.table, t.nodes, w'.st);
  }

  /** The row of an open file, with its bytes and its size. */
  lemma OpenRow(c: Config, seen: iset<Block>, m: Mount, t: Mounted, hd: nat) returns (id: nat)
    requires Agrees(c, seen, m, t) && IsOpen(t, hd)
    ensures hd in m.w.handles && id == m.w.handles[hd].ino && id in m.table && !m.table[id].isDir
    ensures m.table[id].path == t.open[hd]
    ensures id in PlainOf(m, t).files && PlainOf(m, t).files[id] == t.nodes[t.open[hd]].bytes && PlainOf(m, t).handles[hd] == id
  {
    hide HoldsFiles, WorldOk, TreeModel.TreeOk, Shows;
    assert Follows(m, hd, t.open[hd]);
    id := m.w.handles[hd].ino;
  }

  /** The replies agree, and so do the states afterwards. */
  ghost predicate Fits(c: Config, seen: iset<Block>, m: Mount, t: Mounted, call: Call) {
    && MountOk(c, m) && NewKey(m, call) && Asked(t, call)
    && var (t', reply) := Meant(t, call);
       && Serve(c, m, call).Done? && Serve(c, m, call).value.1 == reply
       && Agrees(c, seen, Serve(c, m, call).value.0, t')
  }

  lemma WriteFits(c: Config, seen: iset<Block>, m: Mount, t: Mounted, call: Call)
    requires CollisionFree(c, seen) && Agrees(c, seen, m, t) && Asked(t, call) && Prudently(c, seen, m, t, call)
    requires call.CallWrite?
    ensures Fits(c, seen, m, t, call)
  {
    hide CollisionFree, HoldsFiles, WorldOk, Prudent, Perform, TreeModel.TreeOk, Shows, Data, Agrees, PlainWrite;
    AgreeingMountOk(c, seen, m, t);
    var op := OpWrite(call.hd, call.buf, call.offset, call.now);
    PlainHolds(c, seen, m, t);
    var id := OpenRow(c, seen, m, t, call.hd);
    OperationIsPlain(c, seen, m.w, PlainOf(m, t), op);
    FileChanged(c, seen, m, t, id, Perform(c, m.w, op).value.0, PlainWrite(t.nodes[t.open[call.hd]].bytes, call.offset, call.buf));
  }

  lemma ReadFits(c: Config, seen: iset<Block>, m: Mount, t: Mounted, call: Call)
    requires CollisionFree(c, seen) && Agrees(c, seen, m, t) && Asked(t, call) && Prudently(c, seen, m, t, call)
    requires call.CallRead?
    ensures Fits(c, seen, m, t, call)
  {
    hide CollisionFree, HoldsFiles, WorldOk, Prudent, Perform, TreeModel.TreeOk, Shows, Data, Agrees;
    AgreeingMountOk(c, seen, m, t);
    var op := OpRead(call.hd, call.size, call.offset, call.now);
    PlainHolds(c, seen, m, t);
    var id := OpenRow(c, seen, m, t, call.hd);
    OperationIsPlain(c, seen, m.w, PlainOf(m, t), op);
    FilesUnchanged(c, seen, m, t, Perform(c, m.w, op).value.0);
  }

  lemma FtruncateFits(c: Config, seen: iset<Block>, m: Mount, t: Mounted, call: Call)
    requires CollisionFree(c, seen) && Agrees(c, seen, m, t) && Asked(t, call) && Prudently(c, seen, m, t, call)
    requires call.CallFtruncate?
    ensures Fits(c, seen, m, t, call)
  {
    hide CollisionFree, HoldsFiles, WorldOk, Prudent, Perform, TreeModel.TreeOk, Shows, Data, Agrees;
    AgreeingMountOk(c, seen, m, t);
    var op := OpTruncate(call.hd, call.newSize);
    PlainHolds(c, seen, m, t);
    var id := OpenRow(c, seen, m, t, call.hd);
    if call.newSize >= 0 {
      OperationIsPlain(c, seen, m.w, PlainOf(m, t), op);
      FileChanged(c, seen, m, t, id, Perform(c, m.w, op).value.0, Resized(t.nodes[t.open[call.hd]].bytes, call.newSize));
    }
  }

  lemma PassFits(c: Config, seen: iset<Block>, m: Mount, t: Mounted, call: Call)
    requires CollisionFree(c, seen) && Agrees(c, seen, m, t) && call.CallPass?
    ensures Fits(c, seen, m, t, call)
  {
    hide CollisionFree, HoldsFiles, WorldOk, Perform, TreeModel.TreeOk, Shows, Data, Agrees, Prudent;
    AgreeingMountOk(c, seen, m, t);
    var op := OpPass(call.evicted);
    PlainHolds(c, seen, m, t);
    assert Prudent(c, seen, m.w, op) by {
      PassIsPrudent(c, seen, m, t, call.evicted);
    }
    OperationIsPlain(c, seen, m.w, PlainOf(m, t), op);
    FilesUnchanged(c, seen, m, t, Perform(c, m.w, op).value.0);
  }

  lemma PassIsPrudent(c: Config, seen: iset<Block>, m: Mount, t: Mounted, evicted: set<int>)
    requires Agrees(c, seen, m, t)
    ensures SizedFiles(c, View(m.w.st)) && Prudent(c, seen, m.w, OpPass(evicted))
  {
  }

  // ---------- Files by their paths ----------

  /** The row of a path, with its bytes and its size. */
  lemma PathRow(c: Config, seen: iset<Block>, m: Mount, t: Mounted, p: Path) returns (id: nat)
    requires Agrees(c, seen, m, t) && p in t.nodes
    ensures id in m.table && id > 0 && m.table[id].path == p && TreeModel.Find(m.table, p) == Some(id)
    ensures m.table[id].isDir <==> t.nodes[p] == Folder
    ensures id in Data(m.table, t.nodes) && Data(m.table, t.nodes)[id] == BytesAt(t.nodes, p)
    ensures Paired(m.table, m.w.st) && m.w.st.sizes[id] == |BytesAt(t.nodes, p)|
  {
    hide HoldsFiles, WorldOk, TreeModel.TreeOk;
    TreeModel.TreeIsUnique(m.table);
    var k := RowOfNode(m.table, t.nodes, p);
    id := k;
    SizesAgree(c, seen, m.w.st, Data(m.table, t.nodes));
  }

  lemma PathMissing(c: Config, seen: iset<Block>, m: Mount, t: Mounted, p: Path)
    requires Agrees(c, seen, m, t) && p !in t.nodes
    ensures TreeModel.Find(m.table, p).None?
  {
    hide HoldsFiles, WorldOk, TreeModel.TreeOk;
    TreeModel.TreeIsUnique(m.table);
    FindShows(m.table, t.nodes, p);
  }

  lemma OpenFits(c: Config, seen: iset<Block>, m: Mount, t: Mounted, call: Call)
    requires Agrees(c, seen, m, t) && call.CallOpen?
    ensures Fits(c, seen, m, t, call)
  {
    hide HoldsFiles, Integrity, HandleOk, TreeModel.TreeOk, Shows, Data;
    if call.path in t.nodes {
      var id := PathRow(c, seen, m, t, call.path);
      EmptyHandleOk(m.w.st, id, m.w.st.sizes[id]);
    } else {
      PathMissing(c, seen, m, t, call.path);
    }
  }

  /** What a change of the store through a handle of its own leaves of the others. */
  lemma OtherHandlesIntact(c: Config, w: World, st': Store, h': Handle)
    requires WorldOk(c, w) && Intact(c, w.st, st', h')
    ensures WorldOk(c, w.(st := st'))
  {
    hide Integrity, HandleOk;
    forall hd | hd in w.handles
      ensures HandleOk(st', w.handles[hd])
    {
      HandlesStayOk(w.st, st', w.handles[hd]);
    }
  }

  /** Truncating a file by its path. */
  lemma TruncatedRow(
      c: Config, seen: iset<Block>, m: Mount, t: Mounted, p: Path, id: nat, newSize: nat)
    requires CollisionFree(c, seen) && Agrees(c, seen, m, t) && p in t.nodes && t.nodes[p].Regular?
    requires id in m.table && m.table[id].path == p && TreeModel.Find(m.table, p) == Some(id)
    requires var h := NewFileInfo(m, id);
             newSize < h.size ==> MayShrink(c, m.w.st, h, newSize)
    ensures var r := Truncate(c, m.w.st, NewFileInfo(m, id), newSize);
            && r.Done? && WorldOk(c, m.w.(st := r.value.0))
            && HoldsFiles(c, seen, r.value.0, Data(m.table, t.nodes)[id := Resized(t.nodes[p].bytes, newSize)])
  {
    hide HoldsFiles, Integrity, TreeModel.TreeOk, Shows, Data, Truncate, MayShrink, CollisionFree;
    var id' := PathRow(c, seen, m, t, p);
    var h := NewFileInfo(m, id);
    EmptyHandleOk(m.w.st, id, h.size);
    TruncateHolds(c, seen, m.w.st, h, Data(m.table, t.nodes), newSize);
    TruncateIntact(c, m.w.st, h, newSize);
    var (st', h') := Truncate(c, m.w.st, h, newSize).value;
    OtherHandlesIntact(c, m.w, st', h');
  }

  lemma TruncateFits(c: Config, seen: iset<Block>, m: Mount, t: Mounted, call: Call)
    requires CollisionFree(c, seen) && Agrees(c, seen, m, t) && Prudently(c, seen, m, t, call) && call.CallTruncate?
    ensures Fits(c, seen, m, t, call)
  {
    hide HoldsFiles, WorldOk, TreeModel.TreeOk, Shows, Data, Truncate, MayShrink, CollisionFree, Agrees;
    AgreeingMountOk(c, seen, m, t);
    if call.path in t.nodes {
      var id := PathRow(c, seen, m, t, call.path);
      if t.nodes[call.path].Regular? && call.newSize >= 0 {
        TruncatedRow(c, seen, m, t, call.path, id, call.newSize);
        var st' := Truncate(c, m.w.st, NewFileInfo(m, id), call.newSize).value.0;
        FileChanged(c, seen, m, t, id, m.w.(st := st'), Resized(t.nodes[call.path].bytes, call.newSize));
      }
    } else {
      PathMissing(c, seen, m, t, call.path);
    }
  }

  // ---------- Rows that come and go ----------

  lemma DataAdded(table: TreeModel.Files, table': TreeModel.Files, nodes: Nodes, id: int, node: Node)
    requires Shows(table, nodes) && id > 0 && id !in table && table'.Keys == table.Keys + {id}
    requires forall k :: k in table ==> table'[k] == table[k]
    requires table'[id].path !in nodes && (node.Regular? ==> node.bytes == [])
    ensures Data(table', nodes[table'[id].path := node]) == Data(table, nodes)[id := []]
  {
    var before, after := Data(table, nodes), Data(table', nodes[table'[id].path := node]);
    assert after.Keys == before.Keys + {id};
    assert forall k :: k in after ==> after[k] == if k == id then [] else before[k];
  }

  lemma DataRemoved(table: TreeModel.Files, nodes: Nodes, id: int)
    requires TreeModel.UniquePaths(table) && id in table && id > 0
    ensures Data(table - {id}, nodes - {table[id].path}) == Data(table, nodes) - {id}
  {
    var p := table[id].path;
    forall k | k in table
      ensures table[k].path == p <==> k == id
    {
    }
    hide TreeModel.UniquePaths;
    var before, after := Data(table, nodes), Data(table - {id}, nodes - {p});
    assert after.Keys == before.Keys - {id};
    assert forall k :: k in after ==> after[k] == before[k];
  }

  lemma CreatedFits(
      c: Config, seen: iset<Block>, m: Mount, t: Mounted, p: Path, isDir: bool, id: nat, node: Node)
    requires Agrees(c, seen, m, t) && WellFormed(p) && id > 0 && id !in m.table
    requires node == if isDir then Folder else Regular([])
    ensures var (m', code) := Created(m, p, isDir, id);
            && code == CreateCode(t.nodes, p)
            && Agrees(c, seen, m', if code == TreeModel.OK then t.(nodes := t.nodes[p := node]) else t)
            && m'.w.handles == m.w.handles
            && (code == TreeModel.OK ==> id in m'.table && m'.table[id].path == p && m'.table[id].isDir == isDir)
  {
    hide HoldsFiles, Integrity, HandleOk, TreeModel.TreeOk, Shows, Data, TreeModel.Create, WellFormed;
    CreateShows(m.table, t.nodes, p, isDir, id);
    TreeModel.CreateKeepsTree(m.table, p, isDir, id);
    var (m', code) := Created(m, p, isDir, id);
    if code == TreeModel.OK {
      AddedShows(m.table, m'.table, t.nodes, id, node);
      DataAdded(m.table, m'.table, t.nodes, id, node);
      CreateHolds(c, seen, m.w.st, Data(m.table, t.nodes), id) by {
        assert id !in Data(m.table, t.nodes) by {
          DataKeys(m.table, t.nodes);
        }
      }
      CreateIntact(c, m.w, id);
    }
  }

  lemma DataKeys(table: TreeModel.Files, nodes: Nodes)
    ensures forall id: nat :: id in Data(table, nodes) <==> id in table
  {
  }

  lemma MkdirFits(c: Config, seen: iset<Block>, m: Mount, t: Mounted, call: Call)
    requires Agrees(c, seen, m, t) && NewKey(m, call) && Asked(t, call) && call.CallMkdir?
    ensures Fits(c, seen, m, t, call)
  {
    hide Agrees, Created;
    assert MountOk(c, m) by {
      AgreeingMountOk(c, seen, m, t);
    }
    CreatedFits(c, seen, m, t, call.path, true, call.id, Folder);
  }

  lemma AgreeingMountOk(c: Config, seen: iset<Block>, m: Mount, t: Mounted)
    requires Agrees(c, seen, m, t)
    ensures MountOk(c, m)
  {
  }

  lemma CreateFits(c: Config, seen: iset<Block>, m: Mount, t: Mounted, call: Call)
    requires Agrees(c, seen, m, t) && NewKey(m, call) && Asked(t, call) && call.CallCreate?
    ensures Fits(c, seen, m, t, call)
  {
    hide HoldsFiles, Integrity, HandleOk, TreeModel.TreeOk, Shows, Data, Created, WellFormed;
    CreatedFits(c, seen, m, t, call.path, false, call.id, Regular([]));
    var (m', code) := Created(m, call.path, false, call.id);
    if code == TreeModel.OK {
      EmptyHandleOk(m'.w.st, call.id, m'.w.st.sizes[call.id]);
    }
  }

  /** A row whose bytes are gone is dropped. */
  lemma RowDropped(c: Config, seen: iset<Block>, m: Mount, t: Mounted, id: nat)
    requires Agrees(c, seen, m, t) && id in m.table && BytesAt(t.nodes, m.table[id].path) == []
    requires TreeModel.TreeOk(m.table - {id}) && NotOpen(t, m.table[id].path)
    ensures Agrees(c, seen, WithTable(m, m.table - {id}), t.(nodes := t.nodes - {m.table[id].path}))
  {
    hide HoldsFiles, Integrity, HandleOk, TreeModel.TreeOk, Shows, Data;
    var table := m.table - {id};
    var nodes := t.nodes - {m.table[id].path};
    TreeModel.TreeIsUnique(m.table);
    RemovedShows(m.table, t.nodes, id);
    DataRemoved(m.table, t.nodes, id);
    DataKeys(m.table, t.nodes);
    assert Data(m.table, t.nodes)[id] == [] by {
      DataOf(m.table, t.nodes, id);
    }
    RemoveHolds(c, seen, m.w.st, Data(m.table, t.nodes), id);
    SizesDropped(m, id);
    RemoveIntact(c, m.w, id);
  }

  lemma DataOf(table: TreeModel.Files, nodes: Nodes, id: nat)
    requires id in table
    ensures Data(table, nodes)[id] == BytesAt(nodes, table[id].path)
  {
  }

  lemma SizesDropped(m: Mount, id: nat)
    requires Paired(m.table, m.w.st)
    ensures WithTable(m, m.table - {id}).w.st == m.w.st.(sizes := m.w.st.sizes - {id})
  {
    assert WithTable(m, m.table - {id}).w.st.sizes == m.w.st.sizes - {id};
  }

  lemma RemoveIntact(c: Config, w: World, f: FileId)
    requires WorldOk(c, w)
    ensures WorldOk(c, w.(st := w.st.(sizes := w.st.sizes - {f})))
  {
    hide Integrity;
    SizesKeepIntegrity(c, w.st, w.st.sizes - {f});
  }

  lemma SameTable(c: Config, m: Mount)
    requires Paired(m.table, m.w.st)
    ensures WithTable(m, m.table) == m
  {
    assert WithTable(m, m.table).w.st.sizes == m.w.st.sizes;
  }

  lemma RmdirFits(c: Config, seen: iset<Block>, m: Mount, t: Mounted, call: Call)
    requires Agrees(c, seen, m, t) && Asked(t, call) && call.CallRmdir?
    ensures Fits(c, seen, m, t, call)
  {
    hide HoldsFiles, WorldOk, TreeModel.TreeOk, Shows, Data, TreeModel.Rmdir, RemoveFolderCode, Empty;
    var p := call.path;
    var id := PathRow(c, seen, m, t, p);
    RmdirShows(m.table, t.nodes, p, call.unset);
    SameTable(c, m);
    if RemoveFolderCode(t.nodes, p) == TreeModel.OK {
      FolderRemoved(c, seen, m, t, p, id);
    }
  }

  lemma FolderRemoved(c: Config, seen: iset<Block>, m: Mount, t: Mounted, p: Path, id: nat)
    requires Agrees(c, seen, m, t) && p in t.nodes && p != "/" && id in m.table && m.table[id].path == p
    requires RemoveFolderCode(t.nodes, p) == TreeModel.OK
    ensures Agrees(c, seen, WithTable(m, TreeModel.Without(m.table, p)), t.(nodes := t.nodes - {p}))
  {
    hide HoldsFiles, WorldOk, TreeModel.TreeOk, Shows, Data, Inside;
    TreeModel.TreeIsUnique(m.table);
    RemovedShows(m.table, t.nodes, id);
    EmptyShows(m.table, t.nodes, p);
    TreeModel.WithoutKeepsTree(m.table, p);
    var id' := PathRow(c, seen, m, t, p);
    assert NotOpen(t, p) by {
      forall hd | hd in t.open
        ensures t.open[hd] != p
      {
        assert Follows(m, hd, t.open[hd]);
        TreeModel.FindsUnique(m.table, m.w.handles[hd].ino);
      }
    }
    RowDropped(c, seen, m, t, id);
  }

  lemma UnlinkFits(c: Config, seen: iset<Block>, m: Mount, t: Mounted, call: Call)
    requires CollisionFree(c, seen) && Agrees(c, seen, m, t) && Asked(t, call) && Prudently(c, seen, m, t, call)
    requires call.CallUnlink?
    ensures Fits(c, seen, m, t, call)
  {
    hide HoldsFiles, WorldOk, TreeModel.TreeOk, Shows, Data, CollisionFree, Truncate, Agrees, BlocksOf;
    assert MountOk(c, m) by {
      AgreeingMountOk(c, seen, m, t);
    }
    var p := call.path;
    if p !in t.nodes {
      PathMissing(c, seen, m, t, p);
    } else {
      var id := PathRow(c, seen, m, t, p);
      if t.nodes[p].Regular? {
        assert NewFileInfo(m, id) == Handle(id, m.w.st.sizes[id], map[]);
        FileRemoved(c, seen, m, t, p, id);
      }
    }
  }

  lemma FileRemoved(c: Config, seen: iset<Block>, m: Mount, t: Mounted, p: Path, id: nat)
    requires CollisionFree(c, seen) && Agrees(c, seen, m, t) && p in t.nodes && t.nodes[p].Regular? && NotOpen(t, p)
    requires id in m.table && m.table[id].path == p && TreeModel.Find(m.table, p) == Some(id)
    requires forall n :: 0 <= n < BlocksOf(c, m.w.st.sizes[id]) ==> Key(id, n) in m.w.st.fileBlocks
    ensures Paired(m.table, m.w.st) && !m.table[id].isDir
    ensures var r := Truncate(c, m.w.st, NewFileInfo(m, id), 0);
            && r.Done?
            && Agrees(c, seen,
                 Mount(TreeModel.Without(m.table, p), m.w.(st := r.value.0.(sizes := r.value.0.sizes - {id}))),
                 t.(nodes := t.nodes - {p}))
  {
    hide HoldsFiles, WorldOk, TreeModel.TreeOk, Shows, Data, CollisionFree, Truncate, Inside;
    var id' := PathRow(c, seen, m, t, p);
    var h := NewFileInfo(m, id);
    if m.w.st.sizes[id] > 0 {
      SizedInAgreement(c, seen, m, t);
      EmptyingIsPrudent(c, m.w.st, id);
    }
    TruncatedRow(c, seen, m, t, p, id, 0);
    var st1 := Truncate(c, m.w.st, h, 0).value.0;
    FileChanged(c, seen, m, t, id, m.w.(st := st1), []);
    TreeModel.TreeIsUnique(m.table);
    RemovedShows(m.table, t.nodes, id);
    TreeModel.FilesHaveNothingBelow(m.table, id);
    NotRoot(m.table, id);
    TreeModel.WithoutKeepsTree(m.table, p);
    var m1 := m.(w := m.w.(st := st1));
    var t1 := t.(nodes := t.nodes[p := Regular([])]);
    assert Resized(t.nodes[p].bytes, 0) == [];
    RowDropped(c, seen, m1, t1, id);
    SizesDropped(m1, id);
    assert t1.nodes - {p} == t.nodes - {p};
  }

  lemma SizedInAgreement(c: Config, seen: iset<Block>, m: Mount, t: Mounted)
    requires Agrees(c, seen, m, t)
    ensures SizedFiles(c, View(m.w.st))
  {
  }

  lemma NotRoot(table: TreeModel.Files, id: int)
    requires TreeModel.TreeOk(table) && id in table && !table[id].isDir
    ensures table[id].path != "/"
  {
  }

  lemma EmptyingIsPrudent(c: Config, st: Store, id: nat)
    requires SizedFiles(c, View(st)) && id in st.sizes && 0 < st.sizes[id]
    requires forall n :: 0 <= n < BlocksOf(c, st.sizes[id]) ==> Key(id, n) in st.fileBlocks
    ensures MayShrink(c, st, Handle(id, st.sizes[id], map[]), 0)
  {
    hide ByteAt, View;
    assert BlockEnd(c, 0) == 0;
  }

  // ---------- Renaming ----------

  /** Rows keep their bytes, whatever their paths. */
  lemma DataMoved(
      table: TreeModel.Files, table': TreeModel.Files, nodes: Nodes, nodes': Nodes, gone: set<int>)
    requires Shows(table, nodes) && Shows(table', nodes') && table'.Keys == table.Keys - gone
    requires forall id :: id in table' ==> nodes'[table'[id].path] == nodes[table[id].path]
    requires forall id :: id in gone ==> id >= 0
    ensures Data(table', nodes') == map id | id in Data(table, nodes) && id !in gone :: Data(table, nodes)[id]
  {
    var before, after := Data(table, nodes), Data(table', nodes');
    forall id: nat
      ensures id in after <==> id in before && id !in gone
      ensures id in after ==> after[id] == before[id]
    {
    }
  }

  /** A rename takes the row of the destination away, if there is one, and no other. */
  lemma RenamedKeys(table: TreeModel.Files, table': TreeModel.Files, src: Path, dst: Path)
    requires TreeModel.UniquePaths(table) && TreeModel.MovedRigidly(table, table', src, dst) && TreeModel.Elsewhere(src, dst)
    ensures table'.Keys == match TreeModel.Find(table, dst)
                           case None => table.Keys
                           case Some(id) => table.Keys - {id}
  {
    hide Inside;
    forall k | k in table
      ensures k in table' <==> TreeModel.Find(table, dst) != Some(k)
    {
      TreeModel.FindsUnique(table, k);
    }
  }

  /** The store once the size of a destination without bytes is gone. */
  lemma DestinationDropped(
      c: Config, seen: iset<Block>, m: Mount, t: Mounted, table': TreeModel.Files, nodes': Nodes, dst: Path)
    requires Agrees(c, seen, m, t) && BytesAt(t.nodes, dst) == []
    requires Shows(table', nodes')
    requires forall id :: id in table' ==> id in m.table && nodes'[table'[id].path] == t.nodes[m.table[id].path]
    requires table'.Keys == match TreeModel.Find(m.table, dst)
                            case None => m.table.Keys
                            case Some(id) => m.table.Keys - {id}
    ensures WorldOk(c, WithTable(m, table').w) && HoldsFiles(c, seen, WithTable(m, table').w.st, Data(table', nodes'))
  {
    hide HoldsFiles, Integrity, HandleOk, TreeModel.TreeOk, Data, Shows;
    var data := Data(m.table, t.nodes);
    match TreeModel.Find(m.table, dst)
    case None =>
      DataMoved(m.table, table', t.nodes, nodes', {});
      assert Data(table', nodes') == data;
      SameKeys(m, table');
    case Some(id) =>
      var f: FileId := id;
      DataMoved(m.table, table', t.nodes, nodes', {id});
      DataKeys(m.table, t.nodes);
      DataOf(m.table, t.nodes, f);
      assert Data(table', nodes') == data - {f};
      RemoveHolds(c, seen, m.w.st, data, f);
      RemoveIntact(c, m.w, f);
      LessOneKey(m, table', f);
  }

  lemma SameKeys(m: Mount, table: TreeModel.Files)
    requires Paired(m.table, m.w.st) && table.Keys == m.table.Keys
    ensures WithTable(m, table).w == m.w
  {
    assert WithTable(m, table).w.st.sizes == m.w.st.sizes;
  }

  lemma LessOneKey(m: Mount, table: TreeModel.Files, id: nat)
    requires Paired(m.table, m.w.st) && table.Keys == m.table.Keys - {id}
    ensures WithTable(m, table).w.st == m.w.st.(sizes := m.w.st.sizes - {id})
  {
    assert WithTable(m, table).w.st.sizes == m.w.st.sizes - {id};
  }

  /** An open file that is not the destination follows its path. */
  lemma FollowsRename(m: Mount, m': Mount, hd: nat, p: Path, src: Path, dst: Path)
    requires Follows(m, hd, p) && p != dst && TreeModel.MovedRigidly(m.table, m'.table, src, dst)
    requires m'.w.handles == m.w.handles
    ensures Follows(m', hd, NewName(p, src, dst))
  {
    hide Inside;
  }

  lemma RenamedAgrees(c: Config, seen: iset<Block>, m: Mount, t: Mounted, src: Path, dst: Path)
    requires Agrees(c, seen, m, t) && WellFormed(src) && WellFormed(dst) && TreeModel.Elsewhere(src, dst) && NotOpen(t, dst)
    requires RenameCode(t.nodes, src, dst) == TreeModel.OK && BytesAt(t.nodes, dst) == []
    ensures Agrees(c, seen, WithTable(m, TreeModel.Rename(m.table, src, dst).1),
              Mounted(Renamed(t.nodes, src, dst), map hd | hd in t.open :: NewName(t.open[hd], src, dst)))
  {
    hide HoldsFiles, Integrity, HandleOk, TreeModel.TreeOk, Data, Shows, RenameCode, TreeModel.Rename, WellFormed, Inside, Within,
         Renamed, Follows, NewName, TreeModel.MovedRigidly, BytesAt, TreeModel.Vacant;
    var table' := TreeModel.Rename(m.table, src, dst).1;
    var nodes' := Renamed(t.nodes, src, dst);
    RenameCodeShows(m.table, t.nodes, src, dst);
    TreeModel.RenameExact(m.table, src, dst);
    TreeModel.RenameMoves(m.table, src, dst);
    TreeModel.TargetVacant(m.table, src, dst);
    RigidShows(m.table, table', t.nodes, src, dst);
    TreeModel.TreeIsUnique(m.table);
    RenamedKeys(m.table, table', src, dst);
    DestinationDropped(c, seen, m, t, table', nodes', dst);
    var m' := WithTable(m, table');
    PositiveKeys(m, table');
    HeldIsPaired(c, seen, table', nodes', m'.w.st);
    forall hd | hd in t.open
      ensures Follows(m', hd, NewName(t.open[hd], src, dst))
    {
      FollowsRename(m, m', hd, t.open[hd], src, dst);
    }
  }

  lemma PositiveKeys(m: Mount, table: TreeModel.Files)
    requires Paired(m.table, m.w.st) && table.Keys <= m.table.Keys
    ensures forall id :: id in table ==> id > 0
  {
  }

  lemma RenameFits(c: Config, seen: iset<Block>, m: Mount, t: Mounted, call: Call)
    requires Agrees(c, seen, m, t) && Asked(t, call) && Prudently(c, seen, m, t, call) && call.CallRename?
    ensures Fits(c, seen, m, t, call)
  {
    hide Agrees, RenameCode, TreeModel.Rename, Renamed, TreeModel.TreeOk, Shows;
    assert MountOk(c, m) && TreeModel.TreeOk(m.table) && Shows(m.table, t.nodes) by {
      AgreeingTable(c, seen, m, t);
    }
    RenameCodeShows(m.table, t.nodes, call.src, call.dst);
    SameTable(c, m);
    if RenameCode(t.nodes, call.src, call.dst) == TreeModel.OK {
      RenamedAgrees(c, seen, m, t, call.src, call.dst);
    }
  }

  lemma AgreeingTable(c: Config, seen: iset<Block>, m: Mount, t: Mounted)
    requires Agrees(c, seen, m, t)
    ensures MountOk(c, m) && TreeModel.TreeOk(m.table) && Shows(m.table, t.nodes)
  {
  }

  // ---------- Every call ----------

  /** One call does to the file system what it does to a tree of byte strings, and returns the same. */
  lemma CallIsPlain(c: Config, seen: iset<Block>, m: Mount, t: Mounted, call: Call)
    requires CollisionFree(c, seen) && Agrees(c, seen, m, t) && NewKey(m, call)
    requires Asked(t, call) && Prudently(c, seen, m, t, call)
    ensures var r := Serve(c, m, call);
            var (t', reply) := Meant(t, call);
            r.Done? && r.value.1 == reply && Agrees(c, seen, r.value.0, t')
  {
    assert MountOk(c, m) by {
      AgreeingMountOk(c, seen, m, t);
    }
    hide Agrees, Serve, Meant, CollisionFree, Asked, Prudently, NewKey, MountOk;
    match call
    case CallMkdir(_, _) => MkdirFits(c, seen, m, t, call);
    case CallCreate(_, _, _) => CreateFits(c, seen, m, t, call);
    case CallOpen(_, _) => OpenFits(c, seen, m, t, call);
    case CallWrite(_, _, _, _) => WriteFits(c, seen, m, t, call);
    case CallRead(_, _, _, _) => ReadFits(c, seen, m, t, call);
    case CallFtruncate(_, _) => FtruncateFits(c, seen, m, t, call);
    case CallTruncate(_, _) => TruncateFits(c, seen, m, t, call);
    case CallUnlink(_) => UnlinkFits(c, seen, m, t, call);
    case CallRmdir(_, _) => RmdirFits(c, seen, m, t, call);
    case CallRename(_, _) => RenameFits(c, seen, m, t, call);
    case CallPass(_) => PassFits(c, seen, m, t, call);
  }

  // ---------- Runs ----------

  /** A run of calls. It ends early in a state that is no file system, which a prudent run never reaches. */
  ghost function ServeAll(c: Config, m: Mount, calls: seq<Call>): Outcome<(Mount, seq<Reply>)>
    decreases |calls|
  {
    if calls == [] then Done((m, []))
    else if !MountOk(c, m) || !NewKey(m, calls[0]) then Aborted
    else
      var (m1, reply) :- Serve(c, m, calls[0]);
      var (m2, rest) :- ServeAll(c, m1, calls[1..]);
      Done((m2, [reply] + rest))
  }

  /** The same run on the tree, up to a call that is not made. */
  ghost function MeantAll(t: Mounted, calls: seq<Call>): (Mounted, seq<Reply>)
    decreases |calls|
  {
    if calls == [] || !Asked(t, calls[0]) then (t, [])
    else
      var (t1, reply) := Meant(t, calls[0]);
      var (t2, rest) := MeantAll(t1, calls[1..]);
      (t2, [reply] + rest)
  }

  /** Every call is one that the kernel makes, with a new key for a new row, and is prudent. */
  ghost predicate PrudentCalls(c: Config, seen: iset<Block>, m: Mount, t: Mounted, calls: seq<Call>)
    decreases |calls|
  {
    calls != [] ==>
      && NewKey(m, calls[0]) && Asked(t, calls[0])
      && (Agrees(c, seen, m, t) ==> Prudently(c, seen, m, t, calls[0]))
      && (MountOk(c, m) && Serve(c, m, calls[0]).Done? ==>
           PrudentCalls(c, seen, Serve(c, m, calls[0]).value.0, Meant(t, calls[0]).0, calls[1..]))
  }

  /**
   Over every prudent run of calls on paths and open files, with writer passes in between: no call fails inside, every
   call returns the code and the bytes that a tree of byte strings returns, and in the end the table is that
   tree and the store holds its files, with exact counts.
   */
  lemma {:induction false} CallsArePlain(c: Config, seen: iset<Block>, m: Mount, t: Mounted, calls: seq<Call>)
    requires CollisionFree(c, seen) && Agrees(c, seen, m, t) && PrudentCalls(c, seen, m, t, calls)
    ensures ServeAll(c, m, calls).Done?
    ensures var (m', replies) := ServeAll(c, m, calls).value;
            var (t', replies') := MeantAll(t, calls);
            replies == replies' && |replies| == |calls| && Agrees(c, seen, m', t')
    decreases |calls|
  {
    hide CollisionFree, Agrees, Prudently, Serve, Meant, NewKey, Asked, MountOk;
    if calls != [] {
      AgreeingMountOk(c, seen, m, t);
      CallIsPlain(c, seen, m, t, calls[0]);
      CallsArePlain(c, seen, Serve(c, m, calls[0]).value.0, Meant(t, calls[0]).0, calls[1..]);
    }
  }

  /** The file system of a new database: the root, made when the database is opened, and an empty store. */
  ghost function NewMount(id: nat, disk: map<int, Block>): Mount {
    Created(Mount(map[], World(Store(map[], map[], map[], 0, map[], disk), map[])), "/", true, id).0
  }

  /** Every run can start on a new database, with the root as the only folder. */
  lemma NewMountAgrees(c: Config, seen: iset<Block>, id: nat, disk: map<int, Block>)
    requires id > 0
    ensures Agrees(c, seen, NewMount(id, disk), Mounted(imap["/" := Folder], map[]))
  {
    hide HoldsFiles, TreeModel.TreeOk, WorldOk;
    var w := World(Store(map[], map[], map[], 0, map[], disk), map[]);
    EmptyStoreHolds(c, seen, disk);
    TreeModel.RootMakesTree(id);
    CreateHolds(c, seen, w.st, map[], id) by {
      HeldByPlain(c, seen, w);
    }
    CreateIntact(c, w, id) by {
      HeldByPlain(c, seen, w);
    }
    var m := NewMount(id, disk);
    assert m.table == map[id := TreeModel.FileRow("/", 0, true)];
    assert HasRow(m.table, "/") by {
      assert m.table[id].path == "/";
    }
    assert Data(m.table, imap["/" := Folder]) == map[id := []];
  }

  lemma HeldByPlain(c: Config, seen: iset<Block>, w: World)
    requires Holds(c, seen, w, Plain(map[], map[]))
    ensures HoldsFiles(c, seen, w.st, map[]) && WorldOk(c, w)
  {
  }

  // ---------- Laws of the tree of byte strings ----------

  /** The call changes nothing and returns the number. */
  ghost predicate Refused(c: Config, m: Mount, call: Call, code: int) {
    MountOk(c, m) && NewKey(m, call) && Serve(c, m, call) == Done((m, Reply(code, [])))
  }

  /** The numbers that calls on paths return, when they do not succeed. */
  lemma RepliedNumbers(c: Config, seen: iset<Block>, m: Mount, t: Mounted, hd: nat, p: Path, newSize: int)
    requires Agrees(c, seen, m, t)
    ensures p !in t.nodes ==>
              && Refused(c, m, CallOpen(hd, p), -2)
              && Refused(c, m, CallTruncate(p, newSize), -2)
              && Refused(c, m, CallUnlink(p), -2)
    ensures p in t.nodes && t.nodes[p] == Folder ==>
              && Refused(c, m, CallOpen(hd, p), -5)
              && Refused(c, m, CallTruncate(p, newSize), -22)
              && Refused(c, m, CallUnlink(p), -21)
    ensures p in t.nodes && newSize < 0 ==> Refused(c, m, CallTruncate(p, newSize), -22)
    ensures newSize < 0 ==> Refused(c, m, CallFtruncate(hd, newSize), -22)
  {
    hide HoldsFiles, WorldOk, TreeModel.TreeOk, Shows, Data, Truncate, Agrees;
    AgreeingMountOk(c, seen, m, t);
    if p in t.nodes {
      var id := PathRow(c, seen, m, t, p);
    } else {
      PathMissing(c, seen, m, t, p);
    }
  }

  /** What was written through one open file is read through any open file of that path, and the counts are told. */
  lemma WrittenIsRead(t: Mounted, hd: nat, hd': nat, buf: seq<Byte>, offset: int, now: int, later: int)
    requires Asked(t, CallWrite(hd, buf, offset, now)) && hd' in t.open && t.open[hd'] == t.open[hd]
    ensures var (t', reply) := Meant(t, CallWrite(hd, buf, offset, now));
            && reply == Reply(|buf|, [])
            && Asked(t', CallRead(hd', |buf|, offset, later))
            && Meant(t', CallRead(hd', |buf|, offset, later)) == (t', Reply(|buf|, buf))
  {
    var s := t.nodes[t.open[hd]].bytes;
    var w := PlainWrite(s, offset, buf);
    forall p | 0 <= p < |buf|
      ensures w[offset + p] == buf[p]
    {
      PlainWriteByte(s, offset, buf, offset + p);
    }
    assert w[offset..offset + |buf|] == buf;
  }

  /** A file created is open and empty; a directory created and removed leaves the tree as it was. */
  lemma CreatedIsEmpty(t: Mounted, hd: nat, p: Path, id: nat, size: int, now: int, unset: bool)
    requires WellFormed(p) && p != "/" && CreateCode(t.nodes, p) == 0 && 0 <= size
    requires forall q :: q in t.nodes ==> !Inside(q, p)
    ensures var t' := Meant(t, CallCreate(hd, p, id)).0;
            && Asked(t', CallRead(hd, size, 0, now)) && Meant(t', CallRead(hd, size, 0, now)) == (t', Reply(0, []))
    ensures var t' := Meant(t, CallMkdir(p, id)).0;
            Asked(t', CallRmdir(p, unset)) && Meant(t', CallRmdir(p, unset)) == (t, Reply(0, []))
  {
    assert !Inside(p, p);
    hide Inside;
    assert t.nodes[p := Folder] - {p} == t.nodes;
  }

  /** A file resized is cut, or longer by zeros. */
  lemma ResizedIsCut(t: Mounted, hd: nat, newSize: nat, now: int)
    requires IsOpen(t, hd)
    ensures var s := t.nodes[t.open[hd]].bytes;
            var (t', reply) := Meant(t, CallFtruncate(hd, newSize));
            && reply == Reply(0, []) && Asked(t', CallRead(hd, newSize, 0, now))
            && var bytes := Meant(t', CallRead(hd, newSize, 0, now)).1.bytes;
               |bytes| == newSize && forall i :: 0 <= i < newSize ==> bytes[i] == if i < |s| then s[i] else 0
  {
  }
}
