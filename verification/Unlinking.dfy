/**
 Where the directory tree and the block store meet: `Unlink` truncates a file before it drops its row.
 */
module Unlinking {
  import opened Basics
  import opened StoreModel
  import opened StoreIntegrity
  import opened StoreExact
  import opened StoreSteps
  import opened StoreRuns
  import opened StoreBuffers
  import TreePaths
  import TreeModel

  /** The rows of the table `files`: their paths on one side, their sizes on the other. */
  ghost predicate Paired(files: TreeModel.Files, st: Store) {
    (forall id :: id in files ==> id > 0 && id in st.sizes) && forall f :: f in st.sizes ==> f in files
  }

  /** `Unlink`, with the truncation of the file's blocks. */
  ghost function Unlink(c: Config, files: TreeModel.Files, st: Store, p: TreePaths.Path)
      : Outcome<(int, TreeModel.Files, Store)>
    requires Paired(files, st)
  {
    match TreeModel.Find(files, p)
    case None => Done((TreeModel.ENOENT, files, st))
    case Some(id) =>
      if files[id].isDir then Done((TreeModel.EISDIR, files, st))
      else
        var (st1, h1) :- Truncate(c, st, Handle(id, st.sizes[id], map[]), 0);
        Done((TreeModel.OK, TreeModel.Without(files, p), st1.(sizes := st1.sizes - {id})))
  }

  /** The tree sees what it would see of a truncation that returns 0. */
  lemma UnlinkInTree(c: Config, files: TreeModel.Files, st: Store, p: TreePaths.Path)
    requires Paired(files, st) && Unlink(c, files, st, p).Done?
    ensures var (code, files', st') := Unlink(c, files, st, p).value;
            (code, files') == TreeModel.Unlink(files, p, 0)
  {
    hide Truncate;
  }

  /** The blocks that are stored. */
  ghost function Blocks(st: Store): iset<Block> {
    iset id | id in st.rows && Stored(st, id) :: Effective(st, id)
  }

  /** Of the blocks that are stored no two have one hash. */
  lemma StoredNeverCollide(c: Config, st: Store)
    requires Integrity(c, st)
    ensures AllSeen(st, Blocks(st)) && CollisionFree(c, Blocks(st))
  {
    hide Stored, Effective;
    forall x, y | x in Blocks(st) && y in Blocks(st) && c.hash(x) == c.hash(y)
      ensures x == y
    {
      var a :| a in st.rows && Stored(st, a) && Effective(st, a) == x;
      var b :| b in st.rows && Stored(st, b) && Effective(st, b) == y;
      assert RowOk(c, st, a) && RowOk(c, st, b);
    }
  }

  /** A file without holes, truncated to nothing, has no block left, and no other file has changed. */
  lemma TruncateToNothing(c: Config, st: Store, f: FileId)
    requires Inv(c, st) && f in st.sizes
    ensures var r := Truncate(c, st, Handle(f, st.sizes[f], map[]), 0);
            && (r.Done? <==> forall n :: 0 <= n < BlocksOf(c, st.sizes[f]) ==> Key(f, n) in st.fileBlocks)
            && (r.Done? ==>
                 && Inv(c, r.value.0) && r.value.0.sizes == st.sizes[f := 0]
                 && View(r.value.0).blocks == map k | k in View(st).blocks && k.file != f :: View(st).blocks[k])
  {
    hide Integrity, Exact, AllSeen, CollisionFree, BytesOf, ReleaseFrom, FilesAfterShrink;
    var seen := Blocks(st);
    var h := Handle(f, st.sizes[f], map[]);
    InvParts(c, st);
    StoredNeverCollide(c, st);
    NewHandleReady(c, seen, st, f);
    if st.sizes[f] > 0 {
      TruncateRefines(c, seen, st, h, 0, iset{});
      if Truncate(c, st, h, 0).Done? {
        ViewSizes(Truncate(c, st, h, 0).value.0);
        ShrunkToNothing(c, st, f);
      }
    } else {
      NoBlocksInEmptyFile(c, st, f);
      assert st.sizes[f := 0] == st.sizes;
    }
  }

  lemma NoBlocksInEmptyFile(c: Config, st: Store, f: FileId)
    requires Placed(c, st) && f in st.sizes && st.sizes[f] == 0
    ensures View(st).blocks == map k | k in View(st).blocks && k.file != f :: View(st).blocks[k]
  {
    EmptyFileHasNoBlocks(c, st, f);
  }

  lemma ShrunkToNothing(c: Config, st: Store, f: FileId)
    requires Placed(c, st) && f in st.sizes
    ensures FilesAfterShrink(c, View(st), f, 0)
         == Sparse(View(st).sizes[f := 0], map k | k in View(st).blocks && k.file != f :: View(st).blocks[k])
  {
    forall k | k in st.fileBlocks
      ensures k.offset * c.blockSize >= 0
    {
    }
    assert FilesAfterShrink(c, View(st), f, 0).blocks == map k | k in View(st).blocks && k.file != f :: View(st).blocks[k];
  }

  /**
   A path that leads to a file is unlinked if and only if the file has no hole. Then its row, its size and
   all its blocks are gone, the counts are exact, the tree is a tree, and every other file has the size and
   the blocks it had.
   */
  lemma UnlinkRemovesFile(c: Config, files: TreeModel.Files, st: Store, p: TreePaths.Path, id: int)
    requires TreeModel.TreeOk(files) && Paired(files, st) && Inv(c, st)
    requires id in files && files[id].path == p && !files[id].isDir
    ensures var r := Unlink(c, files, st, p);
            && (r.Done? <==> forall n :: 0 <= n < BlocksOf(c, st.sizes[id]) ==> Key(id, n) in st.fileBlocks)
            && (r.Done? ==>
                 var (code, files', st') := r.value;
                 && code == TreeModel.OK && files' == files - {id} && st'.sizes == st.sizes - {id}
                 && TreeModel.TreeOk(files') && Paired(files', st') && Inv(c, st')
                 && View(st').blocks == map k | k in View(st).blocks && k.file != id :: View(st).blocks[k])
  {
    hide Inv, View, Truncate, BlocksOf, TreeModel.TreeOk, TreeModel.Without;
    assert TreeModel.Find(files, p) == Some(id) && TreeModel.Without(files, p) == files - {id} by {
      TreeModel.TreeIsUnique(files);
      RowOfPath(files, p, id);
    }
    TruncateToNothing(c, st, id);
    TreeModel.UnlinkKeepsTree(files, p, 0);
    if Unlink(c, files, st, p).Done? {
      UnlinkInTree(c, files, st, p);
      var st1 := Truncate(c, st, Handle(id, st.sizes[id], map[]), 0).value.0;
      DropSize(c, st, st1, id);
    }
  }

  lemma RowOfPath(files: TreeModel.Files, p: TreePaths.Path, id: int)
    requires TreeModel.UniquePaths(files) && id in files && files[id].path == p
    ensures TreeModel.Find(files, p) == Some(id) && TreeModel.Without(files, p) == files - {id}
  {
    TreeModel.FindsUnique(files, id);
    forall k | k in files
      ensures files[k].path == p <==> k == id
    {
    }
    hide TreeModel.UniquePaths;
    assert TreeModel.Without(files, p).Keys == (files - {id}).Keys;
  }

  /** Dropping the size of a file that has no blocks. */
  lemma DropSize(c: Config, st: Store, st1: Store, f: FileId)
    requires Inv(c, st1) && st1.sizes == st.sizes[f := 0] && f in st.sizes
    requires View(st1).blocks == map k | k in View(st).blocks && k.file != f :: View(st).blocks[k]
    ensures var st' := st1.(sizes := st1.sizes - {f});
            Inv(c, st') && st'.sizes == st.sizes - {f} && View(st').blocks == View(st1).blocks
  {
    hide Integrity, Exact, BytesOf;
    forall k | k in st1.fileBlocks
      ensures k.file != f
    {
      assert k in View(st1).blocks;
    }
    SizesStep(c, st1, st1.sizes - {f});
  }
}
