/**
 The table of files, keyed by row and addressed by path, and the operations of a directory tree on it.
 Operations are functions from table to result code and table; the methods of `FileTree` compute them.
 */
module TreeModel {
  import opened Basics
  import opened TreePaths

  /** The columns of a row of `files` that the tree depends on. */
  datatype FileRow = FileRow(path: Path, depth: int, isDir: bool)

  type Files = map<int, FileRow>

  const OK := 0
  const ENOENT := -2
  const EEXIST := -17
  const ENOTDIR := -20
  const EISDIR := -21
  const EINVAL := -22
  const ENOTEMPTY := -39

  // ---------- Statements on the table ----------

  ghost predicate UniquePaths(files: Files) {
    forall a, b :: a in files && b in files && files[a].path == files[b].path ==> a == b
  }

  /** `SELECT ... WHERE path = ?` */
  ghost function Find(files: Files, p: Path): (r: Option<int>)
    ensures r.Some? ==> r.value in files && files[r.value].path == p
    ensures r.None? ==> forall id :: id in files ==> files[id].path != p
  {
    if exists id :: id in files && files[id].path == p then
      var id :| id in files && files[id].path == p;
      Some(id)
    else
      None
  }

  /** `DELETE ... WHERE path = ?` */
  function Without(files: Files, p: Path): Files {
    map id | id in files && files[id].path != p :: files[id]
  }

  /** The row matches `path LIKE ... AND depth = ?` for the entries of a directory. */
  predicate Listed(row: FileRow, dir: FileRow) {
    Under(dir.path) <= row.path && row.depth == dir.depth + 1
  }

  predicate DirEmpty(files: Files, dir: FileRow) {
    !exists id :: id in files && Listed(files[id], dir)
  }

  /** `path LIKE src/%` */
  predicate Below(row: FileRow, src: Path) {
    src + "/" <= row.path
  }

  /** The update of one row in the loop of `rename`. */
  function MoveRow(row: FileRow, src: Path, dst: Path, depthDiff: int): FileRow {
    if Below(row, src) then FileRow(MovePath(row.path, src, dst), row.depth + depthDiff, row.isDir) else row
  }

  function MoveRows(files: Files, src: Path, dst: Path, depthDiff: int): Files {
    map id | id in files :: MoveRow(files[id], src, dst, depthDiff)
  }

  // ---------- Operations ----------

  /** `create`; `id` is the key that the database gives the new row. */
  ghost function Create(files: Files, p: Path, isDir: bool, id: int): (int, Files) {
    match if p == "/" then None else Find(files, Parent(p))
    case None =>
      if p != "/" then (ENOENT, files)
      else if Find(files, p).Some? then (EEXIST, files)
      else (OK, files[id := FileRow(p, 0, isDir)])
    case Some(dir) =>
      if !files[dir].isDir then (ENOTDIR, files)
      else if Find(files, p).Some? then (EEXIST, files)
      else (OK, files[id := FileRow(p, files[dir].depth + 1, isDir)])
  }

  /** `Unlink`; `truncated` is what `truncate` returned for the file. */
  ghost function Unlink(files: Files, p: Path, truncated: int): (int, Files) {
    match Find(files, p)
    case None => (ENOENT, files)
    case Some(id) =>
      if files[id].isDir then (EISDIR, files)
      else if truncated != 0 then (truncated, files)
      else (OK, Without(files, p))
  }

  /**
   `Rmdir`. It does not ask whether the path exists: if not, it looks at a `file_info` with an empty name, depth 0 and an
   uninitialised mode, which reads as a directory's or not.
   */
  ghost function Rmdir(files: Files, p: Path, unset: bool): (int, Files) {
    var dir := match Find(files, p)
               case None => FileRow("", 0, unset)
               case Some(id) => files[id];
    if !dir.isDir then (ENOTDIR, files)
    else if !DirEmpty(files, dir) then (ENOTEMPTY, files)
    else (OK, Without(files, p))
  }

  /** The checks of `rename` on a destination that exists. */
  function CheckTarget(files: Files, row: FileRow, target: FileRow, src: Path, dst: Path): int {
    if row.isDir then
      if target.isDir && !DirEmpty(files, target) then ENOTEMPTY
      else if !target.isDir then ENOTDIR
      else if src <= dst then EINVAL
      else OK
    else if target.isDir then EISDIR
    else OK
  }

  /** `rename`: drop an old destination, then update the rows below the source, then the source. */
  ghost function Rename(files: Files, src: Path, dst: Path): (int, Files) {
    match (Find(files, src), Find(files, Parent(dst)))
    case (Some(id), Some(dir)) =>
      var row := files[id];
      if !files[dir].isDir then (ENOTDIR, files)
      else
        var code := match Find(files, dst)
                    case None => OK
                    case Some(t) => CheckTarget(files, row, files[t], src, dst);
        if code != OK then (code, files)
        else (OK, MoveTree(Without(files, dst), id, row, src, dst, files[dir].depth + 1))
    case _ => (ENOENT, files)
  }

  /** The updates of `rename`, for a source at depth `row.depth` that goes to depth `depth`. */
  function MoveTree(files: Files, id: int, row: FileRow, src: Path, dst: Path, depth: int): Files {
    var moved := if row.isDir then MoveRows(files, src, dst, depth - row.depth) else files;
    if id in moved then moved[id := FileRow(dst, depth, moved[id].isDir)] else moved
  }

  // ---------- The tree ----------

  ghost predicate IsDirectory(files: Files, p: Path) {
    exists id :: id in files && files[id].path == p && files[id].isDir
  }

  /** Paths are unique and well formed, depths count names, and every path but the root is in a directory. */
  ghost predicate TreeOk(files: Files) {
    && UniquePaths(files)
    && 0 !in files
    && (forall id :: id in files ==> WellFormed(files[id].path) && files[id].depth == Depth(files[id].path))
    && IsDirectory(files, "/")
    && forall id :: id in files && files[id].path != "/" ==> IsDirectory(files, Parent(files[id].path))
  }

  lemma FindsUnique(files: Files, id: int)
    requires UniquePaths(files) && id in files
    ensures Find(files, files[id].path) == Some(id)
  {
  }

  lemma TreeIsUnique(files: Files)
    requires TreeOk(files)
    ensures UniquePaths(files) && 0 !in files
  {
  }

  /** All directories on the way to a path exist. */
  lemma {:induction false} AncestorsExist(files: Files, id: int, d: Path)
    requires TreeOk(files) && id in files && WellFormed(d) && Inside(files[id].path, d)
    ensures IsDirectory(files, d)
    decreases |files[id].path|
  {
    hide WellFormed, Inside, Depth, Parent;
    var q := files[id].path;
    InsideParent(q, d);
    var name := Decompose(q);
    if Parent(q) != d {
      var p :| p in files && files[p].path == Parent(q) && files[p].isDir;
      AncestorsExist(files, p, d);
    }
  }

  /** Something below a directory means that something is directly in it. */
  lemma {:induction false} SomeEntry(files: Files, id: int, d: Path) returns (entry: int)
    requires TreeOk(files) && id in files && WellFormed(d) && Inside(files[id].path, d)
    ensures entry in files && files[entry].path != "/" && Parent(files[entry].path) == d
    decreases |files[id].path|
  {
    hide WellFormed, Inside, Depth, Parent;
    var q := files[id].path;
    InsideParent(q, d);
    var name := Decompose(q);
    if Parent(q) == d {
      entry := id;
    } else {
      var p :| p in files && files[p].path == Parent(q) && files[p].isDir;
      entry := SomeEntry(files, p, d);
    }
  }

  /** A listing of a directory holds exactly the paths whose parent it is. */
  lemma ListedAreChildren(files: Files, dir: int, id: int)
    requires TreeOk(files) && dir in files && id in files
    ensures Listed(files[id], files[dir]) <==> files[id].path != "/" && Parent(files[id].path) == files[dir].path
  {
    hide WellFormed, Depth, Parent, Under;
    DirectChild(files[id].path, files[dir].path);
  }

  /** A directory counts as empty if and only if nothing is below it at any depth. */
  lemma EmptyMeansNothingBelow(files: Files, dir: int)
    requires TreeOk(files) && dir in files
    ensures DirEmpty(files, files[dir]) <==> forall id :: id in files ==> !Inside(files[id].path, files[dir].path)
  {
    hide WellFormed, Depth, Parent, Inside, Listed;
    var d := files[dir].path;
    if id :| id in files && Inside(files[id].path, d) {
      var entry := SomeEntry(files, id, d);
      ListedAreChildren(files, dir, entry);
    } else if id :| id in files && Listed(files[id], files[dir]) {
      ListedAreChildren(files, dir, id);
      var name := Decompose(files[id].path);
    }
  }

  // ---------- Creating and removing ----------

  lemma CreateKeepsTree(files: Files, p: Path, isDir: bool, id: int)
    requires TreeOk(files) && WellFormed(p) && id > 0 && id !in files
    ensures TreeOk(Create(files, p, isDir, id).1)
  {
    hide WellFormed, Depth, Parent;
    if Create(files, p, isDir, id).1 != files {
      assert p != "/";
      var name := Decompose(p);
      AddKeepsTree(files, FileRow(p, Depth(p), isDir), id);
    }
  }

  lemma AddKeepsTree(files: Files, row: FileRow, id: int)
    requires TreeOk(files) && WellFormed(row.path) && row.depth == Depth(row.path) && id > 0 && id !in files
    requires row.path != "/" && IsDirectory(files, Parent(row.path))
    requires forall k :: k in files ==> files[k].path != row.path
    ensures TreeOk(files[id := row])
  {
    hide WellFormed, Depth, Parent, IsDirectory;
    StaysDirectory(files, files[id := row]);
  }

  /** What holds of directories still holds when no row of them went away or changed. */
  lemma StaysDirectory(files: Files, files': Files)
    ensures forall p :: IsDirectory(files, p)
              && (forall id :: id in files && files[id].path == p ==> id in files' && files'[id] == files[id])
              ==> IsDirectory(files', p)
  {
  }

  /** The first row of a table is the root. */
  lemma RootMakesTree(id: int)
    requires id > 0
    ensures Create(map[], "/", true, id).0 == OK && TreeOk(Create(map[], "/", true, id).1)
  {
    var files: Files := map[id := FileRow("/", 0, true)];
    assert files[id].path == "/" && files[id].isDir;
    OneSlash();
  }

  /** Removing a path with nothing below it keeps the tree, unless it is the root. */
  lemma WithoutKeepsTree(files: Files, p: Path)
    requires TreeOk(files) && p != "/"
    requires forall id :: id in files ==> !Inside(files[id].path, p)
    ensures TreeOk(Without(files, p))
  {
    hide WellFormed, Depth, Parent, Inside;
    var files' := Without(files, p);
    StaysDirectory(files, files');
    forall id | id in files' && files'[id].path != "/"
      ensures IsDirectory(files', Parent(files'[id].path))
    {
      var name := Decompose(files[id].path);
      assert Parent(files[id].path) != p;
    }
  }

  /** Nothing is below a file. */
  lemma FilesHaveNothingBelow(files: Files, file: int)
    requires TreeOk(files) && file in files && !files[file].isDir
    ensures forall id :: id in files ==> !Inside(files[id].path, files[file].path)
  {
    hide WellFormed, Depth, Parent, Inside;
    var p := files[file].path;
    if id :| id in files && Inside(files[id].path, p) {
      AncestorsExist(files, id, p);
    }
  }

  lemma UnlinkKeepsTree(files: Files, p: Path, truncated: int)
    requires TreeOk(files)
    ensures TreeOk(Unlink(files, p, truncated).1)
  {
    hide WellFormed, Depth, Parent, Inside;
    if Unlink(files, p, truncated).1 != files {
      var id := Find(files, p).value;
      FilesHaveNothingBelow(files, id);
      WithoutKeepsTree(files, p);
    }
  }

  /** `Rmdir` keeps the tree if and only if it is not asked to remove the root with nothing in it. */
  lemma RmdirKeepsTree(files: Files, p: Path, unset: bool)
    requires TreeOk(files)
    ensures TreeOk(Rmdir(files, p, unset).1) <==> p != "/" || exists id :: id in files && Inside(files[id].path, "/")
  {
    hide WellFormed, Depth, Parent, Inside;
    match Find(files, p)
    case None =>
      assert Without(files, p) == files;
    case Some(id) =>
      EmptyMeansNothingBelow(files, id);
      if p != "/" {
        if Rmdir(files, p, unset).1 != files {
          WithoutKeepsTree(files, p);
        }
      } else {
        assert files[id].isDir;
      }
  }

  /** `Rmdir` of a path that does not exist changes nothing, and does not say so: it takes the path for a file or for the root. */
  lemma RmdirOfNothing(files: Files, p: Path, unset: bool)
    requires TreeOk(files) && Find(files, p).None?
    ensures Rmdir(files, p, unset)
         == (if !unset then ENOTDIR
             else if exists id :: id in files && Inside(files[id].path, "/") then ENOTEMPTY
             else OK, files)
  {
    hide WellFormed, Depth, Parent, Inside;
    RootIsPath();
    assert Without(files, p) == files;
    var root :| root in files && files[root].path == "/" && files[root].isDir;
    EmptyMeansNothingBelow(files, root);
    assert forall id :: id in files ==> (Listed(files[id], FileRow("", 0, unset)) <==> Listed(files[id], files[root]));
  }

  // ---------- Renaming ----------

  /** Nothing is at `p` or below. */
  ghost predicate Vacant(files: Files, p: Path) {
    forall id :: id in files ==> !Within(files[id].path, p)
  }

  /** The destination is neither the source nor below it. */
  predicate Elsewhere(src: Path, dst: Path) {
    !Within(dst, src)
  }

  /**
   What a rename is for: every path within `src` goes to the same place within `dst`, at its depth there and
   with its row; what was at `dst` is gone; every other row stays as it is.
   */
  ghost predicate MovedRigidly(files: Files, files': Files, src: Path, dst: Path) {
    && files'.Keys <= files.Keys
    && forall id :: id in files ==>
         var row := files[id];
         if Within(row.path, src) then
           && id in files' && |src| <= |row.path| && files'[id].isDir == row.isDir
           && files'[id].path == MovePath(row.path, src, dst) && files'[id].depth == Depth(files'[id].path)
         else if row.path == dst then id !in files'
         else id in files' && files'[id] == row
  }

  lemma BelowIsInside(q: Path, src: Path)
    requires WellFormed(q) && WellFormed(src)
    ensures src + "/" <= q <==> src != "/" && Inside(q, src)
  {
    if src == "/" {
      assert (src + "/")[0] == (src + "/")[1] == '/';
    } else {
      assert Under(src)[|src|] == '/';
    }
  }

  /** A rename that is carried out has a vacant destination once the old one is dropped. */
  lemma TargetVacant(files: Files, src: Path, dst: Path)
    requires TreeOk(files) && WellFormed(dst) && Rename(files, src, dst).0 == OK
    ensures dst != "/" && Vacant(Without(files, dst), dst)
    ensures IsDirectory(files, Parent(dst)) && Find(files, src).Some?
  {
    hide WellFormed, Depth, Inside, DirEmpty;
    assert dst != "/" by {
      RootHasNoParent(files);
    }
    match Find(files, dst)
    case None =>
      if id :| id in files && Inside(files[id].path, dst) {
        AncestorsExist(files, id, dst);
      }
    case Some(t) =>
      if files[t].isDir {
        EmptyMeansNothingBelow(files, t);
      } else {
        FilesHaveNothingBelow(files, t);
      }
  }

  lemma RootHasNoParent(files: Files)
    requires TreeOk(files)
    ensures Find(files, Parent("/")) == None
  {
    hide Depth;
  }

  lemma RenameUnfolds(files: Files, src: Path, dst: Path)
    ensures var s, d, t := Find(files, src), Find(files, Parent(dst)), Find(files, dst);
            var r := Rename(files, src, dst);
            if s.None? || d.None? then r == (ENOENT, files)
            else if !files[d.value].isDir then r == (ENOTDIR, files)
            else
              var code := if t.None? then OK else CheckTarget(files, files[s.value], files[t.value], src, dst);
              r == if code != OK then (code, files)
                   else (OK, MoveTree(Without(files, dst), s.value, files[s.value], src, dst, files[d.value].depth + 1))
  {
    hide CheckTarget, MoveTree, Parent;
  }

  /** What the updates of a rename make of one row. */
  lemma MoveTreeRow(files: Files, id: int, src: Path, dst: Path, k: int)
    requires TreeOk(files) && WellFormed(src) && WellFormed(dst) && src != "/" && dst != "/" && Elsewhere(src, dst)
    requires id in files && files[id].path == src && k in files
    ensures var files' := MoveTree(Without(files, dst), id, files[id], src, dst, Depth(dst));
            var row := files[k];
            if Within(row.path, src) then
              && k in files' && |src| <= |row.path| && files'[k].isDir == row.isDir
              && files'[k].path == MovePath(row.path, src, dst) && files'[k].depth == Depth(files'[k].path)
            else if row.path == dst then k !in files'
            else k in files' && files'[k] == row
  {
    hide WellFormed, Depth, Inside, Parent, IsDirectory;
    var q := files[k].path;
    BelowIsInside(q, src);
    NotInsideItself(src);
    if Within(q, src) {
      Moved(q, src, dst);
    }
    if !files[id].isDir {
      FilesHaveNothingBelow(files, id);
    }
  }

  /** The updates of a rename are a rigid move. */
  lemma RenameMoves(files: Files, src: Path, dst: Path)
    requires TreeOk(files) && WellFormed(src) && WellFormed(dst)
    requires Elsewhere(src, dst) && Rename(files, src, dst).0 == OK
    ensures src != "/" && MovedRigidly(files, Rename(files, src, dst).1, src, dst)
  {
    hide WellFormed, Depth, Inside, DirEmpty, Parent, IsDirectory, MoveTree, Vacant;
    TargetVacant(files, src, dst);
    assert src != "/" by {
      RootHoldsAll(dst);
    }
    RenameUnfolds(files, src, dst);
    var id := Find(files, src).value;
    var name := Decompose(dst);
    forall k | k in files {
      MoveTreeRow(files, id, src, dst, k);
    }
    MoveTreeKeys(Without(files, dst), id, files[id], src, dst, Depth(dst));
  }

  lemma MoveTreeKeys(files: Files, id: int, row: FileRow, src: Path, dst: Path, depth: int)
    ensures MoveTree(files, id, row, src, dst, depth).Keys == files.Keys
  {
  }

  lemma NotInsideItself(p: Path)
    ensures !Inside(p, p)
  {
  }

  lemma RootHoldsAll(p: Path)
    requires WellFormed(p) && p != "/"
    ensures Inside(p, "/")
  {
  }

  /** Two rows of a rigid move never meet. */
  lemma RigidKeepsUnique(files: Files, files': Files, src: Path, dst: Path, a: int, b: int)
    requires TreeOk(files) && WellFormed(src) && WellFormed(dst) && src != "/" && dst != "/"
    requires MovedRigidly(files, files', src, dst) && Vacant(Without(files, dst), dst)
    requires a in files' && b in files' && files'[a].path == files'[b].path
    ensures a == b
  {
    hide WellFormed, Depth, Inside, Parent, IsDirectory;
    forall k | k in files' && Within(files[k].path, src)
      ensures Within(files'[k].path, dst) && MovePath(files'[k].path, dst, src) == files[k].path
    {
      Moved(files[k].path, src, dst);
    }
    assert forall k :: k in files' && !Within(files[k].path, src) ==> k in Without(files, dst);
  }

  /** A rigid move to a vacant place in a directory elsewhere makes a tree of a tree. */
  lemma RigidKeepsTree(files: Files, files': Files, src: Path, dst: Path)
    requires TreeOk(files) && WellFormed(src) && WellFormed(dst) && src != "/" && dst != "/"
    requires MovedRigidly(files, files', src, dst) && Vacant(Without(files, dst), dst)
    requires Elsewhere(src, dst) && IsDirectory(files, Parent(dst))
    ensures TreeOk(files')
  {
    hide WellFormed, Depth, Inside, Parent;
    RootIsNotWithin(src);
    assert IsDirectory(files', "/");
    forall a, b | a in files' && b in files' && files'[a].path == files'[b].path
      ensures a == b
    {
      RigidKeepsUnique(files, files', src, dst, a, b);
    }
    forall id | id in files'
      ensures WellFormed(files'[id].path) && files'[id].depth == Depth(files'[id].path)
      ensures files'[id].path != "/" ==> IsDirectory(files', Parent(files'[id].path))
    {
      if Within(files[id].path, src) {
        Moved(files[id].path, src, dst);
        MovedHasParent(files, files', src, dst, id);
      } else if files[id].path != "/" {
        StayedHasParent(files, files', src, dst, id);
      }
    }
  }

  /** The directory of a moved row is the directory of the destination, or moved along. */
  lemma MovedHasParent(files: Files, files': Files, src: Path, dst: Path, id: int)
    requires TreeOk(files) && WellFormed(src) && WellFormed(dst) && src != "/" && dst != "/"
    requires MovedRigidly(files, files', src, dst) && Elsewhere(src, dst) && IsDirectory(files, Parent(dst))
    requires id in files' && Within(files[id].path, src)
    ensures IsDirectory(files', Parent(files'[id].path))
  {
    hide WellFormed, Depth, Inside, Parent;
    var q := files[id].path;
    if q == src {
      Moved(q, src, dst);
      var name := Decompose(dst);
      var d :| d in files && files[d].path == Parent(dst) && files[d].isDir;
      assert !Within(Parent(dst), src) by {
        if Within(Parent(dst), src) {
          InsideTransitive(dst, Parent(dst), src);
        }
      }
      assert files'[d] == files[d];
    } else {
      MovedParent(q, src, dst);
      InsideParent(q, src);
      var d :| d in files && files[d].path == Parent(q) && files[d].isDir;
      assert files'[d].path == MovePath(Parent(q), src, dst);
    }
  }

  /** The directory of a row that stays, stays. */
  lemma StayedHasParent(files: Files, files': Files, src: Path, dst: Path, id: int)
    requires TreeOk(files) && WellFormed(src) && WellFormed(dst) && src != "/" && dst != "/"
    requires MovedRigidly(files, files', src, dst) && Vacant(Without(files, dst), dst)
    requires id in files' && !Within(files[id].path, src) && files[id].path != "/"
    ensures IsDirectory(files', Parent(files[id].path))
  {
    hide WellFormed, Depth, Inside, Parent;
    var q := files[id].path;
    var name := Decompose(q);
    var d :| d in files && files[d].path == Parent(q) && files[d].isDir;
    assert !Within(Parent(q), src) by {
      if Within(Parent(q), src) {
        InsideTransitive(q, Parent(q), src);
      }
    }
    assert id in Without(files, dst);
    assert Parent(q) != dst;
    assert files'[d] == files[d];
  }

  /**
   A rename that is carried out moves the subtree and leaves a tree if and only if the destination is
   neither the source nor below it, a case that `rename` does not refuse by itself.
   */
  lemma RenameExact(files: Files, src: Path, dst: Path)
    requires TreeOk(files) && WellFormed(src) && WellFormed(dst) && Rename(files, src, dst).0 == OK
    ensures var files' := Rename(files, src, dst).1;
            MovedRigidly(files, files', src, dst) && TreeOk(files') <==> Elsewhere(src, dst)
  {
    TargetVacant(files, src, dst);
    if Elsewhere(src, dst) {
      RenameMoves(files, src, dst);
      RigidKeepsTree(files, Rename(files, src, dst).1, src, dst);
    } else if dst == src {
      RenameToItself(files, src);
    } else {
      RenameBelowItself(files, src, dst);
    }
  }

  /** A file renamed to itself is gone. */
  lemma RenameToItself(files: Files, src: Path)
    requires TreeOk(files) && WellFormed(src) && Rename(files, src, src).0 == OK
    ensures Rename(files, src, src).1 == Without(files, src) && !MovedRigidly(files, Rename(files, src, src).1, src, src)
  {
    hide WellFormed, Depth, Inside, Parent, IsDirectory, DirEmpty;
    var id := Find(files, src).value;
    assert src <= src;
    assert id !in Without(files, src);
  }

  /** A directory renamed to a place below itself leaves paths without their directories. */
  lemma RenameBelowItself(files: Files, src: Path, dst: Path)
    requires TreeOk(files) && WellFormed(src) && WellFormed(dst) && Rename(files, src, dst).0 == OK
    requires Inside(dst, src)
    ensures !TreeOk(Rename(files, src, dst).1)
  {
    hide WellFormed, Depth, Inside, Parent, DirEmpty;
    var files' := Rename(files, src, dst).1;
    var id := Find(files, src).value;
    NotInsideItself(src);
    InsideIsLonger(dst, src);
    assert id in files' && files'[id].path == dst;
    assert forall k :: k in files' ==> files'[k].path != src;
    if TreeOk(files') {
      AncestorsExist(files', id, src);
      assert false;
    }
  }

  lemma InsideIsLonger(q: Path, d: Path)
    requires Inside(q, d)
    ensures |q| > |d|
  {
  }

  /** A rename to a free place is undone by the rename back: same rows, same paths, same depths. */
  lemma ThereAndBack(files: Files, src: Path, dst: Path)
    requires TreeOk(files) && WellFormed(src) && WellFormed(dst) && Elsewhere(src, dst)
    requires Find(files, dst).None? && Rename(files, src, dst).0 == OK
    ensures Rename(Rename(files, src, dst).1, dst, src) == (OK, files)
  {
    hide WellFormed, Depth, Inside, Parent, DirEmpty, IsDirectory, Rename, TreeOk, Vacant;
    var files' := Rename(files, src, dst).1;
    TargetVacant(files, src, dst);
    RenameMoves(files, src, dst);
    RenameExact(files, src, dst);
    BackIsPossible(files, files', src, dst);
    TargetVacant(files', dst, src);
    RenameMoves(files', dst, src);
    BackRestores(files, files', Rename(files', dst, src).1, src, dst);
  }

  lemma BackIsPossible(files: Files, files': Files, src: Path, dst: Path)
    requires TreeOk(files) && TreeOk(files') && WellFormed(src) && WellFormed(dst) && src != "/" && dst != "/"
    requires MovedRigidly(files, files', src, dst) && Vacant(Without(files, dst), dst) && Find(files, dst).None?
    requires Find(files, src).Some?
    ensures Elsewhere(dst, src) && Rename(files', dst, src).0 == OK
  {
    hide WellFormed, Depth, Inside, Parent, DirEmpty;
    var id := Find(files, src).value;
    assert Without(files, dst) == files;
    var name := Decompose(src);
    var d :| d in files && files[d].path == Parent(src) && files[d].isDir;
    assert !Within(Parent(src), src) by {
      if Inside(Parent(src), src) {
        InsideIsLonger(Parent(src), src);
      }
    }
    assert d in files' && files'[d] == files[d];
    FindsUnique(files', d);
    Moved(src, src, dst);
    FindsUnique(files', id);
    forall k | k in files'
      ensures files'[k].path != src
    {
      if Within(files[k].path, src) {
        Moved(files[k].path, src, dst);
      }
    }
  }

  lemma BackRestores(files: Files, files': Files, files'': Files, src: Path, dst: Path)
    requires TreeOk(files) && WellFormed(src) && WellFormed(dst) && src != "/" && dst != "/"
    requires MovedRigidly(files, files', src, dst) && Vacant(Without(files, dst), dst) && Find(files, dst).None?
    requires MovedRigidly(files', files'', dst, src)
    ensures files'' == files
  {
    hide WellFormed, Depth, Inside, Parent, IsDirectory;
    assert Without(files, dst) == files;
    forall id | id in files
      ensures id in files'' && files''[id] == files[id]
    {
      if Within(files[id].path, src) {
        Moved(files[id].path, src, dst);
      }
    }
  }

  /** When a rename is carried out; otherwise nothing changes. */
  lemma RenameOutcome(files: Files, src: Path, dst: Path)
    requires TreeOk(files) && WellFormed(src) && WellFormed(dst)
    ensures var (code, files') := Rename(files, src, dst);
            && (code != OK ==> files' == files)
            && (code == OK <==>
                 && Find(files, src).Some? && IsDirectory(files, Parent(dst))
                 && match Find(files, dst)
                    case None => true
                    case Some(t) =>
                      if IsDirectory(files, src) then
                        files[t].isDir && !(src <= dst) && forall id :: id in files ==> !Inside(files[id].path, dst)
                      else !files[t].isDir)
  {
    hide WellFormed, Depth, Inside, Parent, DirEmpty;
    if Find(files, dst).Some? {
      EmptyMeansNothingBelow(files, Find(files, dst).value);
    }
  }

  /** What each operation returns, as the number that the caller sees. */
  lemma ReturnedNumbers(files: Files, p: Path, isDir: bool, id: int, truncated: int, unset: bool)
    requires TreeOk(files)
    ensures Create(files, p, isDir, id).0
         == if p != "/" && Find(files, Parent(p)).None? then -2
            else if p != "/" && !IsDirectory(files, Parent(p)) then -20
            else if Find(files, p).Some? then -17
            else 0
    ensures Unlink(files, p, truncated).0
         == if Find(files, p).None? then -2 else if IsDirectory(files, p) then -21 else truncated
    ensures Find(files, p).Some? ==>
              Rmdir(files, p, unset).0
              == if !IsDirectory(files, p) then -20
                 else if exists k :: k in files && Inside(files[k].path, p) then -39
                 else 0
  {
    hide WellFormed, Depth, Parent, Inside, DirEmpty;
    forall q
      ensures IsDirectory(files, q) <==> Find(files, q).Some? && files[Find(files, q).value].isDir
    {
      if id :| id in files && files[id].path == q {
        FindsUnique(files, id);
      }
    }
    if Find(files, p).Some? {
      EmptyMeansNothingBelow(files, Find(files, p).value);
    }
  }

  lemma RenameNumbers(files: Files, src: Path, dst: Path)
    requires TreeOk(files)
    ensures Rename(files, src, dst).0
         == if Find(files, src).None? || Find(files, Parent(dst)).None? then -2
            else if !IsDirectory(files, Parent(dst)) then -20
            else if Find(files, dst).None? then 0
            else if !IsDirectory(files, src) then if IsDirectory(files, dst) then -21 else 0
            else if IsDirectory(files, dst) && exists k :: k in files && Inside(files[k].path, dst) then -39
            else if !IsDirectory(files, dst) then -20
            else if src <= dst then -22
            else 0
  {
    hide WellFormed, Depth, Parent, Inside, DirEmpty, MoveTree;
    RenameUnfolds(files, src, dst);
    hide Rename;
    forall q
      ensures IsDirectory(files, q) <==> Find(files, q).Some? && files[Find(files, q).value].isDir
    {
      if id :| id in files && files[id].path == q {
        FindsUnique(files, id);
      }
    }
    if Find(files, dst).Some? {
      EmptyMeansNothingBelow(files, Find(files, dst).value);
    }
  }

  /** Two empty directories in the root. */
  function Siblings(): Files {
    map[1 := FileRow("/", 0, true), 2 := FileRow("/a", 1, true), 3 := FileRow("/ab", 1, true)]
  }

  lemma SiblingPaths()
    ensures WellFormed("/") && WellFormed("/a") && WellFormed("/ab")
    ensures Depth("/") == 0 && Depth("/a") == 1 && Depth("/ab") == 1
    ensures Parent("/a") == "/" && Parent("/ab") == "/" && "/a" <= "/ab" && Elsewhere("/a", "/ab")
  {
    RootIsPath();
    ChildPath("/", "a");
    ChildPath("/", "ab");
    hide Depth, Parent, WellFormed;
    assert "/" + "a" == "/a" && "/" + "ab" == "/ab";
    assert Under("/a") == "/a/";
  }

  lemma SiblingsAreTree()
    ensures TreeOk(Siblings())
  {
    SiblingPaths();
    hide WellFormed, Depth, Parent;
    var files := Siblings();
    assert files[1].path == "/" && files[1].isDir;
    assert "/a"[1..] != "/ab"[1..];
  }

  /**
   The check meant to refuse a directory below the source refuses a sibling, too, whose name merely
   begins with the name of the source.
   */
  lemma SiblingRefused()
    ensures TreeOk(Siblings()) && Elsewhere("/a", "/ab") && Rename(Siblings(), "/a", "/ab") == (EINVAL, Siblings())
  {
    SiblingPaths();
    SiblingsAreTree();
    hide WellFormed, Depth, Parent, Under, Within, IsDirectory;
    var files := Siblings();
    FindsUnique(files, 1);
    FindsUnique(files, 2);
    FindsUnique(files, 3);
  }

  /** One file in the root. */
  function OneFile(): Files {
    map[1 := FileRow("/", 0, true), 2 := FileRow("/a", 1, false)]
  }

  /** The file of a table renamed to itself is gone. */
  lemma OnlyFileLost()
    ensures TreeOk(OneFile()) && Rename(OneFile(), "/a", "/a") == (OK, map[1 := FileRow("/", 0, true)])
  {
    SiblingPaths();
    hide WellFormed, Depth, Parent, Under, Within;
    var files := OneFile();
    assert files[1].path == "/" && files[1].isDir;
    FindsUnique(files, 1);
    FindsUnique(files, 2);
    assert MoveTree(Without(files, "/a"), 2, files[2], "/a", "/a", 1) == map[1 := FileRow("/", 0, true)];
  }

  /** A rename to a free place in a directory is carried out. */
  lemma FreePlaceOk(files: Files, id: int, dir: int, src: Path, dst: Path)
    requires UniquePaths(files) && id in files && files[id].path == src
    requires dir in files && files[dir].path == Parent(dst) && files[dir].isDir
    requires forall k :: k in files ==> files[k].path != dst
    ensures Rename(files, src, dst).0 == OK
  {
    hide Parent, MoveTree;
    FindsUnique(files, id);
    FindsUnique(files, dir);
  }

  lemma PathBelowA()
    ensures WellFormed("/a/b") && Inside("/a/b", "/a") && Parent("/a/b") == "/a"
  {
    SiblingPaths();
    ChildPath("/a", "b");
    assert Under("/a") == "/a/" && "/a/" + "b" == "/a/b";
    hide *;
  }

  /** A directory renamed to a free place in itself: the rename is carried out, and leaves no tree. */
  lemma SiblingLost()
    ensures TreeOk(Siblings()) && Rename(Siblings(), "/a", "/a/b").0 == OK && !TreeOk(Rename(Siblings(), "/a", "/a/b").1)
  {
    SiblingsAreTree();
    SiblingsAreUnique();
    SiblingPaths();
    PathBelowA();
    hide WellFormed, Depth, Parent, Under, Inside, Within, IsDirectory, TreeOk, Rename, UniquePaths;
    FreePlaceOk(Siblings(), 2, 2, "/a", "/a/b");
    RenameBelowItself(Siblings(), "/a", "/a/b");
  }

  lemma SiblingsAreUnique()
    ensures UniquePaths(Siblings())
  {
    SiblingsAreTree();
  }

  lemma RootIsPath()
    ensures WellFormed("/") && Depth("/") == 0 && Under("/") == "/"
  {
    OneSlash();
  }

  // ---------- Runs ----------

  datatype Op =
    | OpCreate(path: Path, isDir: bool, id: int)
    | OpUnlink(path: Path, truncated: int)
    | OpRmdir(path: Path, unset: bool)
    | OpRename(src: Path, dst: Path)

  /** The table after an operation. */
  ghost function Apply(files: Files, op: Op): Files {
    match op
    case OpCreate(p, isDir, id) => Create(files, p, isDir, id).1
    case OpUnlink(p, truncated) => Unlink(files, p, truncated).1
    case OpRmdir(p, unset) => Rmdir(files, p, unset).1
    case OpRename(src, dst) => Rename(files, src, dst).1
  }

  /** What the kernel sees to: proper paths, unused keys, no removal of the root, no rename into itself. */
  ghost predicate Proper(files: Files, op: Op) {
    match op
    case OpCreate(p, _, id) => WellFormed(p) && id > 0 && id !in files
    case OpUnlink(p, _) => true
    case OpRmdir(p, _) => p != "/"
    case OpRename(src, dst) => WellFormed(src) && WellFormed(dst) && Elsewhere(src, dst)
  }

  ghost function ApplyAll(files: Files, ops: seq<Op>): Files
    decreases |ops|
  {
    if ops == [] then files else ApplyAll(Apply(files, ops[0]), ops[1..])
  }

  ghost predicate ProperRun(files: Files, ops: seq<Op>)
    decreases |ops|
  {
    ops != [] ==> Proper(files, ops[0]) && ProperRun(Apply(files, ops[0]), ops[1..])
  }

  lemma ApplyKeepsTree(files: Files, op: Op)
    requires TreeOk(files) && Proper(files, op)
    ensures TreeOk(Apply(files, op))
  {
    hide TreeOk, WellFormed, Create, Unlink, Rmdir, Inside;
    match op
    case OpCreate(p, isDir, id) => CreateKeepsTree(files, p, isDir, id);
    case OpUnlink(p, truncated) => UnlinkKeepsTree(files, p, truncated);
    case OpRmdir(p, unset) => RmdirKeepsTree(files, p, unset);
    case OpRename(src, dst) =>
      if Rename(files, src, dst).0 == OK {
        RenameExact(files, src, dst);
      }
  }

  /** Over every run the table stays a tree. */
  lemma {:induction false} RunKeepsTree(files: Files, ops: seq<Op>)
    requires TreeOk(files) && ProperRun(files, ops)
    ensures TreeOk(ApplyAll(files, ops))
    decreases |ops|
  {
    hide TreeOk, Apply, Proper;
    if ops != [] {
      ApplyKeepsTree(files, ops[0]);
      RunKeepsTree(Apply(files, ops[0]), ops[1..]);
    }
  }
}
