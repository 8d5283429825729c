/**
 The table of files as an object that is updated in place, each method proved to compute the function of
 `TreeModel` that the theorems about the tree are about.
 */
module FileTrees {
  import opened Basics
  import opened TreePaths
  import opened TreeModel

  /** The update of a row below the source meets no other path: moved or not, other rows have others. */
  lemma NoConflict(files: Files, src: Path, dst: Path, id: int)
    requires UniquePaths(files) && forall k :: k in files ==> WellFormed(files[k].path)
    requires WellFormed(src) && WellFormed(dst) && dst != "/" && Vacant(files, dst)
    requires id in files && Below(files[id], src)
    ensures var p := MovePath(files[id].path, src, dst);
            && p != dst
            && forall k :: k in files && k != id ==>
                 files[k].path != p && (Below(files[k], src) ==> MovePath(files[k].path, src, dst) != p)
  {
    hide WellFormed, Inside;
    forall k | k in files && Below(files[k], src)
      ensures var p := MovePath(files[k].path, src, dst);
              Within(p, dst) && p != dst && |dst| <= |p| && MovePath(p, dst, src) == files[k].path
    {
      BelowIsInside(files[k].path, src);
      Moved(files[k].path, src, dst);
      NotInsideItself(src);
    }
  }

  lemma WithoutIsPart(files: Files, p: Path)
    requires TreeOk(files)
    ensures UniquePaths(Without(files, p))
    ensures forall k :: k in Without(files, p) ==> WellFormed(files[k].path)
  {
  }

  lemma VacantPath(files: Files, p: Path, id: int)
    requires Vacant(files, p) && id in files
    ensures !Within(files[id].path, p)
  {
  }

  /** The table of files of one database. */
  class FileTree {
    var files: Files

    /** `getByPath`: the key of the row, or 0. */
    method GetByPath(p: Path) returns (id: int)
      requires UniquePaths(files) && 0 !in files
      ensures id == match Find(files, p) case None => 0 case Some(i) => i
    {
      if i: int :| i in files && files[i].path == p {
        id := i;
      } else {
        id := 0;
      }
    }

    /** `create` */
    method Create(p: Path, isDir: bool, id: int) returns (r: int)
      requires UniquePaths(files) && 0 !in files
      modifies this
      ensures (r, files) == old(TreeModel.Create(files, p, isDir, id))
    {
      var depth := 0;
      if p != "/" {
        var dir := GetByPath(Parent(p));
        if dir == 0 {
          return ENOENT;
        }
        if !files[dir].isDir {
          return ENOTDIR;
        }
        depth := files[dir].depth + 1;
      }
      var fi := GetByPath(p);
      if fi != 0 {
        return EEXIST;
      }
      files := files[id := FileRow(p, depth, isDir)];
      r := OK;
    }

    /** `remove` */
    method Remove(p: Path)
      modifies this
      ensures files == Without(old(files), p)
    {
      files := Without(files, p);
    }

    /** `Unlink` */
    method Unlink(p: Path, truncated: int) returns (r: int)
      requires UniquePaths(files) && 0 !in files
      modifies this
      ensures (r, files) == old(TreeModel.Unlink(files, p, truncated))
    {
      var fi := GetByPath(p);
      if fi == 0 {
        return ENOENT;
      }
      if files[fi].isDir {
        return EISDIR;
      }
      if truncated != 0 {
        return truncated;
      }
      Remove(p);
      r := OK;
    }

    /** `Rmdir`; `unset` is what the mode of a `file_info` without a row happens to read as. */
    method Rmdir(p: Path, unset: bool) returns (r: int)
      requires UniquePaths(files) && 0 !in files
      modifies this
      ensures (r, files) == old(TreeModel.Rmdir(files, p, unset))
    {
      var fi := GetByPath(p);
      var dir := if fi == 0 then FileRow("", 0, unset) else files[fi];
      if !dir.isDir {
        return ENOTDIR;
      }
      if !DirEmpty(files, dir) {
        return ENOTEMPTY;
      }
      Remove(p);
      r := OK;
    }

    /** `readdir`: the rows of the entries of a directory, each once. */
    method Readdir(dir: int) returns (res: seq<int>)
      requires TreeOk(files) && dir in files
      ensures forall i, j :: 0 <= i < j < |res| ==> res[i] != res[j]
      ensures forall id :: id in res <==> id in files && files[id].path != "/" && Parent(files[id].path) == files[dir].path
    {
      hide TreeOk, Parent, Under;
      res := [];
      var rest := files.Keys;
      while |rest| > 0
        invariant rest <= files.Keys
        invariant forall i, j :: 0 <= i < j < |res| ==> res[i] != res[j]
        invariant forall id :: id in res <==>
          id in files.Keys - rest && files[id].path != "/" && Parent(files[id].path) == files[dir].path
        decreases |rest|
      {
        ghost var some := SomeMember(rest);
        var id :| id in rest;
        ListedAreChildren(files, dir, id);
        if Listed(files[id], files[dir]) {
          res := res + [id];
        }
        rest := rest - {id};
      }
    }

    /** `UPDATE files SET path = ?, depth = ? WHERE _ID = ?`, with the constraint that paths are unique. */
    method UpdatePath(id: int, p: Path, depth: int)
      requires UniquePaths(files)
      requires id in files ==> forall k :: k in files && k != id ==> files[k].path != p
      modifies this
      ensures UniquePaths(files)
      ensures files == if id in old(files) then old(files)[id := FileRow(p, depth, old(files)[id].isDir)] else old(files)
    {
      if id in files {
        files := files[id := FileRow(p, depth, files[id].isDir)];
      }
    }

    /** The loop of `rename` over the rows below the source. */
    method MoveBelow(src: Path, dst: Path, depthDiff: int)
      requires UniquePaths(files) && forall k :: k in files ==> WellFormed(files[k].path)
      requires WellFormed(src) && WellFormed(dst) && dst != "/" && Vacant(files, dst)
      modifies this
      ensures files == MoveRows(old(files), src, dst, depthDiff)
      ensures UniquePaths(files) && forall k :: k in files ==> files[k].path != dst
    {
      hide WellFormed, Below, Vacant;
      ghost var before := files;
      var rest := files.Keys;
      while |rest| > 0
        invariant files.Keys == before.Keys && rest <= files.Keys && UniquePaths(files)
        invariant forall k :: k in rest ==> files[k] == before[k]
        invariant forall k :: k in files.Keys - rest ==> files[k] == MoveRow(before[k], src, dst, depthDiff)
        decreases |rest|
      {
        ghost var some := SomeMember(rest);
        var id :| id in rest;
        if Below(files[id], src) {
          NoConflict(before, src, dst, id);
          var row := MoveRow(files[id], src, dst, depthDiff);
          UpdatePath(id, row.path, row.depth);
        }
        rest := rest - {id};
      }
      assert rest == {};
      forall k | k in files
        ensures files[k] == MoveRow(before[k], src, dst, depthDiff)
      {
        assert k in files.Keys - rest;
      }
      assert files == MoveRows(before, src, dst, depthDiff);
      forall k | k in files
        ensures files[k].path != dst
      {
        if Below(before[k], src) {
          NoConflict(before, src, dst, k);
        } else {
          assert !Within(before[k].path, dst) by {
            VacantPath(before, dst, k);
          }
        }
      }
    }

    /** All changes that `rename` makes. */
    method UpdatePaths(oldFile: int, row: FileRow, src: Path, dst: Path, depth: int)
      requires TreeOk(files) && WellFormed(src) && WellFormed(dst) && dst != "/" && Vacant(Without(files, dst), dst)
      modifies this
      ensures files == MoveTree(Without(old(files), dst), oldFile, row, src, dst, depth)
    {
      hide WellFormed, MoveRows, TreeOk;
      WithoutIsPart(files, dst);
      Remove(dst);
      if row.isDir {
        MoveBelow(src, dst, depth - row.depth);
      }
      UpdatePath(oldFile, dst, depth);
    }

    /** The checks of `rename`, and what they find: the row to move and its new depth. */
    method CheckRename(src: Path, dst: Path) returns (r: int, oldFile: int, depth: int)
      requires UniquePaths(files) && 0 !in files
      ensures r != OK ==> TreeModel.Rename(files, src, dst) == (r, files)
      ensures r == OK ==> oldFile in files
      ensures r == OK ==>
        TreeModel.Rename(files, src, dst)
        == (OK, MoveTree(Without(files, dst), oldFile, files[oldFile], src, dst, depth))
    {
      RenameUnfolds(files, src, dst);
      hide TreeModel.Rename, CheckTarget, MoveTree, Without, Parent;
      r, depth := OK, 0;
      oldFile := GetByPath(src);
      if oldFile == 0 {
        return ENOENT, oldFile, depth;
      }
      var destDir := GetByPath(Parent(dst));
      if destDir == 0 {
        return ENOENT, oldFile, depth;
      }
      if !files[destDir].isDir {
        return ENOTDIR, oldFile, depth;
      }
      depth := files[destDir].depth + 1;
      var newFile := GetByPath(dst);
      if newFile != 0 {
        r := CheckTarget(files, files[oldFile], files[newFile], src, dst);
      }
    }

    /** `rename`. Every update on the way meets the constraint that paths are unique. */
    method Rename(src: Path, dst: Path) returns (r: int)
      requires TreeOk(files) && WellFormed(src) && WellFormed(dst)
      modifies this
      ensures (r, files) == old(TreeModel.Rename(files, src, dst))
    {
      hide WellFormed, TreeModel.Rename, MoveTree, Vacant;
      var oldFile, depth;
      r, oldFile, depth := CheckRename(src, dst);
      if r == OK {
        TargetVacant(files, src, dst);
        UpdatePaths(oldFile, files[oldFile], src, dst, depth);
      }
    }
  }
}
