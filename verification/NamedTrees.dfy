/**
 The directory tree with the bytes of its files, as a map from paths: what the table of files and the contents of its
 rows stand for, and what the operations on the table do to it.
 */
module NamedTrees {
  import opened Basics
  import opened Bytes
  import opened TreePaths
  import opened TreeModel

  datatype Node = Folder | Regular(bytes: seq<Byte>)

  type Nodes = imap<Path, Node>

  // ---------- The operations on trees ----------

  /** What creating a file or directory returns. */
  function CreateCode(nodes: Nodes, p: Path): int {
    if p != "/" && Parent(p) !in nodes then ENOENT
    else if p != "/" && nodes[Parent(p)] != Folder then ENOTDIR
    else if p in nodes then EEXIST
    else OK
  }

  ghost predicate Empty(nodes: Nodes, p: Path) {
    forall q :: q in nodes ==> !Inside(q, p)
  }

  ghost function RemoveFolderCode(nodes: Nodes, p: Path): int {
    if p !in nodes then ENOENT
    else if nodes[p] != Folder then ENOTDIR
    else if !Empty(nodes, p) then ENOTEMPTY
    else OK
  }

  /** What renaming returns; a folder is not moved onto a path that its own path is the beginning of. */
  ghost function RenameCode(nodes: Nodes, src: Path, dst: Path): int {
    if src !in nodes || Parent(dst) !in nodes then ENOENT
    else if nodes[Parent(dst)] != Folder then ENOTDIR
    else if dst !in nodes then OK
    else if nodes[src] != Folder then if nodes[dst] == Folder then EISDIR else OK
    else if nodes[dst] == Folder && !Empty(nodes, dst) then ENOTEMPTY
    else if nodes[dst] != Folder then ENOTDIR
    else if src <= dst then EINVAL
    else OK
  }

  /** Where a path was before the rename. */
  function Origin(p: Path, src: Path, dst: Path): Path {
    if Within(p, dst) && |dst| <= |p| then MovePath(p, dst, src) else p
  }

  /** After the rename nothing is within the source, unless it is within the destination. */
  predicate Appears(nodes: Nodes, p: Path, src: Path, dst: Path) {
    Origin(p, src, dst) in nodes && (Within(p, dst) || !Within(p, src))
  }

  /** The tree after a rename: within the destination is what was within the source, and nothing else has changed. */
  ghost function Renamed(nodes: Nodes, src: Path, dst: Path): Nodes {
    imap p | Appears(nodes, p, src, dst) :: nodes[Origin(p, src, dst)]
  }

  /** The path of an open file after a rename. */
  function NewName(p: Path, src: Path, dst: Path): Path {
    if Within(p, src) && |src| <= |p| then MovePath(p, src, dst) else p
  }

  // ---------- What a table stands for ----------

  ghost predicate HasRow(table: Files, p: Path) {
    exists id :: id in table && table[id].path == p
  }

  /** The paths of the tree are those of the table, folders where the table has directories. */
  ghost predicate Shows(table: Files, nodes: Nodes) {
    && (forall id :: id in table ==> table[id].path in nodes && (nodes[table[id].path] == Folder <==> table[id].isDir))
    && forall p :: p in nodes ==> HasRow(table, p)
  }

  lemma RowOfNode(table: Files, nodes: Nodes, p: Path) returns (id: int)
    requires UniquePaths(table) && Shows(table, nodes) && p in nodes
    ensures id in table && table[id].path == p && Find(table, p) == Some(id)
  {
    id :| id in table && table[id].path == p;
    FindsUnique(table, id);
  }

  /** A lookup finds a row if and only if the path is in the tree. */
  lemma FindShows(table: Files, nodes: Nodes, p: Path)
    requires UniquePaths(table) && Shows(table, nodes)
    ensures Find(table, p).Some? <==> p in nodes
    ensures p in nodes ==> (nodes[p] == Folder <==> table[Find(table, p).value].isDir)
  {
    if p in nodes {
      var id := RowOfNode(table, nodes, p);
    }
  }

  lemma CreateShows(table: Files, nodes: Nodes, p: Path, isDir: bool, id: int)
    requires TreeOk(table) && Shows(table, nodes) && id !in table
    ensures var (code, table') := Create(table, p, isDir, id);
            && code == CreateCode(nodes, p)
            && (code == OK ==>
                 && table'.Keys == table.Keys + {id} && table'[id].path == p && table'[id].isDir == isDir
                 && forall k :: k in table ==> table'[k] == table[k])
            && (code != OK ==> table' == table)
  {
    hide Parent, Shows, TreeOk;
    TreeIsUnique(table);
    FindShows(table, nodes, p);
    FindShows(table, nodes, Parent(p));
  }

  /** One more row is one more path. */
  lemma AddedShows(table: Files, table': Files, nodes: Nodes, id: int, node: Node)
    requires Shows(table, nodes) && id !in table && table'.Keys == table.Keys + {id}
    requires forall k :: k in table ==> table'[k] == table[k]
    requires table'[id].path !in nodes && (table'[id].isDir <==> node == Folder)
    ensures Shows(table', nodes[table'[id].path := node])
  {
    var nodes' := nodes[table'[id].path := node];
    forall p | p in nodes'
      ensures HasRow(table', p)
    {
      if p != table'[id].path {
        var k :| k in table && table[k].path == p;
        assert table'[k].path == p;
      }
    }
  }

  /** One row less is one path less. */
  lemma RemovedShows(table: Files, nodes: Nodes, id: int)
    requires UniquePaths(table) && Shows(table, nodes) && id in table
    ensures Without(table, table[id].path) == table - {id}
    ensures Shows(table - {id}, nodes - {table[id].path})
  {
    var p := table[id].path;
    forall k | k in table
      ensures table[k].path == p <==> k == id
    {
    }
    hide UniquePaths;
    assert Without(table, p) == table - {id};
    forall q | q in nodes - {p}
      ensures HasRow(table - {id}, q)
    {
      var k :| k in table && table[k].path == q;
      assert k in table - {id};
    }
  }

  /** The same bytes in a file that is there already. */
  lemma WrittenShows(table: Files, nodes: Nodes, id: int, bytes: seq<Byte>)
    requires UniquePaths(table) && Shows(table, nodes) && id in table && !table[id].isDir
    ensures Shows(table, nodes[table[id].path := Regular(bytes)])
  {
  }

  lemma EmptyShows(table: Files, nodes: Nodes, p: Path)
    requires Shows(table, nodes)
    ensures Empty(nodes, p) <==> forall id :: id in table ==> !Inside(table[id].path, p)
  {
    hide Inside;
    if q :| q in nodes && Inside(q, p) {
      var id :| id in table && table[id].path == q;
    }
  }

  lemma RmdirShows(table: Files, nodes: Nodes, p: Path, unset: bool)
    requires TreeOk(table) && Shows(table, nodes) && p in nodes
    ensures var code := RemoveFolderCode(nodes, p);
            Rmdir(table, p, unset) == (code, if code == OK then Without(table, p) else table)
  {
    hide Shows, TreeOk, Inside, DirEmpty, Empty;
    TreeIsUnique(table);
    FindShows(table, nodes, p);
    EmptyMeansNothingBelow(table, Find(table, p).value);
    EmptyShows(table, nodes, p);
  }

  lemma RenameCodeShows(table: Files, nodes: Nodes, src: Path, dst: Path)
    requires TreeOk(table) && Shows(table, nodes)
    ensures Rename(table, src, dst).0 == RenameCode(nodes, src, dst)
    ensures RenameCode(nodes, src, dst) != OK ==> Rename(table, src, dst).1 == table
  {
    hide Shows, TreeOk, Inside, DirEmpty, Empty, Parent, MoveTree;
    TreeIsUnique(table);
    FindShows(table, nodes, src);
    FindShows(table, nodes, dst);
    FindShows(table, nodes, Parent(dst));
    if dst in nodes {
      EmptyMeansNothingBelow(table, Find(table, dst).value);
      EmptyShows(table, nodes, dst);
    }
  }

  /** A rigid move of rows is the rename of the tree, row by row with the same node. */
  lemma RigidShows(table: Files, table': Files, nodes: Nodes, src: Path, dst: Path)
    requires TreeOk(table) && TreeOk(table') && Shows(table, nodes) && WellFormed(src) && WellFormed(dst)
    requires src != "/" && dst != "/" && Elsewhere(src, dst)
    requires MovedRigidly(table, table', src, dst) && Vacant(Without(table, dst), dst)
    ensures Shows(table', Renamed(nodes, src, dst))
    ensures forall id :: id in table' ==> Renamed(nodes, src, dst)[table'[id].path] == nodes[table[id].path]
  {
    hide TreeOk, WellFormed, Inside, Within, MovePath, Vacant, Without, MovedRigidly, Shows, Appears, Origin;
    var nodes' := Renamed(nodes, src, dst);
    forall id | id in table'
      ensures table'[id].path in nodes' && id in table && table[id].path in nodes
      ensures nodes'[table'[id].path] == nodes[table[id].path] && table'[id].isDir == table[id].isDir
    {
      MovedRowAppears(table, table', nodes, src, dst, id);
    }
    forall p | p in nodes'
      ensures HasRow(table', p)
    {
      OriginHasRow(table, table', nodes, src, dst, p);
    }
    ShownRows(table, table', nodes, nodes');
  }

  lemma ShownRows(table: Files, table': Files, nodes: Nodes, nodes': Nodes)
    requires Shows(table, nodes) && forall p :: p in nodes' ==> HasRow(table', p)
    requires forall id :: id in table' ==>
               && id in table && table'[id].path in nodes' && table[id].path in nodes
               && nodes'[table'[id].path] == nodes[table[id].path] && table'[id].isDir == table[id].isDir
    ensures Shows(table', nodes')
  {
  }

  lemma MovedRowAppears(table: Files, table': Files, nodes: Nodes, src: Path, dst: Path, id: int)
    requires TreeOk(table) && Shows(table, nodes) && WellFormed(src) && WellFormed(dst)
    requires src != "/" && dst != "/" && Elsewhere(src, dst)
    requires MovedRigidly(table, table', src, dst) && Vacant(Without(table, dst), dst) && id in table'
    ensures id in table && table[id].path in nodes && table'[id].isDir == table[id].isDir
    ensures Appears(nodes, table'[id].path, src, dst) && Origin(table'[id].path, src, dst) == table[id].path
  {
    hide WellFormed, Inside, Depth, Parent, IsDirectory;
    if Within(table[id].path, src) {
      Moved(table[id].path, src, dst);
    } else {
      assert id in Without(table, dst);
    }
  }

  lemma OriginHasRow(
      table: Files, table': Files, nodes: Nodes, src: Path, dst: Path, p: Path)
    requires TreeOk(table) && Shows(table, nodes) && WellFormed(src) && WellFormed(dst)
    requires src != "/" && dst != "/" && Elsewhere(src, dst)
    requires MovedRigidly(table, table', src, dst) && Vacant(Without(table, dst), dst)
    requires Appears(nodes, p, src, dst)
    ensures HasRow(table', p)
  {
    hide WellFormed, Inside, Depth, Parent, IsDirectory;
    var q := Origin(p, src, dst);
    var id :| id in table && table[id].path == q;
    if Within(p, dst) {
      Suffix(p, dst);
      WithinBySuffix(src, p[|dst|..]);
      assert MovePath(q, src, dst) == p;
      assert table'[id].path == p;
    } else {
      assert table'[id].path == p;
    }
  }
}
