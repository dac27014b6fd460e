/**
 The path-chain importer: one folder for every ancestor directory of a file, found
 through a cache that one batch shares, and the tile that a file gives to the folders
 above it.
 */
module Importer {
  import opened Wrappers
  import opened GalleryTables
  import opened FolderTiles

  // ----- An import without a cache ----------------------------------------------------

  datatype Found = Found(db: Tables, id: int, created: nat)

  /** The folder of a path, created below `parent` when there is none. */
  function EnsureFolder(db: Tables, parent: int, path: string, name: string): Found {
    if FolderAt(db, path).Some? then Found(db, FolderAt(db, path).value, 0)
    else
      var (db1, pathID) := UpsertFolderPath(db, path);
      var (db2, id) := UpsertFolder(db1, Some(parent), pathID, name);
      Found(db2, id, 1)
  }

  /** The root folder; creating it is not reported. */
  function EnsureRoot(db: Tables): Found {
    if FolderAt(db, "").Some? then Found(db, FolderAt(db, "").value, 0)
    else
      var (db1, pathID) := UpsertFolderPath(db, "");
      var (db2, id) := UpsertFolder(db1, None, pathID, "Gallery");
      Found(db2, id, 0)
  }

  /** One folder for every segment, each below the one before. */
  function EnsureChain(db: Tables, parent: int, path: string, parts: seq<string>): Found
    decreases |parts|
  {
    if parts == [] then Found(db, parent, 0)
    else if parts[0] == "" then EnsureChain(db, parent, path, parts[1..])
    else
      var f := EnsureFolder(db, parent, Join(path, parts[0]), parts[0]);
      var g := EnsureChain(f.db, f.id, Join(path, parts[0]), parts[1..]);
      Found(g.db, g.id, f.created + g.created)
  }

  /** The segments of a path, empty ones included. */
  function Split(s: string): (parts: seq<string>)
    ensures forall p <- parts :: '/' !in p
    decreases |s|
  {
    if LastSlash(s) < 0 then [s] else Split(s[..LastSlash(s)]) + [s[LastSlash(s) + 1..]]
  }

  /** The directory of a cleaned path. */
  function DirOf(path: string): string {
    if LastSlash(path) < 0 then "." else if LastSlash(path) == 0 then "/" else path[..LastSlash(path)]
  }

  function FileName(path: string): string {
    if path == "/" then "/" else BaseName(path)
  }

  /** The segments below the root on the way to a file. */
  function Segments(path: string): seq<string> {
    if DirOf(path) == "." || DirOf(path) == "/" then [] else Split(DirOf(path))
  }

  function Top(path: string): string {
    if "/" <= path then "/" else ""
  }

  /** What an import of a cleaned path does when it asks the tables for every folder. */
  function ImportPath(db: Tables, path: string, details: int): Found {
    var (db1, pathID) := UpsertFilePath(db, path);
    var root := EnsureRoot(db1);
    var chain := EnsureChain(root.db, root.id, Top(path), Segments(path));
    Found(UpsertFile(chain.db, chain.id, pathID, FileName(path), details), chain.id, chain.created)
  }

  /** Imports one after the other; the count is of folders reported as created. */
  function ImportAll(db: Tables, work: seq<(string, int)>): (Tables, nat) {
    if work == [] then (db, 0)
    else
      var (db1, created) := ImportAll(db, work[..|work| - 1]);
      var f := ImportPath(db1, work[|work| - 1].0, work[|work| - 1].1);
      (f.db, created + f.created)
  }

  // ----- What an import keeps ---------------------------------------------------------

  /** Nothing of the folders and paths in `a` has changed in `b`. */
  ghost predicate Extends(a: Tables, b: Tables) {
    && (forall i <- a.paths :: i in b.paths && b.paths[i] == a.paths[i])
    && (forall p <- a.pathIndex :: p in b.pathIndex && b.pathIndex[p] == a.pathIndex[p])
    && (forall id <- a.folders :: id in b.folders && b.folders[id] == a.folders[id])
    && (forall k <- a.folderIndex :: k in b.folderIndex && b.folderIndex[k] == a.folderIndex[k])
  }

  lemma ExtendsTrans(a: Tables, b: Tables, c: Tables)
    requires Extends(a, b) && Extends(b, c)
    ensures Extends(a, c)
  {
  }

  lemma StillFound(a: Tables, b: Tables, path: string)
    requires Extends(a, b) && FolderAt(a, path).Some?
    ensures FolderAt(b, path) == FolderAt(a, path)
  {
  }

  lemma PathKept(db: Tables, path: string)
    requires WellFormed(db)
    ensures var (db1, pathID) := UpsertFolderPath(db, path);
            && WellFormed(db1) && Extends(db, db1)
            && path in db1.pathIndex && db1.pathIndex[path] == pathID
            && db1.folders == db.folders && db1.folderIndex == db.folderIndex
            && db1.fileIDs == db.fileIDs && db1.files == db.files
  {
    hide FoldersIndexed, Placed, PathsIndexed, Extends;
    PathIndexKept(db, path);
    SameFolders(db, UpsertFolderPath(db, path).0);
  }

  lemma PathIndexKept(db: Tables, path: string)
    requires PathsIndexed(db)
    ensures PathsIndexed(UpsertFolderPath(db, path).0) && Extends(db, UpsertFolderPath(db, path).0)
  {
    hide FreshID;
    if path !in db.pathIndex {
      var id := FreshID(db.paths.Keys);
      assert id !in db.paths;
    }
  }

  /** More paths leave the folders as they are. */
  lemma SameFolders(a: Tables, b: Tables)
    requires FoldersIndexed(a) && Extends(a, b) && b.folders == a.folders && b.folderIndex == a.folderIndex
    ensures FoldersIndexed(b)
    ensures forall id <- a.folders :: PathOf(b, id) == PathOf(a, id) && (Placed(a, id) <==> Placed(b, id))
  {
  }

  /** A folder that the tables do not have yet is inserted, never overwritten. */
  lemma FolderInserted(db: Tables, parent: Option<int>, pathID: int, name: string)
    requires WellFormed(db) && pathID in db.paths && FolderAt(db, db.paths[pathID]) == None
    requires if db.paths[pathID] == "" then parent == None
             else parent.Some? && parent.value in db.folders && PathOf(db, parent.value) == ParentPath(db.paths[pathID])
    ensures var (db1, id) := UpsertFolder(db, parent, pathID, name);
            && WellFormed(db1) && Extends(db, db1) && id !in db.folders
            && db1.folders == db.folders[id := Folder(parent, pathID, name, None)]
            && FolderAt(db1, db.paths[pathID]) == Some(id) && PathOf(db1, id) == db.paths[pathID]
            && db1.fileIDs == db.fileIDs && db1.files == db.files
  {
    hide FreshID, Placed;
    var (db1, id) := UpsertFolder(db, parent, pathID, name);
    assert db.pathIndex[db.paths[pathID]] == pathID;
    assert pathID !in db.folderIndex;
    assert FoldersIndexed(db1) by {
      hide PathsIndexed, FilesIndexed;
      FolderIndexed(db, parent, pathID, name);
    }
    forall other <- db1.folders ensures Placed(db1, other) {
      FolderPlaced(db, parent, pathID, name, other);
    }
  }

  lemma FolderIndexed(db: Tables, parent: Option<int>, pathID: int, name: string)
    requires FoldersIndexed(db) && pathID in db.paths && pathID !in db.folderIndex
    ensures FoldersIndexed(UpsertFolder(db, parent, pathID, name).0)
  {
    hide FreshID;
  }

  lemma FolderPlaced(db: Tables, parent: Option<int>, pathID: int, name: string, other: int)
    requires WellFormed(db) && pathID in db.paths && pathID !in db.folderIndex
    requires if db.paths[pathID] == "" then parent == None
             else parent.Some? && parent.value in db.folders && PathOf(db, parent.value) == ParentPath(db.paths[pathID])
    requires other in UpsertFolder(db, parent, pathID, name).0.folders
    ensures FoldersIndexed(UpsertFolder(db, parent, pathID, name).0)
    ensures Placed(UpsertFolder(db, parent, pathID, name).0, other)
  {
    hide FreshID, PathsIndexed, FilesIndexed, ParentPath;
    FolderIndexed(db, parent, pathID, name);
    if other in db.folders {
      assert Placed(db, other);
    }
  }

  /** What holds after the folder of `path` has been looked up or created. */
  ghost predicate Ensured(db: Tables, f: Found, path: string) {
    && WellFormed(f.db) && Extends(db, f.db)
    && FolderAt(f.db, path) == Some(f.id) && f.id in f.db.folders && PathOf(f.db, f.id) == path
    && f.db.fileIDs == db.fileIDs && f.db.files == db.files
  }

  /** The name that a folder of this path gets. */
  function FolderName(path: string): string {
    if path == "" then "Gallery" else BaseName(path)
  }

  predicate NamedFolder(db: Tables, id: int)
    requires id in db.folders
  {
    var k := db.folders[id].pathID;
    k in db.paths && db.folders[id].name == FolderName(db.paths[k])
  }

  /** The rows that are new have no tile, and their name is the last segment of their path. */
  ghost predicate NewRows(a: Tables, b: Tables) {
    forall id <- b.folders :: id in a.folders || (b.folders[id].tile == None && NamedFolder(b, id))
  }

  lemma NewRowsTrans(a: Tables, b: Tables, c: Tables)
    requires NewRows(a, b) && NewRows(b, c) && Extends(b, c)
    ensures NewRows(a, c)
  {
    hide FolderName;
    forall id <- c.folders | id !in a.folders ensures c.folders[id].tile == None && NamedFolder(c, id) {
      if id in b.folders {
        assert NamedFolder(b, id);
      }
    }
  }

  lemma FolderEnsured(db: Tables, parent: int, path: string, name: string)
    requires WellFormed(db) && path != "" && parent in db.folders && PathOf(db, parent) == ParentPath(path)
    ensures var f := EnsureFolder(db, parent, path, name);
            && Ensured(db, f, path) && (name == BaseName(path) ==> NewRows(db, f.db))
            && |f.db.folders| == |db.folders| + f.created
            && f.created <= 1
            && (f.created == 0 ==> f.db == db)
            && (f.created == 0 <==> FolderAt(db, path).Some?)
            && (forall id <- f.db.folders :: id in db.folders || id == f.id)
  {
    if FolderAt(db, path).Some? {
      FolderFound(db, path);
    } else {
      PathKept(db, path);
      var (db1, pathID) := UpsertFolderPath(db, path);
      FolderInserted(db1, Some(parent), pathID, name);
      ExtendsTrans(db, db1, EnsureFolder(db, parent, path, name).db);
    }
  }

  lemma RootEnsured(db: Tables)
    requires WellFormed(db)
    ensures var f := EnsureRoot(db);
            && Ensured(db, f, "") && NewRows(db, f.db)
            && |f.db.folders| == |db.folders| + (if FolderAt(db, "").Some? then 0 else 1)
            && (FolderAt(db, "").Some? ==> f.db == db)
            && (forall id <- f.db.folders :: id in db.folders || id == f.id)
  {
    if FolderAt(db, "").Some? {
      FolderFound(db, "");
    } else {
      PathKept(db, "");
      var (db1, pathID) := UpsertFolderPath(db, "");
      FolderInserted(db1, None, pathID, "Gallery");
      ExtendsTrans(db, db1, EnsureRoot(db).db);
    }
  }

  // ----- The chain of ancestors -------------------------------------------------------

  /** The paths of the folders that the segments name below `path`. */
  function Ancestors(path: string, parts: seq<string>): seq<string>
    decreases |parts|
  {
    if parts == [] then []
    else if parts[0] == "" then Ancestors(path, parts[1..])
    else [Join(path, parts[0])] + Ancestors(Join(path, parts[0]), parts[1..])
  }

  /** The path that the chain ends with; the root for none. */
  function Last(path: string, parts: seq<string>): string
    decreases |parts|
  {
    if parts == [] then (if path == "/" then "" else path)
    else if parts[0] == "" then Last(path, parts[1..])
    else Last(Join(path, parts[0]), parts[1..])
  }

  predicate Open(path: string) {
    path == "" || path == "/" || path[|path| - 1] != '/'
  }

  predicate Pieces(parts: seq<string>) {
    forall p <- parts :: '/' !in p
  }

  /** The folder from which a chain below `path` starts. */
  ghost predicate Anchored(db: Tables, parent: int, path: string) {
    && WellFormed(db) && Open(path)
    && parent in db.folders && PathOf(db, parent) == if path == "/" then "" else path
  }

  /** Every ancestor has its folder, and only ancestors got a new one. */
  ghost predicate Chained(db: Tables, g: Found, path: string, parts: seq<string>) {
    && WellFormed(g.db) && Extends(db, g.db) && NewRows(db, g.db)
    && g.db.fileIDs == db.fileIDs && g.db.files == db.files
    && |g.db.folders| == |db.folders| + g.created
    && g.id in g.db.folders && PathOf(g.db, g.id) == Last(path, parts)
    && (forall a <- Ancestors(path, parts) :: FolderAt(g.db, a).Some?)
    && (forall id <- g.db.folders :: id in db.folders || PathOf(g.db, id) in Ancestors(path, parts))
  }

  lemma {:induction false} ChainEnsured(db: Tables, parent: int, path: string, parts: seq<string>)
    requires Anchored(db, parent, path) && Pieces(parts)
    ensures Chained(db, EnsureChain(db, parent, path, parts), path, parts)
    decreases |parts|
  {
    hide Anchored, Chained, Ensured, NewRows, Join, EnsureFolder;
    if parts == [] {
      ChainNone(db, parent, path);
    } else if parts[0] == "" {
      ChainEnsured(db, parent, path, parts[1..]);
      ChainSkip(db, EnsureChain(db, parent, path, parts[1..]), path, parts);
    } else {
      var f := ChainFirst(db, parent, path, parts[0]);
      ChainEnsured(f.db, f.id, Join(path, parts[0]), parts[1..]);
      ChainStep(db, f, EnsureChain(f.db, f.id, Join(path, parts[0]), parts[1..]), path, parts);
    }
  }

  lemma ChainNone(db: Tables, parent: int, path: string)
    requires Anchored(db, parent, path)
    ensures Chained(db, Found(db, parent, 0), path, [])
  {
    SelfExtends(db);
  }

  lemma ChainSkip(db: Tables, g: Found, path: string, parts: seq<string>)
    requires parts != [] && parts[0] == "" && Chained(db, g, path, parts[1..])
    ensures Chained(db, g, path, parts)
  {
    hide PathsIndexed, FoldersIndexed, FilesIndexed, Placed, PathOf, FolderAt, Join;
    assert Ancestors(path, parts) == Ancestors(path, parts[1..]);
  }

  lemma ChainFirst(db: Tables, parent: int, path: string, segment: string) returns (f: Found)
    requires Anchored(db, parent, path) && Segment(segment)
    ensures f == EnsureFolder(db, parent, Join(path, segment), segment)
    ensures Ensured(db, f, Join(path, segment)) && NewRows(db, f.db) && Anchored(f.db, f.id, Join(path, segment))
    ensures |f.db.folders| == |db.folders| + f.created && f.created <= 1 && WellFormed(db)
    ensures f.created == 0 ==> f.db == db
    ensures forall id <- f.db.folders :: id in db.folders || id == f.id
  {
    hide Placed, Join, EnsureFolder;
    f := EnsureFolder(db, parent, Join(path, segment), segment);
    JoinParent(path, segment);
    FolderEnsured(db, parent, Join(path, segment), segment);
    assert Join(path, segment) != "/" by {
      assert Join(path, segment)[|Join(path, segment)| - 1] != '/';
    }
  }

  lemma SelfExtends(db: Tables)
    ensures Extends(db, db)
  {
  }

  lemma ChainStep(db: Tables, f: Found, g: Found, path: string, parts: seq<string>)
    requires parts != [] && parts[0] != ""
    requires Ensured(db, f, Join(path, parts[0])) && NewRows(db, f.db) && |f.db.folders| == |db.folders| + f.created
    requires (f.created == 0 ==> f.db == db) && f.created <= 1 && WellFormed(db)
    requires Chained(f.db, g, Join(path, parts[0]), parts[1..])
    requires forall id <- f.db.folders :: id in db.folders || id == f.id
    ensures Chained(db, Found(g.db, g.id, f.created + g.created), path, parts)
  {
    hide PathsIndexed, FoldersIndexed, FilesIndexed, Placed, PathOf, FolderAt, Join, NewRows;
    NewRowsTrans(db, f.db, g.db);
    var p := Join(path, parts[0]);
    ExtendsTrans(db, f.db, g.db);
    StillFound(f.db, g.db, p);
    forall a <- Ancestors(path, parts) ensures FolderAt(g.db, a).Some? {
    }
    forall id <- g.db.folders ensures id in db.folders || PathOf(g.db, id) in Ancestors(path, parts) {
      if id !in db.folders && id in f.db.folders {
        assert id == f.id;
        PathStays(f.db, g.db, f.id);
      }
    }
  }

  lemma PathStays(a: Tables, b: Tables, id: int)
    requires WellFormed(a) && WellFormed(b) && Extends(a, b) && id in a.folders
    ensures id in b.folders && PathOf(b, id) == PathOf(a, id)
  {
    hide Placed;
    assert a.folders[id].pathID in a.paths;
  }

  // ----- One import -------------------------------------------------------------------

  /** The path of the folder that a file belongs to. */
  function FolderPath(path: string): string {
    Last(Top(path), Segments(path))
  }

  predicate CleanPath(path: string) {
    && path != ""
    && (path == "/" || path[|path| - 1] != '/')
    && !("./" <= path)
    && forall i :: 0 <= i < |path| - 1 ==> !(path[i] == '/' && path[i + 1] == '/')
  }

  /** What every file row says: its folder is the folder of its directory. */
  ghost predicate FilesPlaced(db: Tables) {
    && (forall p <- db.fileIDs | db.fileIDs[p] in db.files :: FilePlaced(db, p))
    && db.files.Keys <= db.fileIDs.Values
  }

  ghost predicate FilePlaced(db: Tables, path: string)
    requires path in db.fileIDs && db.fileIDs[path] in db.files
  {
    FolderAt(db, FolderPath(path)) == Some(db.files[db.fileIDs[path]].folder)
  }

  ghost predicate Gallery(db: Tables) {
    WellFormed(db) && FilesPlaced(db)
  }

  lemma FilePathKept(db: Tables, path: string)
    requires Gallery(db)
    ensures var (db1, pathID) := UpsertFilePath(db, path);
            && WellFormed(db1) && Extends(db, db1)
            && db1.folders == db.folders && db1.folderIndex == db.folderIndex && db1.pathIndex == db.pathIndex
            && db1.files == db.files
            && path in db1.fileIDs && db1.fileIDs[path] == pathID && db1.fileIDs == db.fileIDs[path := pathID]
            && (forall p <- db1.fileIDs :: p == path || (p in db.fileIDs && db1.fileIDs[p] == db.fileIDs[p]))
            && (path in db.fileIDs ==> pathID == db.fileIDs[path])
            && (path !in db.fileIDs ==> pathID !in db.files)
            && db1.files.Keys <= db1.fileIDs.Values
  {
    hide FreshID, FoldersIndexed, PathsIndexed;
    var db1 := UpsertFilePath(db, path).0;
    SelfExtends(db);
    SameTree(db, db1);
    if path !in db.fileIDs {
      forall p | p in db.fileIDs ensures db.fileIDs[p] != FreshID(db.fileIDs.Values) {
        assert db.fileIDs[p] in db.fileIDs.Values;
      }
      forall k | k in db.fileIDs.Values ensures k in db1.fileIDs.Values {
        var p :| p in db.fileIDs && db.fileIDs[p] == k;
        assert db1.fileIDs[p] == k;
      }
    }
  }

  lemma SameTree(a: Tables, b: Tables)
    requires a.paths == b.paths && a.pathIndex == b.pathIndex && a.folders == b.folders
             && a.folderIndex == b.folderIndex
    requires PathsIndexed(a) && FoldersIndexed(a) && forall id <- a.folders :: Placed(a, id)
    ensures PathsIndexed(b) && FoldersIndexed(b) && (forall id <- b.folders :: Placed(b, id)) && Extends(a, b)
    ensures forall id <- a.folders :: PathOf(b, id) == PathOf(a, id)
  {
    forall id <- b.folders ensures Placed(b, id) {
      assert Placed(a, id);
    }
  }

  lemma RootFirst(path: string)
    ensures Open(Top(path)) && Pieces(Segments(path))
  {
  }

  /** The root and every ancestor of the file have a folder; the new folders are only these, and untiled. */
  ghost predicate Built(db: Tables, t: Tables, created: nat, path: string) {
    && FoldersIndexed(t)
    && FolderAt(t, "").Some?
    && (forall a <- Ancestors(Top(path), Segments(path)) :: FolderAt(t, a).Some?)
    && (forall id <- t.folders :: id in db.folders || PathOf(t, id) == ""
                                  || PathOf(t, id) in Ancestors(Top(path), Segments(path)))
    && |t.folders| == |db.folders| + created + (if FolderAt(db, "").Some? then 0 else 1)
    && NewRows(db, t)
  }

  /** What an import of `path` leaves. */
  ghost predicate Imported(db: Tables, f: Found, path: string) {
    && Gallery(f.db) && Extends(db, f.db)
    && path in f.db.fileIDs && f.db.fileIDs[path] in f.db.files
    && Built(db, f.db, f.created, path)
  }

  /** The folders after an import of `path`, before the file row is written. */
  ghost predicate Prepared(db: Tables, g: Found, path: string) {
    && WellFormed(g.db) && Extends(db, g.db)
    && g.db.files == db.files
    && FolderAt(g.db, FolderPath(path)) == Some(g.id)
    && path in g.db.fileIDs && g.db.fileIDs == db.fileIDs[path := g.db.fileIDs[path]]
    && (forall p <- g.db.fileIDs :: p == path || (p in db.fileIDs && g.db.fileIDs[p] == db.fileIDs[p]))
    && (path in db.fileIDs ==> g.db.fileIDs[path] == db.fileIDs[path])
    && g.db.fileIDs[path] == UpsertFilePath(db, path).1
    && (path !in db.fileIDs ==> g.db.fileIDs[path] !in db.files)
    && g.db.files.Keys <= g.db.fileIDs.Values
    && Built(db, g.db, g.created, path)
  }

  function Prepare(db: Tables, path: string): Found {
    var root := EnsureRoot(UpsertFilePath(db, path).0);
    EnsureChain(root.db, root.id, Top(path), Segments(path))
  }

  lemma PrepareKeeps(db: Tables, path: string)
    requires Gallery(db)
    ensures Prepared(db, Prepare(db, path), path)
  {
    hide FoldersIndexed, PathsIndexed, FilesIndexed, Placed, EnsureChain, EnsureRoot, PathOf, Extends, NewRows, Built;
    var db1 := UpsertFilePath(db, path).0;
    FilePathKept(db, path);
    hide UpsertFilePath;
    var root := EnsureRoot(db1);
    RootEnsured(db1);
    RootFirst(path);
    ChainEnsured(root.db, root.id, Top(path), Segments(path));
    var g := Prepare(db, path);
    ExtendsTrans(db, db1, root.db);
    ExtendsTrans(db, root.db, g.db);
    OneFolder(g.db, g.id);
    PrepareBuilds(db1, root, g, path);
    BuiltFrom(db, db1, g.db, g.created, path);
  }

  lemma BuiltFrom(db: Tables, db1: Tables, t: Tables, created: nat, path: string)
    requires Built(db1, t, created, path) && db1.folders == db.folders
    requires db1.folderIndex == db.folderIndex && db1.pathIndex == db.pathIndex
    ensures Built(db, t, created, path)
  {
    hide FoldersIndexed, Ancestors;
  }

  lemma PrepareBuilds(db: Tables, root: Found, g: Found, path: string)
    requires WellFormed(db) && WellFormed(root.db) && Extends(db, root.db) && NewRows(db, root.db)
    requires FolderAt(root.db, "") == Some(root.id) && root.id in root.db.folders && PathOf(root.db, root.id) == ""
    requires |root.db.folders| == |db.folders| + (if FolderAt(db, "").Some? then 0 else 1)
    requires forall id <- root.db.folders :: id in db.folders || id == root.id
    requires Chained(root.db, g, Top(path), Segments(path))
    ensures Built(db, g.db, g.created, path)
  {
    hide FoldersIndexed, PathsIndexed, FilesIndexed, Placed, PathOf, Ancestors, FolderAt, NewRows;
    NewRowsTrans(db, root.db, g.db);
    StillFound(root.db, g.db, "");
    PathStays(root.db, g.db, root.id);
  }

  /** The tables once the file row is written. */
  function Linked(g: Found, path: string, details: int): Tables
    requires path in g.db.fileIDs
  {
    UpsertFile(g.db, g.id, g.db.fileIDs[path], FileName(path), details)
  }

  lemma ImportIsPrepare(db: Tables, path: string, details: int)
    requires Gallery(db)
    ensures var g := Prepare(db, path);
            path in g.db.fileIDs && ImportPath(db, path, details) == Found(Linked(g, path, details), g.id, g.created)
  {
    hide FoldersIndexed, PathsIndexed, FilesIndexed, Placed, EnsureChain, EnsureRoot, PathOf;
    FilePathKept(db, path);
    var db1 := UpsertFilePath(db, path).0;
    hide UpsertFilePath;
    RootEnsured(db1);
    RootFirst(path);
    ChainEnsured(EnsureRoot(db1).db, EnsureRoot(db1).id, Top(path), Segments(path));
  }

  lemma FileLinked(db: Tables, g: Found, path: string, details: int, p: string)
    requires Gallery(db) && Prepared(db, g, path) && p in g.db.fileIDs
    requires g.db.fileIDs[p] in Linked(g, path, details).files
    ensures FilePlaced(Linked(g, path, details), p)
  {
    hide FoldersIndexed, PathsIndexed, Placed, PathOf, Ancestors, FolderPath;
    var t := Linked(g, path, details);
    assert FolderAt(t, FolderPath(p)) == FolderAt(g.db, FolderPath(p));
    if p in db.fileIDs && db.fileIDs[p] in db.files {
      assert FilePlaced(db, p);
      StillFound(db, g.db, FolderPath(p));
    } else {
      assert p == path;
    }
  }

  lemma LinkedKeeps(db: Tables, g: Found, path: string, details: int)
    requires Gallery(db) && Prepared(db, g, path)
    ensures Gallery(Linked(g, path, details)) && Extends(db, Linked(g, path, details))
  {
    hide FoldersIndexed, PathsIndexed, FilesIndexed, Placed, PathOf, FolderPath, FolderAt, FilePlaced, Extends,
         Built, Top, FileName;
    var t := Linked(g, path, details);
    SameTree(g.db, t);
    ExtendsTrans(db, g.db, t);
    forall p <- t.fileIDs | t.fileIDs[p] in t.files ensures FilePlaced(t, p) {
      FileLinked(db, g, path, details, p);
    }
    assert t.files.Keys <= g.db.files.Keys + {g.db.fileIDs[path]};
    assert FilesIndexed(t) by {
      FilesIndexedSame(g.db, t);
    }
  }

  lemma FilesIndexedSame(a: Tables, b: Tables)
    requires FilesIndexed(a) && a.fileIDs == b.fileIDs
    ensures FilesIndexed(b)
  {
  }

  /**
   After an import every ancestor directory has exactly one folder, below the folder of
   its parent path and the root last; only missing ancestors were created, once each and
   without a tile; nothing that existed has changed; and every file row says the folder
   of its directory.
   */
  lemma ImportKeeps(db: Tables, path: string, details: int)
    requires Gallery(db)
    ensures Imported(db, ImportPath(db, path, details), path)
  {
    hide *;
    var g := Prepare(db, path);
    PrepareKeeps(db, path);
    ImportIsPrepare(db, path, details);
    LinkedKeeps(db, g, path, details);
    LinkedImported(db, g, path, details);
  }

  lemma LinkedImported(db: Tables, g: Found, path: string, details: int)
    requires Prepared(db, g, path) && Gallery(Linked(g, path, details)) && Extends(db, Linked(g, path, details))
    ensures Imported(db, Found(Linked(g, path, details), g.id, g.created), path)
  {
    hide FoldersIndexed, PathsIndexed, FilesIndexed, Placed, Ancestors, FilesPlaced, Extends, Built;
    BuiltSame(db, g.db, Linked(g, path, details), g.created, path);
  }

  lemma BuiltSame(db: Tables, a: Tables, b: Tables, created: nat, path: string)
    requires Built(db, a, created, path) && FoldersIndexed(b)
    requires a.paths == b.paths && a.pathIndex == b.pathIndex && a.folders == b.folders
             && a.folderIndex == b.folderIndex
    ensures Built(db, b, created, path)
  {
    hide FoldersIndexed, Ancestors;
  }

  // ----- Importing again, and importing many --------------------------------------------

  lemma {:induction false} ChainPresent(db: Tables, parent: int, path: string, parts: seq<string>)
    requires forall a <- Ancestors(path, parts) :: FolderAt(db, a).Some?
    ensures EnsureChain(db, parent, path, parts).db == db && EnsureChain(db, parent, path, parts).created == 0
    decreases |parts|
  {
    if parts == [] {
    } else {
      if parts[0] == "" {
        assert Ancestors(path, parts) == Ancestors(path, parts[1..]);
        ChainPresent(db, parent, path, parts[1..]);
      } else {
        var p := Join(path, parts[0]);
        assert Ancestors(path, parts) == [p] + Ancestors(p, parts[1..]);
        assert p in Ancestors(path, parts);
        forall a <- Ancestors(p, parts[1..]) ensures FolderAt(db, a).Some? {
          assert a in Ancestors(path, parts);
        }
        ChainPresent(db, FolderAt(db, p).value, p, parts[1..]);
      }
    }
  }

  /** Importing a path again creates nothing and changes no more than the details of its file. */
  lemma ImportAgain(db: Tables, path: string, details: int)
    requires Gallery(db) && path in db.fileIDs && db.fileIDs[path] in db.files && Built(db, db, 0, path)
    ensures var f := ImportPath(db, path, details);
            var k := db.fileIDs[path];
            && f.created == 0
            && f.db == db.(files := db.files[k := File(db.files[k].folder, FileName(path), details)])
  {
    hide FoldersIndexed, PathsIndexed, FilesIndexed, Placed, FilesPlaced;
    ChainPresent(db, FolderAt(db, "").value, Top(path), Segments(path));
  }

  /** An import writes one file row, of the folder of its directory, and leaves every other as it was. */
  lemma FileWritten(db: Tables, path: string, details: int)
    requires Gallery(db)
    ensures var f := ImportPath(db, path, details);
            && path in f.db.fileIDs && f.db.fileIDs == db.fileIDs[path := f.db.fileIDs[path]]
            && (path in db.fileIDs ==> f.db.fileIDs == db.fileIDs)
            && (path !in db.fileIDs ==> f.db.fileIDs[path] !in db.files)
            && f.db.files == db.files[f.db.fileIDs[path] := File(f.id, FileName(path), details)]
            && FolderAt(f.db, FolderPath(path)) == Some(f.id)
  {
    hide *;
    PrepareKeeps(db, path);
    ImportIsPrepare(db, path, details);
    FileOfLinked(db, Prepare(db, path), path, details);
  }

  lemma FileOfLinked(db: Tables, g: Found, path: string, details: int)
    requires Gallery(db) && Prepared(db, g, path)
    ensures var t := Linked(g, path, details);
            && path in t.fileIDs && t.fileIDs == db.fileIDs[path := t.fileIDs[path]]
            && (path in db.fileIDs ==> t.fileIDs == db.fileIDs)
            && (path !in db.fileIDs ==> t.fileIDs[path] !in db.files)
            && t.files == db.files[t.fileIDs[path] := File(g.id, FileName(path), details)]
            && FolderAt(t, FolderPath(path)) == Some(g.id)
  {
    hide WellFormed, Built, FileName, FolderPath;
    assert FolderAt(Linked(g, path, details), FolderPath(path)) == FolderAt(g.db, FolderPath(path));
    if path in db.fileIDs && db.fileIDs[path] in db.files {
      assert FilePlaced(db, path);
      StillFound(db, g.db, FolderPath(path));
    }
  }

  /** Every import can be repeated without effect. */
  lemma ImportTwice(db: Tables, path: string, details: int)
    requires Gallery(db)
    ensures var once := ImportPath(db, path, details);
            ImportPath(once.db, path, details).db == once.db && ImportPath(once.db, path, details).created == 0
  {
    hide *;
    var f := ImportPath(db, path, details);
    ImportKeeps(db, path, details);
    ImportedBuilt(db, f, path);
    FileWritten(db, path, details);
    ImportAgain(f.db, path, details);
    SameFiles(f.db, f.db.fileIDs[path]);
  }

  lemma ImportedBuilt(db: Tables, f: Found, path: string)
    requires Imported(db, f, path)
    ensures Gallery(f.db) && path in f.db.fileIDs && f.db.fileIDs[path] in f.db.files && Built(f.db, f.db, 0, path)
  {
    hide WellFormed, FilesPlaced, Extends, Ancestors, FoldersIndexed;
  }

  lemma SameFiles(db: Tables, k: int)
    requires k in db.files
    ensures db.(files := db.files[k := db.files[k]]) == db
  {
    assert db.files[k := db.files[k]] == db.files;
  }

  /** The name of a file is its last segment. */
  lemma FileNameBelow(dir: string, segment: string)
    requires Segment(segment)
    ensures FileName(dir + "/" + segment) == segment && FileName(segment) == segment
  {
    hide LastSlash;
    LastSlashAt(dir + "/", segment);
    LastSlashAt("", segment);
    assert "" + segment == segment;
    assert (dir + "/" + segment)[|dir + "/"|] != '/';
  }

  /**
   Over any list of imports the gallery stays well formed, nothing that existed changes,
   and the number of reported creations is the number of new folders other than the root.
   */
  lemma {:induction false} ImportAllKeeps(db: Tables, work: seq<(string, int)>)
    requires Gallery(db)
    ensures var (t, created) := ImportAll(db, work);
            && Gallery(t) && Extends(db, t)
            && (work != [] ==> FolderAt(t, "").Some?)
            && (forall w <- work :: Built(t, t, 0, w.0))
            && |t.folders| == |db.folders| + created
                              + (if FolderAt(t, "").Some? && FolderAt(db, "") == None then 1 else 0)
    decreases |work|
  {
    hide Gallery, Extends, ImportPath, FolderAt, Built, Ancestors;
    if work == [] {
      SelfExtends(db);
    } else {
      var rest, w := work[..|work| - 1], work[|work| - 1];
      ImportAllKeeps(db, rest);
      var (s, before) := ImportAll(db, rest);
      var f := ImportPath(s, w.0, w.1);
      ImportKeeps(s, w.0, w.1);
      ExtendsTrans(db, s, f.db);
      RootStays(db, s, f.db);
      BuiltNow(s, f.db, f.created, w.0);
      forall x <- work ensures Built(f.db, f.db, 0, x.0) {
        if x in rest {
          BuiltStays(s, f.db, x.0);
        }
      }
    }
  }

  lemma RootStays(a: Tables, b: Tables, c: Tables)
    requires Extends(a, b) && Extends(b, c)
    ensures FolderAt(a, "").Some? ==> FolderAt(b, "").Some?
    ensures FolderAt(b, "").Some? ==> FolderAt(c, "").Some?
  {
  }

  lemma BuiltNow(db: Tables, t: Tables, created: nat, path: string)
    requires Built(db, t, created, path)
    ensures Built(t, t, 0, path) && FolderAt(t, "").Some?
    ensures |t.folders| == |db.folders| + created + (if FolderAt(db, "").Some? then 0 else 1)
  {
    hide FoldersIndexed, Ancestors;
  }

  lemma BuiltStays(a: Tables, b: Tables, path: string)
    requires Built(a, a, 0, path) && Extends(a, b) && Gallery(b)
    ensures Built(b, b, 0, path)
  {
    hide FoldersIndexed, PathsIndexed, FilesIndexed, FilesPlaced, Placed, Ancestors;
    StillFound(a, b, "");
    forall p <- Ancestors(Top(path), Segments(path)) ensures FolderAt(b, p).Some? {
      StillFound(a, b, p);
    }
  }

  // ----- The folder of a cleaned path -----------------------------------------------------

  /** The path after the segments, with the slash of an absolute root. */
  function Walked(path: string, parts: seq<string>): string
    decreases |parts|
  {
    if parts == [] then path
    else if parts[0] == "" then Walked(path, parts[1..])
    else Walked(Join(path, parts[0]), parts[1..])
  }

  lemma {:induction false} LastWalked(path: string, parts: seq<string>)
    ensures Last(path, parts) == if Walked(path, parts) == "/" then "" else Walked(path, parts)
    decreases |parts|
  {
    if parts == [] {
    } else {
      LastWalked(if parts[0] == "" then path else Join(path, parts[0]), parts[1..]);
    }
  }

  lemma {:induction false} WalkedBack(path: string, parts: seq<string>, p: string)
    ensures Walked(path, parts + [p]) == if p == "" then Walked(path, parts) else Join(Walked(path, parts), p)
    decreases |parts|
  {
    if parts == [] {
      assert parts + [p] == [p];
      assert [p][1..] == [];
    } else {
      assert (parts + [p])[1..] == parts[1..] + [p];
      WalkedBack(if parts[0] == "" then path else Join(path, parts[0]), parts[1..], p);
    }
  }

  predicate NoDoubleSlash(s: string) {
    forall i :: 0 <= i < |s| - 1 ==> !(s[i] == '/' && s[i + 1] == '/')
  }

  lemma TopOf(s: string)
    requires s != ""
    ensures Top(s) == if s[0] == '/' then "/" else ""
  {
  }

  lemma SplitOnce(s: string)
    ensures var i := LastSlash(s);
            Split(s) == if i < 0 then [s] else Split(s[..i]) + [s[i + 1..]]
    ensures Split("") == [""]
  {
  }

  lemma WalkedNone(path: string)
    ensures Walked(path, [""]) == path && Walked(path, []) == path
  {
  }

  lemma Rejoined(s: string, i: nat)
    requires i < |s| && s[i] == '/' && (i > 0 ==> s[i - 1] != '/')
    ensures Join(if i == 0 then "/" else s[..i], s[i + 1..]) == s
  {
    assert s == s[..i] + "/" + s[i + 1..];
  }

  lemma {:induction false} SplitWalked(s: string)
    requires s != "" && s[|s| - 1] != '/' && NoDoubleSlash(s)
    ensures Walked(Top(s), Split(s)) == s
    decreases |s|
  {
    hide LastSlash, Walked, Join, Split, Top;
    var i := LastSlash(s);
    TopOf(s);
    SplitOnce(s);
    if i < 0 {
      WalkedBack("", [], s);
      WalkedNone("");
      assert [] + [s] == [s];
      JoinTop(s);
    } else {
      var segment := s[i + 1..];
      assert i > 0 ==> s[i - 1] != '/';
      Rejoined(s, i);
      WalkedBack(Top(s), Split(s[..i]), segment);
      if i == 0 {
        assert s[..0] == "";
        WalkedNone("/");
      } else {
        TopOf(s[..i]);
        SplitWalked(s[..i]);
      }
    }
  }

  lemma JoinTop(s: string)
    ensures Join("", s) == s
  {
  }

  /** A file in a cleaned path belongs to the folder of its directory; a top-level file to the root. */
  lemma FolderOfFile(path: string)
    requires CleanPath(path)
    ensures FolderPath(path) == if LastSlash(path) <= 0 then "" else path[..LastSlash(path)]
  {
    hide LastSlash, Walked, Join, Split, Top, Last;
    var i := LastSlash(path);
    LastWalked(Top(path), Segments(path));
    TopOf(path);
    WalkedNone(Top(path));
    if i > 0 {
      var dir := path[..i];
      assert dir[i - 1] != '/' by {
        assert path[i] == '/';
      }
      TopOf(dir);
      assert dir != "." by {
        assert path[..i] + "/" <= path;
      }
      assert NoDoubleSlash(dir);
      SplitWalked(dir);
    }
  }

  // ----- The importer -----------------------------------------------------------------------

  ghost predicate CacheTrue(db: Tables, cache: map<string, int>) {
    forall p <- cache :: FolderAt(db, p) == Some(cache[p])
  }

  lemma CacheStays(a: Tables, b: Tables, cache: map<string, int>)
    requires Extends(a, b) && CacheTrue(a, cache)
    ensures CacheTrue(b, cache)
  {
    forall p <- cache ensures FolderAt(b, p) == Some(cache[p]) {
      StillFound(a, b, p);
    }
  }

  lemma CacheGrows(db: Tables, cache: map<string, int>, path: string, id: int)
    requires CacheTrue(db, cache) && FolderAt(db, path) == Some(id)
    ensures CacheTrue(db, cache[path := id])
  {
  }

  lemma CacheHit(db: Tables, cache: map<string, int>, path: string)
    requires CacheTrue(db, cache) && path in cache
    ensures FolderAt(db, path) == Some(cache[path])
  {
  }

  lemma StartImport(db: Tables, path: string, cache: map<string, int>)
    requires Gallery(db) && CacheTrue(db, cache)
    ensures var db1 := UpsertFilePath(db, path).0;
            WellFormed(db1) && CacheTrue(db1, cache)
  {
    hide *;
    FilePathKept(db, path);
    CacheStays(db, UpsertFilePath(db, path).0, cache);
  }

  lemma RootAnchors(db: Tables, path: string)
    requires WellFormed(db)
    ensures Anchored(EnsureRoot(db).db, EnsureRoot(db).id, Top(path)) && Pieces(Segments(path))
  {
    RootEnsured(db);
    RootFirst(path);
  }

  /** One turn of the loop over the segments. */
  lemma ChainUnrolled(db: Tables, parent: int, path: string, parts: seq<string>, i: nat)
    requires Anchored(db, parent, path) && Pieces(parts) && i < |parts|
    ensures parts[i] == "" ==>
              EnsureChain(db, parent, path, parts[i..]) == EnsureChain(db, parent, path, parts[i + 1..])
    ensures parts[i] != "" ==>
              var below := Join(path, parts[i]);
              var f := EnsureFolder(db, parent, below, parts[i]);
              var g := EnsureChain(f.db, f.id, below, parts[i + 1..]);
              && EnsureChain(db, parent, path, parts[i..]) == Found(g.db, g.id, f.created + g.created)
              && Anchored(f.db, f.id, below)
              && below != "" && WellFormed(db) && parent in db.folders && PathOf(db, parent) == ParentPath(below)
  {
    assert parts[i..][0] == parts[i] && parts[i..][1..] == parts[i + 1..];
    if parts[i] != "" {
      var f := ChainFirst(db, parent, path, parts[i]);
      JoinParent(path, parts[i]);
    }
  }

  /** What the last write of an import leaves. */
  lemma EndImport(db: Tables, path: string, details: int, cache: map<string, int>)
    requires Gallery(db) && CacheTrue(Prepare(db, path).db, cache)
    ensures var g := Prepare(db, path);
            var f := ImportPath(db, path, details);
            var pathID := UpsertFilePath(db, path).1;
            && f == Found(UpsertFile(g.db, g.id, pathID, FileName(path), details), g.id, g.created)
            && Gallery(f.db) && CacheTrue(f.db, cache)
            && path in f.db.fileIDs && f.db.fileIDs[path] == pathID
  {
    hide FoldersIndexed, PathsIndexed, FilesIndexed, FilesPlaced, Placed, Prepare, Built, Extends, ImportPath;
    ImportIsPrepare(db, path, details);
    ImportKeeps(db, path, details);
    PrepareKeeps(db, path);
    var g := Prepare(db, path);
    assert forall p <- cache :: FolderAt(Linked(g, path, details), p) == FolderAt(g.db, p);
  }

  lemma NoTiles(db: Tables, tile: int)
    ensures WithTiles(db, [], tile) == db
  {
  }

  lemma SameFolderKeys(db: Tables, ids: seq<int>, tile: int)
    ensures WithTiles(db, ids, tile).folders.Keys == db.folders.Keys
  {
  }

  lemma OwnRow(db: Tables, id: int)
    requires id in db.folders
    ensures HasTile(db, id) == db.folders[id].tile.Some? && ParentOf(db, id) == db.folders[id].parent
  {
  }

  lemma GalleryFormed(db: Tables)
    requires Gallery(db)
    ensures WellFormed(db)
  {
  }

  lemma TilesKeepGallery(db: Tables, ids: seq<int>, tile: int, cache: map<string, int>)
    requires Gallery(db) && CacheTrue(db, cache)
    ensures Gallery(WithTiles(db, ids, tile)) && CacheTrue(WithTiles(db, ids, tile), cache)
  {
    hide WellFormed, FolderAt;
    TilesKeepTree(db, ids, tile);
    var t := WithTiles(db, ids, tile);
    forall p <- t.fileIDs | t.fileIDs[p] in t.files ensures FilePlaced(t, p) {
      assert FilePlaced(db, p);
    }
  }

  /** Imports a batch over tables, asking the cache before the tables. */
  class BatchImporter {
    var db: Tables
    var folderCache: map<string, int>
    var created: nat  // calls of OnFolderCreated

    ghost predicate Valid()
      reads this
    {
      Gallery(db) && CacheTrue(db, folderCache)
    }

    constructor (db: Tables)
      requires Gallery(db)
      ensures Valid() && this.db == db && created == 0
    {
      this.db := db;
      folderCache := map[];
      created := 0;
    }

    method CreateRootFolderEntry() returns (id: int)
      modifies this`db
      ensures db == EnsureRoot(old(db)).db && id == EnsureRoot(old(db)).id
    {
      if FolderAt(db, "").Some? {
        return FolderAt(db, "").value;
      }
      var (db1, pathID) := UpsertFolderPath(db, "");
      var (db2, rootID) := UpsertFolder(db1, None, pathID, "Gallery");
      db := db2;
      id := rootID;
    }

    method RootFolder() returns (id: int)
      requires WellFormed(db) && CacheTrue(db, folderCache)
      modifies this`db, this`folderCache
      ensures db == EnsureRoot(old(db)).db && id == EnsureRoot(old(db)).id
      ensures CacheTrue(db, folderCache)
    {
      hide FoldersIndexed, PathsIndexed, FilesIndexed, Placed, CacheTrue;
      RootEnsured(db);
      if "" in folderCache {
        CacheHit(db, folderCache, "");
        return folderCache[""];
      }
      if FolderAt(db, "").Some? {
        id := FolderAt(db, "").value;
      } else {
        id := CreateRootFolderEntry();
      }
      CacheStays(old(db), db, folderCache);
      CacheGrows(db, folderCache, "", id);
      folderCache := folderCache["" := id];
    }

    /** The folder of one more segment: from the cache, from the tables, or new. */
    method FolderBelow(parent: int, path: string, name: string) returns (id: int)
      requires WellFormed(db) && CacheTrue(db, folderCache) && path != ""
      requires parent in db.folders && PathOf(db, parent) == ParentPath(path)
      modifies this
      ensures var f := EnsureFolder(old(db), parent, path, name);
              db == f.db && id == f.id && created == old(created) + f.created
      ensures CacheTrue(db, folderCache)
    {
      hide FoldersIndexed, PathsIndexed, FilesIndexed, Placed, CacheTrue, PathOf, ParentPath, NewRows, BaseName,
           Extends;
      FolderEnsured(db, parent, path, name);
      if path in folderCache {
        CacheHit(db, folderCache, path);
        return folderCache[path];
      }
      var found := FolderAt(db, path);
      if found.None? {
        var (db1, pathID) := UpsertFolderPath(db, path);
        var (db2, newID) := UpsertFolder(db1, Some(parent), pathID, name);
        db := db2;
        id := newID;
        created := created + 1;
      } else {
        id := found.value;
      }
      CacheStays(old(db), db, folderCache);
      CacheGrows(db, folderCache, path, id);
      folderCache := folderCache[path := id];
    }

    /** With the shared cache an import does to the tables exactly what it does without one. */
    method UpsertPathChain(path: string, details: int) returns (fileID: int)
      requires Valid()
      modifies this
      ensures Valid()
      ensures var f := ImportPath(old(db), path, details);
              db == f.db && created == old(created) + f.created && path in db.fileIDs && fileID == db.fileIDs[path]
    {
      hide ImportPath, EnsureChain, EnsureRoot, EnsureFolder, Anchored, CacheTrue, Gallery, WellFormed, PathOf,
           FolderAt, UpsertFilePath, UpsertFile, Segments, Top, FileName, Pieces;
      var (db1, pathID) := UpsertFilePath(db, path);
      StartImport(db, path, folderCache);
      db := db1;
      RootAnchors(db, path);
      var parent := RootFolder();
      var parts := Segments(path);
      var at := Top(path);
      ghost var whole := Prepare(old(db), path);
      assert parts[0..] == parts;
      for i := 0 to |parts|
        invariant Anchored(db, parent, at) && CacheTrue(db, folderCache) && Pieces(parts)
        invariant var rest := EnsureChain(db, parent, at, parts[i..]);
                  rest.db == whole.db && rest.id == whole.id && created - old(created) + rest.created == whole.created
      {
        ChainUnrolled(db, parent, at, parts, i);
        if parts[i] != "" {
          var below := Join(at, parts[i]);
          parent := FolderBelow(parent, below, parts[i]);
          at := below;
        }
      }
      ChainEnd(db, parent, at, parts);
      EndImport(old(db), path, details, folderCache);
      db := UpsertFile(db, parent, pathID, FileName(path), details);
      fileID := pathID;
    }

    /** Gives the tile to the untiled folders from `folderID` upward, and to no other. */
    method UpdateFolderTileChain(folderID: int, tileFileID: int)
      requires Valid()
      modifies this`db
      ensures Valid()
      ensures db == WithTiles(old(db), UntiledRun(old(db), folderID), tileFileID)
    {
      hide WithTiles, UntiledRun, Height, WellFormed, CacheTrue, HasTile, ParentOf, Gallery;
      GalleryFormed(db);
      TilesKeepGallery(db, UntiledRun(db, folderID), tileFileID, folderCache);
      NoTiles(db, tileFileID);
      var current := folderID;
      ghost var done: seq<int> := [];
      while true
        invariant UntiledRun(old(db), folderID) == done + UntiledRun(old(db), current)
        invariant db == WithTiles(old(db), done, tileFileID) && db.folders.Keys == old(db).folders.Keys
        invariant forall d <- done :: Height(old(db), d) > Height(old(db), current)
        decreases Height(old(db), current)
      {
        RunTurn(old(db), folderID, done, current, tileFileID);
        SameFolderKeys(old(db), done + [current], tileFileID);
        if current !in db.folders {
          return;
        }
        var folder := db.folders[current];
        assert folder == old(db).folders[current];
        OwnRow(old(db), current);
        if folder.tile.Some? {
          return;
        }
        db := db.(folders := db.folders[current := folder.(tile := Some(tileFileID))]);
        done := done + [current];
        if folder.parent.None? {
          return;
        }
        current := folder.parent.value;
      }
    }

    /** A batch of imports over one cache does what the same imports do without one. */
    method ImportBatch(work: seq<(string, int)>)
      requires Valid()
      modifies this
      ensures Valid()
      ensures db == ImportAll(old(db), work).0 && created == old(created) + ImportAll(old(db), work).1
    {
      hide *;
      ImportNone(db);
      assert work[..0] == [];
      for i := 0 to |work|
        invariant Valid()
        invariant db == ImportAll(old(db), work[..i]).0 && created == old(created) + ImportAll(old(db), work[..i]).1
      {
        ImportNext(old(db), work, i);
        var _ := UpsertPathChain(work[i].0, work[i].1);
      }
      assert work[..|work|] == work;
    }
  }

  lemma ImportNone(db: Tables)
    ensures ImportAll(db, []) == (db, 0)
  {
  }

  lemma ImportNext(db: Tables, work: seq<(string, int)>, i: nat)
    requires i < |work|
    ensures var before := ImportAll(db, work[..i]);
            var f := ImportPath(before.0, work[i].0, work[i].1);
            ImportAll(db, work[..i + 1]) == (f.db, before.1 + f.created)
  {
    hide ImportPath;
    assert work[..i + 1][..i] == work[..i];
  }

  lemma ChainEnd(db: Tables, parent: int, path: string, parts: seq<string>)
    ensures EnsureChain(db, parent, path, parts[|parts|..]) == Found(db, parent, 0)
  {
  }
}
