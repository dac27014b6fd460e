/**
 The gallery tables that an import writes, as SQLite keeps them: rows by identifier,
 with the unique indexes on path and on path identifier.
 */
module GalleryTables {
  import opened Wrappers

  datatype Folder = Folder(parent: Option<int>, pathID: int, name: string, tile: Option<int>)

  /** `details` stands for the columns that an import overwrites: size, times, hashes, type, dimensions. */
  datatype File = File(folder: int, filename: string, details: int)

  datatype Tables = Tables(
    paths: map<int, string>,     // folder_paths
    pathIndex: map<string, int>, // unique index on its path
    folders: map<int, Folder>,
    folderIndex: map<int, int>,  // unique index of folders on path_id
    fileIDs: map<string, int>,   // file_paths, by its unique path
    files: map<int, File>)       // files, by its unique path_id

  lemma EmptyOrNot(s: set<int>)
    ensures s == {} || exists x :: x in s
  {
    if forall x :: x !in s {
      assert s == {};
    }
  }

  predicate IsMax(s: set<int>, m: int) {
    m in s && forall y <- s :: y <= m
  }

  lemma {:induction false} MaxExists(s: set<int>) returns (m: int)
    requires s != {}
    ensures IsMax(s, m)
    decreases s
  {
    EmptyOrNot(s);
    var x :| x in s;
    var r := s - {x};
    if r == {} {
      assert s == {x};
      m := x;
    } else {
      var best := MaxExists(r);
      assert forall y <- s :: y == x || y in r;
      m := if best < x then x else best;
    }
  }

  function MaxID(s: set<int>): (m: int)
    requires s != {}
    ensures IsMax(s, m)
  {
    assert exists m :: IsMax(s, m) by {
      var m := MaxExists(s);
    }
    var m :| IsMax(s, m);
    m
  }

  /** The identifier of the next row of a table. */
  function FreshID(s: set<int>): (id: int)
    ensures id !in s
  {
    if s == {} then 1 else MaxID(s) + 1
  }

  // ----- Queries --------------------------------------------------------------------

  /** The folder of a path, by the two unique indexes. */
  function FolderAt(db: Tables, path: string): Option<int> {
    if path in db.pathIndex && db.pathIndex[path] in db.folderIndex
    then Some(db.folderIndex[db.pathIndex[path]])
    else None
  }

  function UpsertFolderPath(db: Tables, path: string): (Tables, int) {
    if path in db.pathIndex then (db, db.pathIndex[path])
    else
      var id := FreshID(db.paths.Keys);
      (db.(paths := db.paths[id := path], pathIndex := db.pathIndex[path := id]), id)
  }

  /** On a conflict on the path the row is overwritten, tile included. */
  function UpsertFolder(db: Tables, parent: Option<int>, pathID: int, name: string): (Tables, int) {
    var row := Folder(parent, pathID, name, None);
    if pathID in db.folderIndex then
      (db.(folders := db.folders[db.folderIndex[pathID] := row]), db.folderIndex[pathID])
    else
      var id := FreshID(db.folders.Keys);
      (db.(folders := db.folders[id := row], folderIndex := db.folderIndex[pathID := id]), id)
  }

  function UpsertFilePath(db: Tables, path: string): (Tables, int) {
    if path in db.fileIDs then (db, db.fileIDs[path])
    else
      var id := FreshID(db.fileIDs.Values);
      (db.(fileIDs := db.fileIDs[path := id]), id)
  }

  /** On a conflict everything but the folder is overwritten. */
  function UpsertFile(db: Tables, folder: int, pathID: int, filename: string, details: int): Tables {
    var owner := if pathID in db.files then db.files[pathID].folder else folder;
    db.(files := db.files[pathID := File(owner, filename, details)])
  }

  // ----- Paths ----------------------------------------------------------------------

  function LastSlash(s: string): (i: int)
    ensures -1 <= i < |s|
    ensures i >= 0 ==> s[i] == '/'
    ensures forall j :: i < j < |s| ==> s[j] != '/'
  {
    if s == "" then -1
    else if s[|s| - 1] == '/' then |s| - 1
    else LastSlash(s[..|s| - 1])
  }

  /** The path of the folder above; the gallery root has the empty path. */
  function ParentPath(s: string): string {
    if LastSlash(s) <= 0 then "" else s[..LastSlash(s)]
  }

  function BaseName(s: string): string {
    s[LastSlash(s) + 1..]
  }

  predicate Segment(s: string) {
    s != "" && '/' !in s
  }

  /** A path and one more segment. */
  function Join(path: string, segment: string): string {
    if path == "" || path == "/" then path + segment else path + "/" + segment
  }

  lemma JoinParent(path: string, segment: string)
    requires Segment(segment)
    requires path == "" || path == "/" || path[|path| - 1] != '/'
    ensures ParentPath(Join(path, segment)) == if path == "/" then "" else path
    ensures BaseName(Join(path, segment)) == segment
    ensures Join(path, segment) != "" && Join(path, segment)[|Join(path, segment)| - 1] != '/'
  {
    hide LastSlash;
    var s := Join(path, segment);
    var head := if path == "" || path == "/" then path else path + "/";
    assert s == head + segment;
    LastSlashAt(head, segment);
    if path != "" && path != "/" {
      assert s[..|path|] == path;
    }
    assert s[|s| - 1] == segment[|segment| - 1];
  }

  lemma LastSlashAt(head: string, segment: string)
    requires '/' !in segment && (head == "" || head[|head| - 1] == '/')
    ensures LastSlash(head + segment) == |head| - 1 && (head + segment)[|head|..] == segment
  {
    hide LastSlash;
    var s := head + segment;
    forall j | |head| <= j < |s| ensures s[j] != '/' {
      assert s[j] == segment[j - |head|];
    }
    assert head != "" ==> s[|head| - 1] == '/';
    assert s[|head|..] == segment;
  }

  // ----- The folder tree --------------------------------------------------------------

  predicate PathsIndexed(db: Tables) {
    && (forall p <- db.pathIndex :: db.pathIndex[p] in db.paths && db.paths[db.pathIndex[p]] == p)
    && (forall i <- db.paths :: db.paths[i] in db.pathIndex && db.pathIndex[db.paths[i]] == i)
  }

  predicate FoldersIndexed(db: Tables) {
    && (forall k <- db.folderIndex :: db.folderIndex[k] in db.folders && db.folders[db.folderIndex[k]].pathID == k)
    && (forall id <- db.folders :: var k := db.folders[id].pathID;
                                   k in db.paths && k in db.folderIndex && db.folderIndex[k] == id)
  }

  function PathOf(db: Tables, id: int): string
    requires FoldersIndexed(db) && id in db.folders
  {
    db.paths[db.folders[id].pathID]
  }

  /** A folder's parent is the folder of its parent path; only the root has none. */
  predicate Placed(db: Tables, id: int)
    requires FoldersIndexed(db) && id in db.folders
  {
    var path, parent := PathOf(db, id), db.folders[id].parent;
    if path == "" then parent == None
    else parent.Some? && parent.value in db.folders && PathOf(db, parent.value) == ParentPath(path)
  }

  predicate FilesIndexed(db: Tables) {
    forall p, q | p in db.fileIDs && q in db.fileIDs && db.fileIDs[p] == db.fileIDs[q] :: p == q
  }

  predicate WellFormed(db: Tables) {
    && PathsIndexed(db)
    && FoldersIndexed(db)
    && FilesIndexed(db)
    && forall id <- db.folders :: Placed(db, id)
  }

  /** A query by path finds the folder of that path, and no other folder has it. */
  lemma FolderFound(db: Tables, path: string)
    requires WellFormed(db) && FolderAt(db, path).Some?
    ensures FolderAt(db, path).value in db.folders && PathOf(db, FolderAt(db, path).value) == path
  {
    hide Placed;
    var k := db.pathIndex[path];
    assert db.paths[k] == path;
    assert db.folders[db.folderIndex[k]].pathID == k;
  }

  lemma OneFolder(db: Tables, id: int)
    requires WellFormed(db) && id in db.folders
    ensures FolderAt(db, PathOf(db, id)) == Some(id)
  {
    hide Placed;
    var k := db.folders[id].pathID;
    assert db.pathIndex[db.paths[k]] == k;
  }

  /** Going up shortens the path. */
  lemma ParentShorter(path: string)
    requires path != ""
    ensures |ParentPath(path)| < |path|
  {
  }

  /** Every ancestor of a folder has a folder, up to the root. */
  lemma {:induction false} AncestorsPresent(db: Tables, id: int)
    requires WellFormed(db) && id in db.folders
    ensures FolderAt(db, "").Some?
    ensures PathOf(db, id) != "" ==> FolderAt(db, ParentPath(PathOf(db, id))) == db.folders[id].parent
    decreases |PathOf(db, id)|
  {
    assert Placed(db, id);
    OneFolder(db, id);
    if PathOf(db, id) == "" {
    } else {
      OneFolder(db, db.folders[id].parent.value);
      ParentShorter(PathOf(db, id));
      AncestorsPresent(db, db.folders[id].parent.value);
    }
  }
}
