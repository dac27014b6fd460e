/**
 Whole runs of imports and tiles over one batch.
 */
module GalleryRuns {
  import opened Wrappers
  import opened GalleryTables
  import opened FolderTiles
  import opened Importer

  datatype Op = Import(path: string, details: int) | Tile(folder: int, file: int)

  /** What one operation does to the tables. */
  function After(db: Tables, op: Op): Tables
    requires Gallery(db)
  {
    match op
    case Import(path, details) => ImportPath(db, path, details).db
    case Tile(folder, file) => WithTiles(db, UntiledRun(db, folder), file)
  }

  /** The galleries that a run goes through. */
  ghost predicate Run(db: Tables, ops: seq<Op>, t: Tables)
    decreases |ops|
  {
    if ops == [] then t == db
    else Gallery(db) && Run(After(db, ops[0]), ops[1..], t)
  }

  /** New folders have no tile, so that an import tiles no folder below an untiled one. */
  lemma ImportTiledUp(db: Tables, path: string, details: int)
    requires Gallery(db) && TiledUp(db)
    ensures TiledUp(ImportPath(db, path, details).db)
  {
    hide Gallery, WellFormed, PathOf, FolderAt, Ancestors, ImportPath;
    ImportKeeps(db, path, details);
    var t := ImportPath(db, path, details).db;
    forall id <- t.folders | HasTile(t, id) && ParentOf(t, id).Some?
      ensures ParentOf(t, id).value in t.folders && HasTile(t, ParentOf(t, id).value)
    {
      assert id in db.folders && HasTile(db, id);
    }
  }

  /** Tiles that are set stay as they are. */
  ghost predicate TilesStay(a: Tables, b: Tables) {
    forall id <- a.folders | HasTile(a, id) :: id in b.folders && b.folders[id] == a.folders[id]
  }

  lemma AfterKeeps(db: Tables, op: Op)
    requires Gallery(db) && TiledUp(db)
    ensures Gallery(After(db, op)) && TiledUp(After(db, op)) && TilesStay(db, After(db, op))
  {
    match op
    case Import(path, details) =>
      hide Gallery, TiledUp, ImportPath, Built;
      ImportKeeps(db, path, details);
      ImportTiledUp(db, path, details);
    case Tile(folder, file) =>
      hide Gallery, WellFormed, TiledUp, UntiledRun, FolderAt;
      GalleryFormed(db);
      TilesKept(db, folder, file);
      TilesKeepGallery(db, UntiledRun(db, folder), file, map[]);
  }

  /**
   In every run over a gallery whose tiled folders have only tiled ancestors: that stays
   so, no tile is ever overwritten, and every folder keeps its place in the tree.
   */
  lemma {:induction false} RunKeeps(db: Tables, ops: seq<Op>, t: Tables)
    requires Gallery(db) && TiledUp(db) && Run(db, ops, t)
    ensures Gallery(t) && TiledUp(t) && TilesStay(db, t)
    decreases |ops|
  {
    hide Gallery, TiledUp, After;
    if ops == [] {
    } else {
      AfterKeeps(db, ops[0]);
      RunKeeps(After(db, ops[0]), ops[1..], t);
    }
  }

  // ----- From an empty database -------------------------------------------------------------------

  /** A folder that an import of `path` asks for: the root, or an ancestor of the file. */
  predicate Needs(path: string, a: string) {
    a == "" || a in Ancestors(Top(path), Segments(path))
  }

  predicate Wanted(ops: seq<Op>, a: string) {
    exists i :: 0 <= i < |ops| && ops[i].Import? && Needs(ops[i].path, a)
  }

  lemma WantedFirst(ops: seq<Op>, a: string)
    requires ops != []
    ensures Wanted(ops, a) <==> (ops[0].Import? && Needs(ops[0].path, a)) || Wanted(ops[1..], a)
  {
    hide Needs;
    assert ops == [ops[0]] + ops[1..];
    if i :| 0 <= i < |ops[1..]| && ops[1..][i].Import? && Needs(ops[1..][i].path, a) {
      assert ops[i + 1] == ops[1..][i];
    }
  }

  /** An import adds exactly the folders it needs. */
  lemma ImportFolders(db: Tables, path: string, details: int, a: string)
    requires Gallery(db)
    ensures FolderAt(ImportPath(db, path, details).db, a).Some? <==> FolderAt(db, a).Some? || Needs(path, a)
  {
    hide Gallery, WellFormed, FolderAt, PathOf, Ancestors, ImportPath, Extends, NewRows;
    ImportKeeps(db, path, details);
    var f := ImportPath(db, path, details);
    GalleryFormed(db);
    GalleryFormed(f.db);
    if FolderAt(db, a).Some? {
      StillFound(db, f.db, a);
    } else if FolderAt(f.db, a).Some? {
      FolderFound(f.db, a);
      var id := FolderAt(f.db, a).value;
      if id in db.folders {
        PathStays(db, f.db, id);
        OneFolder(db, id);
      }
    }
  }

  lemma AfterFolders(db: Tables, op: Op, a: string)
    requires Gallery(db)
    ensures FolderAt(After(db, op), a).Some? <==> FolderAt(db, a).Some? || (op.Import? && Needs(op.path, a))
  {
    hide Gallery, WellFormed, FolderAt, Needs, ImportPath, UntiledRun;
    GalleryFormed(db);
    match op
    case Import(path, details) => ImportFolders(db, path, details, a);
    case Tile(folder, file) => TilesKeepTree(db, UntiledRun(db, folder), file);
  }

  lemma {:induction false} RunFolders(db: Tables, ops: seq<Op>, t: Tables, a: string)
    requires Gallery(db) && TiledUp(db) && Run(db, ops, t)
    ensures FolderAt(t, a).Some? <==> FolderAt(db, a).Some? || Wanted(ops, a)
    decreases |ops|
  {
    hide Gallery, TiledUp, After, FolderAt, Needs;
    if ops == [] {
    } else {
      AfterKeeps(db, ops[0]);
      AfterFolders(db, ops[0], a);
      WantedFirst(ops, a);
      RunFolders(After(db, ops[0]), ops[1..], t, a);
    }
  }

  // ----- Names and files ----------------------------------------------------------------------------

  predicate NamedFile(db: Tables, path: string)
    requires path in db.fileIDs && db.fileIDs[path] in db.files
  {
    db.files[db.fileIDs[path]].filename == FileName(path)
  }

  /** Every folder and every file has the name of its path. */
  ghost predicate Named(db: Tables) {
    && (forall id <- db.folders :: NamedFolder(db, id))
    && (forall p <- db.fileIDs | db.fileIDs[p] in db.files :: NamedFile(db, p))
  }

  lemma FoldersNamed(db: Tables, path: string, details: int)
    requires Gallery(db) && forall id <- db.folders :: NamedFolder(db, id)
    ensures var t := ImportPath(db, path, details).db; forall id <- t.folders :: NamedFolder(t, id)
  {
    hide Gallery, FolderName, ImportPath, Built;
    ImportKeeps(db, path, details);
    ImportNews(db, path, details);
    var t := ImportPath(db, path, details).db;
    forall id <- t.folders ensures NamedFolder(t, id) {
      if id in db.folders {
        assert NamedFolder(db, id);
      }
    }
  }

  lemma ImportNews(db: Tables, path: string, details: int)
    requires Gallery(db)
    ensures NewRows(db, ImportPath(db, path, details).db) && FilesIndexed(ImportPath(db, path, details).db)
  {
    hide Extends, NewRows, ImportPath;
    ImportKeeps(db, path, details);
  }

  /** The row of a file, by the unique indexes. */
  function FileAt(db: Tables, path: string): Option<File> {
    if path in db.fileIDs && db.fileIDs[path] in db.files then Some(db.files[db.fileIDs[path]]) else None
  }

  /** An import writes the row of its file and no other. */
  lemma ImportFile(db: Tables, path: string, details: int, p: string)
    requires Gallery(db)
    ensures var f := ImportPath(db, path, details);
            FileAt(f.db, p) == if p == path then Some(File(f.id, FileName(path), details)) else FileAt(db, p)
  {
    hide FolderAt, FolderPath, FileName, ImportPath, WellFormed;
    FileWritten(db, path, details);
    ImportNews(db, path, details);
  }

  lemma AfterNamed(db: Tables, op: Op)
    requires Gallery(db) && Named(db)
    ensures Named(After(db, op))
  {
    GalleryFormed(db);
    hide Gallery, Named, ImportPath, UntiledRun, WithTiles;
    match op
    case Import(path, details) => ImportNamed(db, path, details);
    case Tile(folder, file) => TilesNamed(db, UntiledRun(db, folder), file);
  }

  lemma ImportNamed(db: Tables, path: string, details: int)
    requires Gallery(db) && Named(db)
    ensures Named(ImportPath(db, path, details).db)
  {
    hide Gallery, FileName, ImportPath, NamedFolder;
    var t := ImportPath(db, path, details).db;
    FoldersNamed(db, path, details);
    forall p <- t.fileIDs | t.fileIDs[p] in t.files ensures NamedFile(t, p) {
      ImportFile(db, path, details, p);
      assert FileAt(t, p).Some?;
    }
  }

  lemma TilesNamed(db: Tables, ids: seq<int>, tile: int)
    requires Named(db)
    ensures Named(WithTiles(db, ids, tile))
  {
    hide FolderName, FileName;
    var t := WithTiles(db, ids, tile);
    forall id <- t.folders ensures NamedFolder(t, id) {
      assert NamedFolder(db, id);
    }
    forall p <- t.fileIDs | t.fileIDs[p] in t.files ensures NamedFile(t, p) {
      assert NamedFile(db, p);
    }
  }

  /** The details of a file after the operations: those of its last import. */
  function Detailed(before: Option<int>, ops: seq<Op>, path: string): Option<int>
    decreases |ops|
  {
    if ops == [] then before
    else
      var imports := ops[0].Import? && ops[0].path == path;
      Detailed(if imports then Some(ops[0].details) else before, ops[1..], path)
  }

  function DetailsAt(db: Tables, path: string): Option<int> {
    if FileAt(db, path).Some? then Some(FileAt(db, path).value.details) else None
  }

  lemma AfterFile(db: Tables, op: Op, path: string)
    requires Gallery(db)
    ensures DetailsAt(After(db, op), path)
         == if op.Import? && op.path == path then Some(op.details) else DetailsAt(db, path)
  {
    hide Gallery, FileName, ImportPath, UntiledRun;
    match op
    case Import(p, details) => ImportFile(db, p, details, path);
    case Tile(folder, file) =>
  }

  lemma {:induction false} RunFiles(db: Tables, ops: seq<Op>, t: Tables, path: string)
    requires Gallery(db) && TiledUp(db) && Run(db, ops, t)
    ensures DetailsAt(t, path) == Detailed(DetailsAt(db, path), ops, path)
    decreases |ops|
  {
    hide Gallery, TiledUp, After, DetailsAt;
    if ops == [] {
    } else {
      AfterKeeps(db, ops[0]);
      AfterFile(db, ops[0], path);
      RunFiles(After(db, ops[0]), ops[1..], t, path);
    }
  }

  lemma {:induction false} RunNamed(db: Tables, ops: seq<Op>, t: Tables)
    requires Gallery(db) && TiledUp(db) && Named(db) && Run(db, ops, t)
    ensures Named(t)
    decreases |ops|
  {
    hide Gallery, TiledUp, Named, After;
    if ops == [] {
    } else {
      AfterKeeps(db, ops[0]);
      AfterNamed(db, ops[0]);
      RunNamed(After(db, ops[0]), ops[1..], t);
    }
  }

  const NEW := Tables(map[], map[], map[], map[], map[], map[])

  lemma NewGallery()
    ensures Gallery(NEW) && TiledUp(NEW) && Named(NEW)
  {
  }

  lemma NothingYet(a: string)
    ensures FolderAt(NEW, a).None? && DetailsAt(NEW, a).None?
  {
  }

  /**
   Every run over a new database leaves a tree with exactly the folders of the imported
   files: the root and their ancestors, each below its parent path; and above a folder
   with a tile all folders have one.
   */
  lemma NewRun(ops: seq<Op>, t: Tables)
    requires Run(NEW, ops, t)
    ensures Gallery(t) && forall a :: FolderAt(t, a).Some? <==> Wanted(ops, a)
    ensures forall id <- t.folders | HasTile(t, id) :: forall k <- Lineage(t, id) :: k in t.folders && HasTile(t, k)
  {
    hide Gallery, TiledUp, Named, Run, FolderAt, Wanted, Lineage;
    NewGallery();
    RunKeeps(NEW, ops, t);
    GalleryFormed(t);
    forall a ensures FolderAt(t, a).Some? <==> Wanted(ops, a) {
      RunFolders(NEW, ops, t, a);
      assert FolderAt(NEW, a).None? by {
        NothingYet(a);
      }
    }
    forall id <- t.folders | HasTile(t, id) ensures forall k <- Lineage(t, id) :: k in t.folders && HasTile(t, k) {
      LineageTiled(t, id);
    }
  }

  /**
   In that tree the folder with the empty path is named Gallery and every other folder by the last
   segment of its path; and there is a row for exactly the files imported, below the folder of
   their directory, with the last segment of the path for a name and the details of the last import.
   */
  lemma NewNames(ops: seq<Op>, t: Tables)
    requires Run(NEW, ops, t)
    ensures WellFormed(t)
    ensures forall id <- t.folders ::
              t.folders[id].name == if PathOf(t, id) == "" then "Gallery" else BaseName(PathOf(t, id))
    ensures forall p :: DetailsAt(t, p) == Detailed(None, ops, p)
    ensures forall p | FileAt(t, p).Some? ::
              && FileAt(t, p).value.filename == FileName(p)
              && FolderAt(t, FolderPath(p)) == Some(FileAt(t, p).value.folder)
  {
    hide Run, FolderAt, BaseName, FileName, FolderPath, DetailsAt, TiledUp, PathsIndexed, Placed;
    NewGallery();
    RunKeeps(NEW, ops, t);
    RunNamed(NEW, ops, t);
    forall id <- t.folders
      ensures t.folders[id].name == if PathOf(t, id) == "" then "Gallery" else BaseName(PathOf(t, id))
    {
      assert NamedFolder(t, id);
    }
    forall p ensures DetailsAt(t, p) == Detailed(None, ops, p) {
      RunFiles(NEW, ops, t, p);
      NothingYet(p);
    }
    forall p | FileAt(t, p).Some?
      ensures FileAt(t, p).value.filename == FileName(p)
      ensures FolderAt(t, FolderPath(p)) == Some(FileAt(t, p).value.folder)
    {
      assert NamedFile(t, p) && FilePlaced(t, p);
    }
  }
}
