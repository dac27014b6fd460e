/**
 Tiles: a file's tile is given to the folder of the file and to the folders above it,
 up to the first one that has a tile already.
 */
module FolderTiles {
  import opened Wrappers
  import opened GalleryTables

  function ParentOf(db: Tables, id: int): Option<int>
    requires id in db.folders
  {
    db.folders[id].parent
  }

  function HasTile(db: Tables, id: int): bool
    requires id in db.folders
  {
    db.folders[id].tile.Some?
  }

  /** Parents have shorter paths. */
  lemma Upward(db: Tables, id: int)
    requires WellFormed(db) && id in db.folders && ParentOf(db, id).Some?
    ensures ParentOf(db, id).value in db.folders
    ensures |PathOf(db, ParentOf(db, id).value)| < |PathOf(db, id)|
  {
    assert Placed(db, id);
    ParentShorter(PathOf(db, id));
  }

  function Height(db: Tables, id: int): nat
    requires WellFormed(db)
  {
    if id in db.folders then |PathOf(db, id)| + 1 else 0
  }

  /** The folders from `id` upward that have no tile, up to the first that has one. */
  function UntiledRun(db: Tables, id: int): seq<int>
    requires WellFormed(db)
    decreases Height(db, id)
  {
    if id !in db.folders || HasTile(db, id) then []
    else if ParentOf(db, id).None? then [id]
    else
      Upward(db, id);
      [id] + UntiledRun(db, ParentOf(db, id).value)
  }

  function WithTiles(db: Tables, ids: seq<int>, tile: int): Tables {
    db.(folders := map id | id in db.folders ::
          if id in ids then db.folders[id].(tile := Some(tile)) else db.folders[id])
  }

  /** A folder with a tile has only ancestors with a tile. */
  ghost predicate TiledUp(db: Tables) {
    forall id <- db.folders | HasTile(db, id) && ParentOf(db, id).Some? ::
      ParentOf(db, id).value in db.folders && HasTile(db, ParentOf(db, id).value)
  }

  /** Tiles are no part of the tree. */
  lemma TilesKeepTree(db: Tables, ids: seq<int>, tile: int)
    requires WellFormed(db)
    ensures WellFormed(WithTiles(db, ids, tile))
    ensures forall path :: FolderAt(WithTiles(db, ids, tile), path) == FolderAt(db, path)
  {
    var t := WithTiles(db, ids, tile);
    assert FoldersIndexed(t);
    forall id <- t.folders ensures Placed(t, id) {
      assert Placed(db, id);
    }
  }

  /** The run starts at the folder, goes from parent to parent, and ends at the root or below a tile. */
  lemma {:induction false} RunShape(db: Tables, id: int)
    requires WellFormed(db)
    ensures var run := UntiledRun(db, id);
            && (run != [] <==> id in db.folders && !HasTile(db, id))
            && (run != [] ==> run[0] == id)
            && (forall i :: 0 <= i < |run| ==> run[i] in db.folders && !HasTile(db, run[i]))
            && (forall i :: 0 <= i < |run| ==> Height(db, run[i]) <= Height(db, id))
            && (forall i :: 0 < i < |run| ==> ParentOf(db, run[i - 1]) == Some(run[i]))
            && (run != [] ==> var top := run[|run| - 1];
                              ParentOf(db, top).None?
                              || (ParentOf(db, top).value in db.folders && HasTile(db, ParentOf(db, top).value)))
    decreases Height(db, id)
  {
    hide WellFormed, PathOf;
    if id !in db.folders || HasTile(db, id) || ParentOf(db, id).None? {
    } else {
      var up := ParentOf(db, id).value;
      HigherUp(db, id);
      RunShape(db, up);
      var run, rest := UntiledRun(db, id), UntiledRun(db, up);
      assert run == [id] + rest;
      assert forall i :: 0 < i < |run| ==> run[i] == rest[i - 1];
    }
  }

  lemma HigherUp(db: Tables, id: int)
    requires WellFormed(db) && id in db.folders && ParentOf(db, id).Some?
    ensures ParentOf(db, id).value in db.folders && Height(db, ParentOf(db, id).value) < Height(db, id)
  {
    Upward(db, id);
  }

  /** Giving the whole run a tile keeps every older tile, and keeps tiled folders below tiled folders. */
  lemma TilesKept(db: Tables, id: int, tile: int)
    requires WellFormed(db)
    ensures var t := WithTiles(db, UntiledRun(db, id), tile);
            && (forall k <- db.folders | HasTile(db, k) :: t.folders[k] == db.folders[k])
            && (TiledUp(db) ==> TiledUp(t))
  {
    hide WellFormed, UntiledRun;
    var run := UntiledRun(db, id);
    RunShape(db, id);
    var t := WithTiles(db, run, tile);
    if TiledUp(db) {
      forall k <- t.folders | HasTile(t, k) && ParentOf(t, k).Some?
        ensures ParentOf(t, k).value in t.folders && HasTile(t, ParentOf(t, k).value)
      {
        if k in run {
          var i :| 0 <= i < |run| && run[i] == k;
          if i + 1 < |run| {
            assert ParentOf(db, run[i]) == Some(run[i + 1]);
          }
        } else {
          assert HasTile(db, k);
        }
      }
    }
  }

  /** The folders above, the folder itself first. */
  function Lineage(db: Tables, id: int): seq<int>
    requires WellFormed(db)
    decreases Height(db, id)
  {
    if id !in db.folders then []
    else if ParentOf(db, id).None? then [id]
    else
      Upward(db, id);
      [id] + Lineage(db, ParentOf(db, id).value)
  }

  lemma {:induction false} LineageTiled(db: Tables, id: int)
    requires WellFormed(db) && TiledUp(db) && id in db.folders && HasTile(db, id)
    ensures forall k <- Lineage(db, id) :: k in db.folders && HasTile(db, k)
    decreases Height(db, id)
  {
    hide WellFormed, PathOf;
    if ParentOf(db, id).None? {
    } else {
      HigherUp(db, id);
      LineageTiled(db, ParentOf(db, id).value);
    }
  }

  /** The run is the untiled part of the lineage. */
  lemma {:induction false} RunOfLineage(db: Tables, id: int, k: int)
    requires WellFormed(db) && TiledUp(db)
    ensures k in UntiledRun(db, id) <==> k in Lineage(db, id) && k in db.folders && !HasTile(db, k)
    decreases Height(db, id)
  {
    hide WellFormed, PathOf, TiledUp;
    if id !in db.folders {
    } else if HasTile(db, id) {
      LineageTiled(db, id);
    } else if ParentOf(db, id).None? {
    } else {
      HigherUp(db, id);
      RunOfLineage(db, ParentOf(db, id).value, k);
    }
  }

  /**
   After a file has given its tile, its folder and every folder above have one: those that
   had none got this tile, and no other row has changed.
   */
  lemma WholeLineageTiled(db: Tables, id: int, tile: int)
    requires WellFormed(db) && TiledUp(db) && id in db.folders
    ensures var t := WithTiles(db, UntiledRun(db, id), tile);
            WellFormed(t) && forall k <- Lineage(t, id) :: k in t.folders && HasTile(t, k)
    ensures var t := WithTiles(db, UntiledRun(db, id), tile);
            && t.folders.Keys == db.folders.Keys
            && forall k <- db.folders ::
                 t.folders[k] == if k in Lineage(db, id) && !HasTile(db, k) then db.folders[k].(tile := Some(tile))
                                 else db.folders[k]
  {
    hide WellFormed, UntiledRun, Lineage, TiledUp;
    RunShape(db, id);
    forall k <- db.folders ensures k in UntiledRun(db, id) <==> k in Lineage(db, id) && !HasTile(db, k) {
      RunOfLineage(db, id, k);
    }
    TilesKept(db, id, tile);
    TilesKeepTree(db, UntiledRun(db, id), tile);
    LineageTiled(WithTiles(db, UntiledRun(db, id), tile), id);
  }

  /** One turn of the walk: the folder gets its tile, and the run goes on above it. */
  lemma RunTurn(db: Tables, start: int, done: seq<int>, id: int, tile: int)
    requires WellFormed(db) && UntiledRun(db, start) == done + UntiledRun(db, id)
    requires forall d <- done :: Height(db, d) > Height(db, id)
    ensures id in db.folders ==> WithTiles(db, done, tile).folders[id] == db.folders[id]
    ensures id !in db.folders || HasTile(db, id) ==> UntiledRun(db, start) == done
    ensures id in db.folders && !HasTile(db, id) ==>
              var t := WithTiles(db, done, tile);
              && t.(folders := t.folders[id := t.folders[id].(tile := Some(tile))]) == WithTiles(db, done + [id], tile)
              && match ParentOf(db, id)
                 case None => UntiledRun(db, start) == done + [id]
                 case Some(up) =>
                   && UntiledRun(db, start) == done + [id] + UntiledRun(db, up)
                   && Height(db, up) < Height(db, id)
                   && forall d <- done + [id] :: Height(db, d) > Height(db, up)
  {
    hide WellFormed, PathOf, Height;
    if id in db.folders {
      assert id !in done;
      if !HasTile(db, id) {
        TileOne(db, done, id, tile);
        hide WithTiles;
        if ParentOf(db, id).Some? {
          HigherUp(db, id);
          assert done + ([id] + UntiledRun(db, ParentOf(db, id).value))
              == done + [id] + UntiledRun(db, ParentOf(db, id).value);
        }
      }
    }
  }

  lemma TileOne(db: Tables, done: seq<int>, id: int, tile: int)
    requires id in db.folders && id !in done
    ensures var t := WithTiles(db, done, tile);
            t.(folders := t.folders[id := t.folders[id].(tile := Some(tile))]) == WithTiles(db, done + [id], tile)
  {
    var t := WithTiles(db, done, tile);
    assert t.folders[id := t.folders[id].(tile := Some(tile))] == WithTiles(db, done + [id], tile).folders;
  }
}
