/**
 The size counter of the HTTP cache and the eviction that it drives.  Rows are kept by
 identifier; a key that is stored again keeps its row.
 */
module CacheSize {

  datatype Row = Row(size: nat, created: int)

  /** One stored entry: the row of its key, or a new one. */
  datatype Entry = Entry(id: nat, size: nat, created: int)

  type Rows = map<nat, Row>

  ghost function Total(rows: Rows): nat {
    if rows == map[] then 0
    else
      var k :| k in rows;
      rows[k].size + Total(rows - {k})
  }

  lemma {:induction false} TotalRemove(rows: Rows, k: nat)
    requires k in rows
    ensures Total(rows) == rows[k].size + Total(rows - {k})
    decreases |rows|
  {
    var j :| j in rows && Total(rows) == rows[j].size + Total(rows - {j});
    if j != k {
      TotalRemove(rows - {j}, k);
      assert (rows - {j}) - {k} == (rows - {k}) - {j};
      TotalRemove(rows - {k}, j);
    }
  }

  lemma TotalDelete(rows: Rows, k: nat)
    ensures Total(rows - {k}) == Total(rows) - (if k in rows then rows[k].size else 0)
  {
    if k in rows {
      TotalRemove(rows, k);
    } else {
      assert rows - {k} == rows;
    }
  }

  /** Storing an entry replaces the body of its row and keeps the time of creation. */
  function Upserted(rows: Rows, e: Entry): Rows {
    rows[e.id := Row(e.size, if e.id in rows then rows[e.id].created else e.created)]
  }

  lemma TotalUpsert(rows: Rows, e: Entry)
    ensures Total(Upserted(rows, e)) == Total(rows) + e.size - (if e.id in rows then rows[e.id].size else 0)
  {
    var after := Upserted(rows, e);
    TotalRemove(after, e.id);
    TotalDelete(rows, e.id);
    assert after - {e.id} == rows - {e.id};
  }

  function Stored(rows: Rows, batch: seq<Entry>): Rows {
    if batch == [] then rows else Upserted(Stored(rows, batch[..|batch| - 1]), batch[|batch| - 1])
  }

  function Bytes(batch: seq<Entry>): nat {
    if batch == [] then 0 else Bytes(batch[..|batch| - 1]) + batch[|batch| - 1].size
  }

  /** The bytes that a batch overwrites, of rows from before and of its own. */
  function Overwritten(rows: Rows, batch: seq<Entry>): nat {
    if batch == [] then 0
    else
      var before, e := Stored(rows, batch[..|batch| - 1]), batch[|batch| - 1];
      Overwritten(rows, batch[..|batch| - 1]) + if e.id in before then before[e.id].size else 0
  }

  /** A batch adds its bytes, less what it overwrites. */
  lemma {:induction false} TotalStored(rows: Rows, batch: seq<Entry>)
    ensures Total(Stored(rows, batch)) == Total(rows) + Bytes(batch) - Overwritten(rows, batch)
  {
    if batch == [] {
    } else {
      var k := |batch| - 1;
      TotalStored(rows, batch[..k]);
      TotalUpsert(Stored(rows, batch[..k]), batch[k]);
    }
  }

  /** No entry after this one is for the same row. */
  predicate LastOfRow(batch: seq<Entry>, i: nat)
    requires i < |batch|
  {
    forall j :: i < j < |batch| ==> batch[j].id != batch[i].id
  }

  /** No entry before this one is for the same row. */
  predicate FirstOfRow(batch: seq<Entry>, i: nat)
    requires i < |batch|
  {
    forall j :: 0 <= j < i ==> batch[j].id != batch[i].id
  }

  /** The row of entry `i` after the batch. */
  ghost predicate RowOfEntry(rows: Rows, batch: seq<Entry>, i: nat)
    requires i < |batch|
  {
    var e := batch[i];
    && e.id in Stored(rows, batch)
    && (LastOfRow(batch, i) ==> Stored(rows, batch)[e.id].size == e.size)
    && (FirstOfRow(batch, i) ==>
          Stored(rows, batch)[e.id].created == if e.id in rows then rows[e.id].created else e.created)
  }

  predicate Touches(batch: seq<Entry>, k: nat) {
    exists i :: 0 <= i < |batch| && batch[i].id == k
  }

  lemma {:induction false} OnlyTouched(rows: Rows, batch: seq<Entry>, k: nat)
    ensures k in Stored(rows, batch) <==> k in rows || Touches(batch, k)
    ensures k in rows && !Touches(batch, k) ==> Stored(rows, batch)[k] == rows[k]
  {
    if batch == [] {
    } else {
      var n := |batch| - 1;
      OnlyTouched(rows, batch[..n], k);
      assert batch[n].id == k ==> Touches(batch, k);
      if i :| 0 <= i < |batch| && batch[i].id == k {
        assert i < n ==> batch[..n][i].id == k;
      }
      if i :| 0 <= i < n && batch[..n][i].id == k {
        assert batch[i].id == k;
      }
    }
  }

  lemma {:induction false} EntryStored(rows: Rows, batch: seq<Entry>, i: nat)
    requires i < |batch|
    ensures RowOfEntry(rows, batch, i)
    decreases |batch|
  {
    var n := |batch| - 1;
    var init, last, e := batch[..n], batch[n], batch[i];
    if i < n {
      EntryStored(rows, init, i);
      assert FirstOfRow(batch, i) ==> FirstOfRow(init, i);
      assert LastOfRow(batch, i) ==> last.id != e.id && LastOfRow(init, i);
    } else {
      OnlyTouched(rows, init, e.id);
      assert FirstOfRow(batch, i) ==> !Touches(init, e.id);
    }
  }

  /**
   After a batch there are exactly the rows of before and those of its entries: each has the body of the
   last entry for it, and the time of creation that it had or else that of the first; the others are untouched.
   */
  lemma StoredExactly(rows: Rows, batch: seq<Entry>)
    ensures forall k: nat :: k in Stored(rows, batch) <==> k in rows || Touches(batch, k)
    ensures forall k <- rows | !Touches(batch, k) :: Stored(rows, batch)[k] == rows[k]
    ensures forall i: nat | i < |batch| :: RowOfEntry(rows, batch, i)
  {
    hide Stored, Touches, RowOfEntry;
    forall k: nat
      ensures k in Stored(rows, batch) <==> k in rows || Touches(batch, k)
      ensures k in rows && !Touches(batch, k) ==> Stored(rows, batch)[k] == rows[k]
    {
      OnlyTouched(rows, batch, k);
    }
    forall i: nat | i < |batch| ensures RowOfEntry(rows, batch, i) {
      EntryStored(rows, batch, i);
    }
  }

  /** The entries of a batch for rows that are in `ids`, or for the others, in their order. */
  function Picked(batch: seq<Entry>, ids: set<nat>, inside: bool): seq<Entry> {
    if batch == [] then []
    else
      var rest, e := Picked(batch[..|batch| - 1], ids, inside), batch[|batch| - 1];
      if (e.id in ids) == inside then rest + [e] else rest
  }

  lemma {:induction false} PickedIDs(batch: seq<Entry>, ids: set<nat>, inside: bool)
    ensures forall e <- Picked(batch, ids, inside) :: (e.id in ids) == inside
  {
    if batch == [] {
    } else {
      PickedIDs(batch[..|batch| - 1], ids, inside);
    }
  }

  lemma NonePicked(rows: Rows, batch: seq<Entry>, ids: set<nat>)
    ensures Picked(batch[..0], ids, true) == [] && Picked(batch[..0], ids, false) == [] && Stored(rows, []) == rows
  {
  }

  lemma PickedNext(batch: seq<Entry>, i: nat, ids: set<nat>)
    requires i < |batch|
    ensures Picked(batch[..i + 1], ids, true)
         == if batch[i].id in ids then Picked(batch[..i], ids, true) + [batch[i]] else Picked(batch[..i], ids, true)
    ensures Picked(batch[..i + 1], ids, false)
         == if batch[i].id in ids then Picked(batch[..i], ids, false) else Picked(batch[..i], ids, false) + [batch[i]]
  {
    assert batch[..i + 1][..i] == batch[..i];
  }

  lemma StoredBack(rows: Rows, batch: seq<Entry>, e: Entry)
    ensures Stored(rows, batch + [e]) == Upserted(Stored(rows, batch), e)
  {
    assert (batch + [e])[..|batch|] == batch;
  }

  /** Entries for other rows can be stored before or after. */
  lemma {:induction false} StoredLater(rows: Rows, a: seq<Entry>, e: Entry, b: seq<Entry>)
    requires forall x <- b :: x.id != e.id
    ensures Stored(rows, a + [e] + b) == Upserted(Stored(rows, a + b), e)
  {
    if b == [] {
      assert a + [e] + b == a + [e] && a + b == a;
      StoredBack(rows, a, e);
    } else {
      hide Stored;
      var init, x := b[..|b| - 1], b[|b| - 1];
      StoredLater(rows, a, e, init);
      assert a + [e] + b == (a + [e] + init) + [x] && a + b == (a + init) + [x];
      StoredBack(rows, a + [e] + init, x);
      StoredBack(rows, a + init, x);
      Swapped(Stored(rows, a + init), e, x);
    }
  }

  lemma Swapped(rows: Rows, e: Entry, x: Entry)
    requires e.id != x.id
    ensures Upserted(Upserted(rows, e), x) == Upserted(Upserted(rows, x), e)
  {
  }

  /** Storing some rows first leaves the same rows as storing the batch in its order. */
  lemma {:induction false} GalleryFirstSame(rows: Rows, batch: seq<Entry>, gallery: set<nat>)
    ensures Stored(rows, Picked(batch, gallery, true) + Picked(batch, gallery, false)) == Stored(rows, batch)
  {
    if batch == [] {
    } else {
      hide Stored, Upserted;
      var init, e := batch[..|batch| - 1], batch[|batch| - 1];
      var p, q := Picked(init, gallery, true), Picked(init, gallery, false);
      GalleryFirstSame(rows, init, gallery);
      StoredBack(rows, init, e);
      assert init + [e] == batch;
      if e.id in gallery {
        PickedIDs(init, gallery, false);
        StoredLater(rows, p, e, q);
      } else {
        StoredBack(rows, p + q, e);
        assert p + (q + [e]) == (p + q) + [e];
      }
    }
  }

  // ----- Eviction ---------------------------------------------------------------------------------

  /** A row of the query for the oldest entries. */
  datatype Candidate = Candidate(id: nat, size: nat)

  const EVICTION_LIMIT := 1000

  /** The answer of that query: the oldest rows first, and no more than the limit. */
  ghost predicate Oldest(rows: Rows, list: seq<Candidate>) {
    && |list| == (if |rows| < EVICTION_LIMIT then |rows| else EVICTION_LIMIT)
    && (forall i :: 0 <= i < |list| ==> list[i].id in rows && rows[list[i].id].size == list[i].size)
    && (forall i, j :: 0 <= i < j < |list| ==> list[i].id != list[j].id)
    && (forall i, j :: 0 <= i < j < |list| ==> rows[list[i].id].created <= rows[list[j].id].created)
    && (forall k <- rows | (forall i :: 0 <= i < |list| ==> list[i].id != k) ::
          forall i :: 0 <= i < |list| ==> rows[list[i].id].created <= rows[k].created)
  }

  function SizeOf(list: seq<Candidate>): nat {
    if list == [] then 0 else SizeOf(list[..|list| - 1]) + list[|list| - 1].size
  }

  function IDs(list: seq<Candidate>): set<nat> {
    set c | c in list :: c.id
  }

  lemma {:induction false} TotalWithout(rows: Rows, list: seq<Candidate>)
    requires forall i :: 0 <= i < |list| ==> list[i].id in rows && rows[list[i].id].size == list[i].size
    requires forall i, j :: 0 <= i < j < |list| ==> list[i].id != list[j].id
    ensures Total(rows - IDs(list)) == Total(rows) - SizeOf(list)
  {
    if list == [] {
      assert rows - IDs(list) == rows;
    } else {
      var rest, last := list[..|list| - 1], list[|list| - 1];
      TotalWithout(rows, rest);
      assert list == rest + [last];
      assert IDs(list) == IDs(rest) + {last.id};
      assert rows - IDs(list) == (rows - IDs(rest)) - {last.id};
      assert last.id !in IDs(rest);
      TotalDelete(rows - IDs(rest), last.id);
    }
  }

  /** When the list has every row, deleting it empties the cache. */
  lemma AllListed(rows: Rows, list: seq<Candidate>)
    requires Oldest(rows, list) && |list| < EVICTION_LIMIT
    ensures rows - IDs(list) == map[]
  {
    IDsSize(list);
    assert IDs(list) <= rows.Keys;
    SameSize(IDs(list), rows.Keys);
  }

  lemma {:induction false} IDsSize(list: seq<Candidate>)
    requires forall i, j :: 0 <= i < j < |list| ==> list[i].id != list[j].id
    ensures |IDs(list)| == |list|
  {
    if list == [] {
    } else {
      var rest, last := list[..|list| - 1], list[|list| - 1];
      IDsSize(rest);
      assert list == rest + [last];
      assert IDs(list) == IDs(rest) + {last.id};
      assert last.id !in IDs(rest);
    }
  }

  lemma SameSize(a: set<nat>, b: set<nat>)
    requires a <= b && |a| == |b|
    ensures a == b
  {
    assert b == a + (b - a);
  }

  lemma NoRows()
    ensures Total(map[]) == 0
  {
  }

  lemma ListLimit(rows: Rows, list: seq<Candidate>)
    requires Oldest(rows, list)
    ensures |list| <= EVICTION_LIMIT
  {
  }

  /** The rows that are left, and the bytes that are freed, when the first `n` candidates are deleted. */
  function Left(rows: Rows, list: seq<Candidate>, n: nat): Rows
    requires n <= |list|
  {
    rows - IDs(list[..n])
  }

  function Freed(list: seq<Candidate>, n: nat): nat
    requires n <= |list|
  {
    SizeOf(list[..n])
  }

  lemma NoneDeleted(rows: Rows, list: seq<Candidate>)
    ensures Left(rows, list, 0) == rows && Freed(list, 0) == 0
  {
    assert IDs(list[..0]) == {};
  }

  lemma OneMore(rows: Rows, list: seq<Candidate>, d: nat)
    requires d < |list|
    ensures Left(rows, list, d + 1) == Left(rows, list, d) - {list[d].id}
    ensures Freed(list, d + 1) == Freed(list, d) + list[d].size
  {
    assert list[..d + 1] == list[..d] + [list[d]];
    assert list[..d + 1][..d] == list[..d];
    assert IDs(list[..d + 1]) == IDs(list[..d]) + {list[d].id};
  }

  lemma FreedTotal(rows: Rows, list: seq<Candidate>, d: nat)
    requires Oldest(rows, list) && d <= |list|
    ensures Total(Left(rows, list, d)) == Total(rows) - Freed(list, d)
  {
    TotalWithout(rows, list[..d]);
  }

  class Cache {
    var rows: Rows
    var counter: int

    constructor (rows: Rows, counter: int)
      ensures this.rows == rows && this.counter == counter
    {
      this.rows := rows;
      this.counter := counter;
    }

    /** Stores the entries of a batch, those of the gallery first; the rows are those of storing it in its order. */
    method StoreBatch(batch: seq<Entry>, gallery: set<nat>)
      modifies this`rows
      ensures rows == Stored(old(rows), batch)
    {
      hide *;
      ghost var before := rows;
      var galleryCache: seq<Entry>, otherCache: seq<Entry> := [], [];
      NonePicked(before, batch, gallery);
      for i := 0 to |batch|
        invariant galleryCache == Picked(batch[..i], gallery, true)
        invariant otherCache == Picked(batch[..i], gallery, false)
        invariant rows == before
      {
        PickedNext(batch, i, gallery);
        if batch[i].id in gallery {
          galleryCache := galleryCache + [batch[i]];
        } else {
          otherCache := otherCache + [batch[i]];
        }
      }
      assert batch[..|batch|] == batch;
      assert galleryCache[..0] == [];
      for i := 0 to |galleryCache|
        invariant rows == Stored(before, galleryCache[..i])
      {
        assert galleryCache[..i + 1] == galleryCache[..i] + [galleryCache[i]];
        StoredBack(before, galleryCache[..i], galleryCache[i]);
        rows := Upserted(rows, galleryCache[i]);
      }
      assert galleryCache[..|galleryCache|] == galleryCache + otherCache[..0];
      for i := 0 to |otherCache|
        invariant rows == Stored(before, galleryCache + otherCache[..i])
      {
        assert galleryCache + otherCache[..i + 1] == (galleryCache + otherCache[..i]) + [otherCache[i]];
        StoredBack(before, galleryCache + otherCache[..i], otherCache[i]);
        rows := Upserted(rows, otherCache[i]);
      }
      assert otherCache[..|otherCache|] == otherCache;
      GalleryFirstSame(before, batch, gallery);
    }

    /**
     Deletes the shortest prefix of the oldest rows that frees `target` bytes, or all of
     them; stops early only at a row that cannot be deleted.
     */
    method EvictLRU(target: int, list: seq<Candidate>, broken: nat) returns (freed: nat, deleted: nat, ok: bool)
      requires Oldest(rows, list)
      modifies this`rows
      ensures deleted <= |list| && rows == Left(old(rows), list, deleted) && freed == Freed(list, deleted)
      ensures forall n: nat :: n < deleted ==> Freed(list, n) < target
      ensures ok ==> freed >= target || deleted == |list|
      ensures !ok ==> deleted == broken && freed < target
      ensures Total(rows) == Total(old(rows)) - freed
    {
      hide *;
      freed, deleted, ok := 0, 0, true;
      ghost var before := rows;
      NoneDeleted(before, list);
      while deleted < |list| && freed < target
        invariant deleted <= |list| && ok
        invariant rows == Left(before, list, deleted) && freed == Freed(list, deleted)
        invariant forall n: nat :: n < deleted ==> Freed(list, n) < target
      {
        if deleted == broken {
          FreedTotal(before, list, deleted);
          return freed, deleted, false;
        }
        OneMore(before, list, deleted);
        rows := rows - {list[deleted].id};
        freed := freed + list[deleted].size;
        deleted := deleted + 1;
      }
      FreedTotal(before, list, deleted);
    }

    /**
     After a batch with cache entries: an eviction that ran to its end leaves enough room,
     unless it deleted as many rows as one eviction may; and it deletes the oldest rows, none more
     than it takes, so that without the last of them there would not have been room.
     */
    method MaybeEvict(maxTotal: int, list: seq<Candidate>, broken: nat) returns (deleted: nat, ok: bool)
      requires Oldest(rows, list) && counter >= Total(rows)
      modifies this
      ensures counter >= Total(rows)
      ensures maxTotal <= 0 || old(counter) <= maxTotal ==>
                rows == old(rows) && counter == old(counter) && deleted == 0 && ok
      ensures maxTotal > 0 && old(counter) > maxTotal && ok ==>
                Total(rows) <= maxTotal - maxTotal / 10 || deleted == EVICTION_LIMIT
      ensures counter - Total(rows) == old(counter) - Total(old(rows))
      ensures deleted <= |list| && rows == Left(old(rows), list, deleted)
      ensures counter == old(counter) - Freed(list, deleted)
      ensures deleted > 0 ==> old(counter) - Freed(list, deleted - 1) > maxTotal - maxTotal / 10
      ensures maxTotal > 0 && old(counter) > maxTotal && ok ==>
                counter <= maxTotal - maxTotal / 10 || deleted == |list|
    {
      hide IDs, Freed, Total, Oldest;
      NoneDeleted(rows, list);
      deleted, ok := 0, true;
      if maxTotal <= 0 {
        return;
      }
      var currentSize := counter;
      if currentSize > maxTotal {
        var targetFree := currentSize - maxTotal + maxTotal / 10;
        var freed;
        freed, deleted, ok := EvictLRU(targetFree, list, broken);
        ListLimit(old(rows), list);
        if freed > 0 {
          counter := counter - freed;
        }
        if ok && freed < targetFree && |list| < EVICTION_LIMIT {
          AllListed(old(rows), list);
          assert list[..|list|] == list;
          NoRows();
        }
      }
    }
  }
}
