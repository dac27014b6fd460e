/**
 Table rotation: an empty copy of a table, copies of its indexes under fresh names, and
 a cutover that puts the copy in the table's place.
 */
module TableSwap {
  import opened Wrappers
  import opened SqlText
  import opened IndexNames

  /** A table: its CREATE statement around the name, and its rows. */
  datatype Table = Table(open: seq<Token>, rest: seq<Token>, rows: multiset<int>)

  /** An explicit index: its CREATE statement around the two names. */
  datatype Index = Index(table: string, open: seq<Token>, mid: seq<Token>, rest: seq<Token>)

  datatype Schema = Schema(tables: map<string, Table>, indexes: map<string, Index>)

  function TableText(name: string, t: Table): seq<Token> {
    t.open + [Word(name)] + t.rest
  }

  function IndexText(name: string, x: Index): seq<Token> {
    x.open + [Word(name)] + x.mid + [Word(x.table)] + x.rest
  }

  function DestName(active: string): string {
    active + "_new"
  }

  function StaleName(active: string): string {
    active + "_to_be_dropped"
  }

  lemma ThreeNames(active: string)
    ensures DestName(active) != active && StaleName(active) != active && DestName(active) != StaleName(active)
  {
    assert |DestName(active)| == |active| + 4 && |StaleName(active)| == |active| + 14;
  }

  /** SQLite's own rules: no index is named like a table, and every index is on a table. */
  predicate Sound(s: Schema) {
    && s.tables.Keys !! s.indexes.Keys
    && forall n <- s.indexes :: s.indexes[n].table in s.tables
  }

  // ----- Statements -------------------------------------------------------------------------

  /** DROP TABLE IF EXISTS, with the indexes of the table. */
  function Dropped(s: Schema, table: string): Schema {
    Schema(s.tables - {table}, map n | n in s.indexes && s.indexes[n].table != table :: s.indexes[n])
  }

  predicate NameFree(s: Schema, name: string) {
    name !in s.tables && name !in s.indexes
  }

  /** ALTER TABLE RENAME, with the indexes of the table. */
  function RenamedTable(s: Schema, from: string, to: string): Option<Schema> {
    if from !in s.tables || !NameFree(s, to) then None
    else Some(Schema(
      (s.tables - {from})[to := s.tables[from]],
      map n | n in s.indexes ::
        if s.indexes[n].table == from then s.indexes[n].(table := to) else s.indexes[n]))
  }

  /** The definition that the rewritten CREATE TABLE statement declares. */
  function RewrittenTable(t: Table, active: string, dest: string): Table {
    Table(Substituted(t.open, active, dest), Substituted(t.rest, active, dest), multiset{})
  }

  function Twice(ts: seq<Token>, name: string, free: string, active: string, dest: string): seq<Token> {
    Substituted(Substituted(ts, name, free), active, dest)
  }

  function TwiceWord(w: string, name: string, free: string, active: string, dest: string): string {
    var w' := if w == name then free else w;
    if w' == active then dest else w'
  }

  function RewrittenIndex(x: Index, name: string, free: string, active: string, dest: string): Index {
    Index(TwiceWord(x.table, name, free, active, dest), Twice(x.open, name, free, active, dest),
          Twice(x.mid, name, free, active, dest), Twice(x.rest, name, free, active, dest))
  }

  /** The statement that CloneEmpty builds as text is the statement of the rewritten definition. */
  lemma CloneText(t: Table, active: string, dest: string)
    requires Tokens(TableText(active, t)) && IsWord(active) && IsWord(dest)
    ensures RewriteIdentifier(Render(TableText(active, t)), active, dest)
         == Render(TableText(dest, RewrittenTable(t, active, dest)))
  {
    RewriteIsSubstitution(TableText(active, t), active, dest);
    SubstitutedConcat(t.open + [Word(active)], t.rest, active, dest);
    SubstitutedConcat(t.open, [Word(active)], active, dest);
    SubstitutedOne(Word(active), active, dest);
  }

  /** The statement that CreateIndexes builds with its two rewrites. */
  lemma IndexRewriteText(x: Index, name: string, free: string, active: string, dest: string)
    requires Tokens(IndexText(name, x)) && IsWord(name) && IsWord(free) && IsWord(active) && IsWord(dest)
    requires Tokens(Substituted(IndexText(name, x), name, free))
    ensures RewriteIdentifier(RewriteIdentifier(Render(IndexText(name, x)), name, free), active, dest)
         == Render(IndexText(TwiceWord(name, name, free, active, dest), RewrittenIndex(x, name, free, active, dest)))
  {
    hide Render, RewriteIdentifier;
    var ts := IndexText(name, x);
    RewriteIsSubstitution(ts, name, free);
    RewriteIsSubstitution(Substituted(ts, name, free), active, dest);
    FiveParts(x.open, Word(name), x.mid, Word(x.table), x.rest, name, free);
    FiveParts(Substituted(x.open, name, free), Renamed(Word(name), name, free), Substituted(x.mid, name, free),
              Renamed(Word(x.table), name, free), Substituted(x.rest, name, free), active, dest);
  }

  lemma FiveParts(a: seq<Token>, b: Token, c: seq<Token>, d: Token, e: seq<Token>, from: string, to: string)
    ensures Substituted(a + [b] + c + [d] + e, from, to)
         == Substituted(a, from, to) + [Renamed(b, from, to)] + Substituted(c, from, to)
            + [Renamed(d, from, to)] + Substituted(e, from, to)
  {
    hide Substituted;
    SubstitutedOne(b, from, to);
    SubstitutedOne(d, from, to);
    SubstitutedConcat(a + [b] + c + [d], e, from, to);
    SubstitutedConcat(a + [b] + c, [d], from, to);
    SubstitutedConcat(a + [b], c, from, to);
    SubstitutedConcat(a, [b], from, to);
  }

  // ----- The three phases, as functions of the schema -------------------------------------------

  function Cloned(s: Schema, active: string): Option<Schema> {
    var dest := DestName(active);
    var s1 := Dropped(s, dest);
    if active !in s1.tables || !NameFree(s1, dest) then None
    else Some(s1.(tables := s1.tables[dest := RewrittenTable(s1.tables[active], active, dest)]))
  }

  /** One index of the active table is copied under the name `free`. */
  function CopiedAs(s: Schema, active: string, name: string, free: string): Option<Schema>
    requires name in s.indexes
  {
    var dest := DestName(active);
    var n := TwiceWord(name, name, free, active, dest);
    var x := RewrittenIndex(s.indexes[name], name, free, active, dest);
    if !NameFree(s, n) || x.table !in s.tables then None
    else Some(s.(indexes := s.indexes[n := x]))
  }

  function CutOver(s: Schema, active: string): Option<Schema> {
    match RenamedTable(Dropped(s, StaleName(active)), active, StaleName(active))
    case None => None
    case Some(s1) => RenamedTable(s1, DestName(active), active)
  }

  /** The copies, in order, under the names that were allocated. */
  ghost predicate Copies(s: Schema, active: string, order: seq<string>, names: seq<string>, t: Schema)
    decreases |order|
  {
    && |names| == |order|
    && if order == [] then t == s
       else
         exists u: Schema ::
           && Copies(s, active, order[..|order| - 1], names[..|order| - 1], u)
           && order[|order| - 1] in u.indexes
           && Allocates(order[|order| - 1], u.indexes.Keys, names[|order| - 1])
           && CopiedAs(u, active, order[|order| - 1], names[|order| - 1]) == Some(t)
  }

  /** The explicit indexes of the active table, each once. */
  ghost predicate Enumerates(s: Schema, active: string, order: seq<string>) {
    && (forall n :: n in order <==> n in s.indexes && s.indexes[n].table == active)
    && forall i, j :: 0 <= i < j < |order| ==> order[i] != order[j]
  }

  // ----- The database and its connection ---------------------------------------------------------

  /** A leased connection.  Statement number `fault` of a call is refused by the database. */
  class Connection {
    var schema: Schema
    var puts: nat

    constructor (schema: Schema)
      ensures this.schema == schema && puts == 0
    {
      this.schema := schema;
      puts := 0;
    }

    /** Clones the active table in one transaction. */
    method CloneEmpty(active: string, fault: nat) returns (ok: bool)
      modifies this`schema
      ensures ok ==> Cloned(old(schema), active) == Some(schema)
      ensures !ok ==> schema == old(schema)
      ensures !ok ==> fault <= 4 || Cloned(old(schema), active) == None
    {
      var dest := DestName(active);
      if fault == 0 {
        return false;
      }
      var before := schema;
      if fault == 1 {
        return false;
      }
      schema := Dropped(schema, dest);
      if fault == 2 || active !in schema.tables {
        schema := before;
        return false;
      }
      var table := RewrittenTable(schema.tables[active], active, dest);
      if fault == 3 || !NameFree(schema, dest) {
        schema := before;
        return false;
      }
      schema := schema.(tables := schema.tables[dest := table]);
      if fault == 4 {
        schema := before;
        return false;
      }
      return true;
    }

    /** Copies every index of the active table, in the order that the query returns them. */
    method CreateIndexes(active: string, order: seq<string>, fault: nat) returns (ok: bool, names: seq<string>)
      requires Enumerates(schema, active, order)
      modifies this`schema
      ensures ok ==> Copies(old(schema), active, order, names, schema)
      ensures !ok ==> schema == old(schema)
      ensures !ok ==> fault <= |order| + 1 || DestName(active) !in old(schema).tables
                      || forall ns, t :: !Copies(old(schema), active, order, ns, t)
    {
      names := [];
      var dest := DestName(active);
      if fault == 0 || dest !in schema.tables {
        return false, [];
      }
      var before := schema;
      var i := 0;
      while i < |order|
        invariant 0 <= i <= |order| && |names| == i
        invariant Copies(before, active, order[..i], names, schema)
        invariant forall n <- before.indexes :: n in schema.indexes
      {
        assert order[i] in before.indexes;
        var existing := Elements(schema.indexes.Keys);
        var free := AllocateIndexName(order[i], existing);
        assert (set x | x in existing) == schema.indexes.Keys;
        var n := TwiceWord(order[i], order[i], free, active, dest);
        var x := RewrittenIndex(schema.indexes[order[i]], order[i], free, active, dest);
        if fault == i + 1 || !NameFree(schema, n) || x.table !in schema.tables {
          forall ns, t ensures fault == i + 1 || !Copies(before, active, order, ns, t) {
            if fault != i + 1 && Copies(before, active, order, ns, t) {
              CopiesStuck(before, active, order, names, schema, free, i, ns, t);
            }
          }
          schema := before;
          return false, [];
        }
        ghost var u := schema;
        schema := schema.(indexes := schema.indexes[n := x]);
        CopiesNext(before, active, order, names, u, free, schema, i);
        names := names + [free];
        i := i + 1;
      }
      assert order[..|order|] == order;
      if fault == |order| + 1 {
        schema := before;
        return false, [];
      }
      return true, names;
    }

    /** Drops the stale table in a transaction of its own; whatever happens, the connection is put back. */
    method DropStale(stale: string, fault: nat)
      modifies this
      ensures puts == old(puts) + 1
      ensures schema == if fault <= 2 then old(schema) else Dropped(old(schema), stale)
    {
      if fault == 0 {
        puts := puts + 1;
        return;
      }
      if fault == 1 {
        puts := puts + 1;
        return;
      }
      var before := schema;
      schema := Dropped(schema, stale);
      if fault == 2 {
        schema := before;
      }
      puts := puts + 1;
    }

    /** Puts the copy in the place of the active table; a cutover that fails changes nothing. */
    method Swap(active: string, skipDrop: bool, fault: nat) returns (ok: bool)
      modifies this
      ensures puts == old(puts) + 1
      ensures !ok ==> schema == old(schema)
      ensures !ok ==> fault <= 4 || CutOver(old(schema), active) == None
      ensures ok ==>
                var cut := CutOver(old(schema), active);
                && cut.Some?
                && schema == if skipDrop || fault <= 7 then cut.value else Dropped(cut.value, StaleName(active))
    {
      var dest, stale := DestName(active), StaleName(active);
      if fault == 0 {
        puts := puts + 1;
        return false;
      }
      var before := schema;
      if fault == 1 {
        puts := puts + 1;
        return false;
      }
      schema := Dropped(schema, stale);
      var first := RenamedTable(schema, active, stale);
      if fault == 2 || first.None? {
        schema := before;
        puts := puts + 1;
        return false;
      }
      schema := first.value;
      var second := RenamedTable(schema, dest, active);
      if fault == 3 || second.None? {
        schema := before;
        puts := puts + 1;
        return false;
      }
      schema := second.value;
      if fault == 4 {
        schema := before;
        puts := puts + 1;
        return false;
      }
      if skipDrop {
        puts := puts + 1;
        return true;
      }
      DropStale(stale, if fault >= 5 then fault - 5 else 3);
      return true;
    }
  }

  /** The elements of a set, in some order. */
  method Elements(s: set<string>) returns (q: seq<string>)
    ensures forall x :: x in q <==> x in s
  {
    q := [];
    var left := s;
    while left != {}
      invariant left <= s
      invariant forall x :: x in q <==> x in s && x !in left
      decreases |left|
    {
      var x :| x in left;
      q := q + [x];
      left := left - {x};
    }
  }

  lemma CopiesNext(s: Schema, active: string, order: seq<string>, names: seq<string>, u: Schema, free: string,
                   t: Schema, i: nat)
    requires i < |order| && |names| == i && Copies(s, active, order[..i], names, u)
    requires order[i] in u.indexes && Allocates(order[i], u.indexes.Keys, free)
    requires CopiedAs(u, active, order[i], free) == Some(t)
    ensures Copies(s, active, order[..i + 1], names + [free], t)
  {
    var o, n := order[..i + 1], names + [free];
    assert o[..|o| - 1] == order[..i] && n[..|o| - 1] == names;
    assert o[|o| - 1] == order[i] && n[|o| - 1] == free;
  }

  /** What has been copied of a longer list. */
  lemma {:induction false} CopiesPrefix(s: Schema, active: string, order: seq<string>, names: seq<string>, t: Schema,
                                        i: nat)
    returns (u: Schema)
    requires Copies(s, active, order, names, t) && i <= |order|
    ensures |names| == |order| && Copies(s, active, order[..i], names[..i], u)
    ensures i < |order| ==> order[i] in u.indexes && Allocates(order[i], u.indexes.Keys, names[i])
                            && CopiedAs(u, active, order[i], names[i]).Some?
    decreases |order|
  {
    hide CopiedAs, Allocates;
    if i == |order| {
      assert order[..i] == order && names[..i] == names;
      return t;
    }
    var k := |order| - 1;
    u :| Copies(s, active, order[..k], names[..k], u) && order[k] in u.indexes
         && Allocates(order[k], u.indexes.Keys, names[k]) && CopiedAs(u, active, order[k], names[k]) == Some(t);
    if i < k {
      u := CopiesPrefix(s, active, order[..k], names[..k], u, i);
      assert order[..k][..i] == order[..i] && names[..k][..i] == names[..i];
    }
  }

  /** The order of copying determines the names and the outcome. */
  lemma {:induction false} CopiesOne(s: Schema, active: string, order: seq<string>,
                                     names: seq<string>, t: Schema, names': seq<string>, t': Schema)
    requires Copies(s, active, order, names, t) && Copies(s, active, order, names', t')
    ensures names == names' && t == t'
    decreases |order|
  {
    hide CopiedAs, Allocates;
    if order == [] {
    } else {
      var k := |order| - 1;
      var u: Schema :| Copies(s, active, order[..k], names[..k], u) && order[k] in u.indexes
                       && Allocates(order[k], u.indexes.Keys, names[k])
                       && CopiedAs(u, active, order[k], names[k]) == Some(t);
      var u': Schema :| Copies(s, active, order[..k], names'[..k], u') && order[k] in u'.indexes
                        && Allocates(order[k], u'.indexes.Keys, names'[k])
                        && CopiedAs(u', active, order[k], names'[k]) == Some(t');
      CopiesOne(s, active, order[..k], names[..k], u, names'[..k], u');
      AllocatesOne(order[k], u.indexes.Keys, names[k], names'[k]);
      assert names == names[..k] + [names[k]] && names' == names'[..k] + [names'[k]];
    }
  }

  /** When the next copy is not possible, no choice of names makes the whole list possible. */
  lemma CopiesStuck(s: Schema, active: string, order: seq<string>, names: seq<string>, u: Schema, free: string, i: nat,
                    ns: seq<string>, t: Schema)
    requires i < |order| && Copies(s, active, order[..i], names, u)
    requires order[i] in u.indexes && Allocates(order[i], u.indexes.Keys, free)
             && CopiedAs(u, active, order[i], free).None?
    ensures !Copies(s, active, order, ns, t)
  {
    hide Copies, CopiedAs, Allocates;
    if Copies(s, active, order, ns, t) {
      var v := CopiesPrefix(s, active, order, ns, t, i);
      CopiesOne(s, active, order[..i], names, u, ns[..i], v);
      AllocatesOne(order[i], u.indexes.Keys, free, ns[i]);
    }
  }

  // ----- What a rotation does -----------------------------------------------------------------------

  /** The name occurs in the statements of the active table only as its name. */
  ghost predicate PlainTable(s: Schema, active: string) {
    && active in s.tables
    && Word(active) !in s.tables[active].open && Word(active) !in s.tables[active].rest
  }

  ghost predicate PlainIndex(x: Index, name: string, active: string) {
    forall w | w == Word(name) || w == Word(active) :: w !in x.open && w !in x.mid && w !in x.rest
  }

  /** The copy has the same definition if and only if the name occurs nowhere else in the statement. */
  lemma CloneSame(s: Schema, active: string)
    requires Cloned(s, active).Some?
    ensures var t := Cloned(s, active).value.tables;
            && DestName(active) in t && active in t
            && t[DestName(active)].rows == multiset{}
            && (t[DestName(active)] == t[active].(rows := multiset{}) <==> PlainTable(s, active))
    ensures forall n <- s.tables | n != DestName(active) :: n in Cloned(s, active).value.tables
                                                          && Cloned(s, active).value.tables[n] == s.tables[n]
  {
    hide Substituted;
    ThreeNames(active);
    SubstitutedSame(s.tables[active].open, active, DestName(active));
    SubstitutedSame(s.tables[active].rest, active, DestName(active));
  }

  /** A copied index is the index of the active table, on the copy. */
  lemma CopySame(s: Schema, active: string, name: string, free: string)
    requires Sound(s) && active in s.tables && DestName(active) in s.tables
    requires name in s.indexes && s.indexes[name].table == active
    requires PlainIndex(s.indexes[name], name, active) && free !in s.indexes
    requires CopiedAs(s, active, name, free).Some?
    ensures free !in s.tables
    ensures CopiedAs(s, active, name, free).value
         == s.(indexes := s.indexes[free := s.indexes[name].(table := DestName(active))])
  {
    hide Substituted;
    ThreeNames(active);
    var x, dest := s.indexes[name], DestName(active);
    assert name != active;
    PlainTwice(x.open, name, free, active);
    PlainTwice(x.mid, name, free, active);
    PlainTwice(x.rest, name, free, active);
  }

  lemma PlainTwice(ts: seq<Token>, name: string, free: string, active: string)
    requires Word(name) !in ts && Word(active) !in ts && free != name
    ensures Twice(ts, name, free, active, DestName(active)) == ts
  {
    ThreeNames(active);
    SubstitutedSame(ts, name, free);
    SubstitutedSame(ts, active, DestName(active));
  }

  /** What the copying of the indexes in `order` under `names` has done. */
  ghost predicate CopiedAll(s: Schema, active: string, order: seq<string>, names: seq<string>, t: Schema) {
    && |names| == |order|
    && Sound(t) && t.tables == s.tables
    && (forall n <- s.indexes :: n in t.indexes && t.indexes[n] == s.indexes[n])
    && (forall n <- t.indexes :: n in s.indexes || n in names)
    && (forall i :: 0 <= i < |order| ==>
          && order[i] in s.indexes && names[i] in t.indexes && names[i] !in s.indexes
          && t.indexes[names[i]] == s.indexes[order[i]].(table := DestName(active)))
    && (forall i, j :: 0 <= i < j < |names| ==> names[i] != names[j])
  }

  lemma {:induction false} CopiesAll(s: Schema, active: string, order: seq<string>, names: seq<string>, t: Schema)
    requires Sound(s) && active in s.tables && DestName(active) in s.tables
    requires forall n <- order :: n in s.indexes && s.indexes[n].table == active && PlainIndex(s.indexes[n], n, active)
    requires Copies(s, active, order, names, t)
    ensures CopiedAll(s, active, order, names, t)
    decreases |order|
  {
    hide PlainIndex, Sound, CopiedAs, Allocates;
    if order == [] {
    } else {
      var k := |order| - 1;
      var u: Schema :| Copies(s, active, order[..k], names[..k], u) && order[k] in u.indexes
                       && Allocates(order[k], u.indexes.Keys, names[k])
                       && CopiedAs(u, active, order[k], names[k]) == Some(t);
      CopiesAll(s, active, order[..k], names[..k], u);
      assert order[k] in order;
      AllocatedFree(order[k], u.indexes.Keys, names[k]);
      CopySame(u, active, order[k], names[k]);
      SoundNext(u, order[k], names[k], DestName(active));
      CopiedAllNext(s, active, order, names, u, t);
    }
  }

  lemma AllocatedFree(active: string, taken: set<string>, name: string)
    requires Allocates(active, taken, name)
    ensures name !in taken
  {
  }

  lemma SoundNext(u: Schema, name: string, free: string, dest: string)
    requires Sound(u) && name in u.indexes && free !in u.tables && dest in u.tables
    ensures Sound(u.(indexes := u.indexes[free := u.indexes[name].(table := dest)]))
  {
  }

  lemma CopiedAllNext(s: Schema, active: string, order: seq<string>, names: seq<string>, u: Schema, t: Schema)
    requires order != [] && |names| == |order|
    requires var k := |order| - 1;
             && CopiedAll(s, active, order[..k], names[..k], u)
             && order[k] in s.indexes && names[k] !in u.indexes && Sound(t)
             && t == u.(indexes := u.indexes[names[k] := s.indexes[order[k]].(table := DestName(active))])
    ensures CopiedAll(s, active, order, names, t)
  {
    hide Sound;
    var k := |order| - 1;
    assert names == names[..k] + [names[k]] && order == order[..k] + [order[k]];
    forall i | 0 <= i < k ensures names[i] != names[k] {
      assert names[i] == names[..k][i];
    }
  }

  /** Whether a table has nothing to do with the rotation. */
  predicate Bystander(active: string, table: string) {
    table != active && table != DestName(active) && table != StaleName(active)
  }

  /** After the cutover and the drop the copy is the active table, and the old table and its indexes are gone. */
  ghost predicate Cut(s: Schema, active: string, t: Schema) {
    var dest, stale := DestName(active), StaleName(active);
    && t.tables.Keys == s.tables.Keys - {dest, stale}
    && active in s.tables && dest in s.tables && t.tables[active] == s.tables[dest]
    && (forall n <- s.tables | Bystander(active, n) :: n in t.tables && t.tables[n] == s.tables[n])
    && (forall n :: n in t.indexes <==> n in s.indexes && s.indexes[n].table != active && s.indexes[n].table != stale)
    && (forall n <- t.indexes ::
          t.indexes[n] == if s.indexes[n].table == dest then s.indexes[n].(table := active) else s.indexes[n])
    && Sound(t)
  }

  ghost predicate DropSpec(s: Schema, table: string, t: Schema) {
    && t.tables.Keys == s.tables.Keys - {table}
    && (forall n <- t.tables :: t.tables[n] == s.tables[n])
    && (forall n :: n in t.indexes <==> n in s.indexes && s.indexes[n].table != table)
    && (forall n <- t.indexes :: t.indexes[n] == s.indexes[n])
  }

  ghost predicate RenameSpec(s: Schema, from: string, to: string, t: Schema) {
    && from in s.tables && to !in s.tables
    && t.tables.Keys == s.tables.Keys - {from} + {to}
    && t.tables[to] == s.tables[from]
    && (forall n <- s.tables | n != from :: n in t.tables && t.tables[n] == s.tables[n])
    && t.indexes.Keys == s.indexes.Keys
    && (forall n <- s.indexes :: n in t.indexes && t.indexes[n]
          == if s.indexes[n].table == from then s.indexes[n].(table := to) else s.indexes[n])
  }

  lemma DropStep(s: Schema, table: string)
    ensures DropSpec(s, table, Dropped(s, table)) && (Sound(s) ==> Sound(Dropped(s, table)))
  {
  }

  lemma RenameStep(s: Schema, from: string, to: string)
    requires RenamedTable(s, from, to).Some?
    ensures RenameSpec(s, from, to, RenamedTable(s, from, to).value)
    ensures Sound(s) ==> Sound(RenamedTable(s, from, to).value)
  {
  }

  lemma CutOverCuts(s: Schema, active: string)
    requires Sound(s) && CutOver(s, active).Some?
    ensures Cut(s, active, Dropped(CutOver(s, active).value, StaleName(active)))
  {
    hide DropSpec, RenameSpec, Dropped, RenamedTable, Sound, DestName, StaleName;
    ThreeNames(active);
    var stale, dest := StaleName(active), DestName(active);
    var a := Dropped(s, stale);
    DropStep(s, stale);
    RenameStep(a, active, stale);
    var b := RenamedTable(a, active, stale).value;
    RenameStep(b, dest, active);
    var c := RenamedTable(b, dest, active).value;
    DropStep(c, stale);
    CutTables(s, active, a, b, c, Dropped(c, stale));
    CutIndexes(s, active, a, b, c, Dropped(c, stale));
  }

  lemma CutTables(s: Schema, active: string, a: Schema, b: Schema, c: Schema, t: Schema)
    requires active != DestName(active) && active != StaleName(active) && DestName(active) != StaleName(active)
    requires DropSpec(s, StaleName(active), a) && RenameSpec(a, active, StaleName(active), b)
    requires RenameSpec(b, DestName(active), active, c) && DropSpec(c, StaleName(active), t)
    ensures var dest, stale := DestName(active), StaleName(active);
            && t.tables.Keys == s.tables.Keys - {dest, stale}
            && active in s.tables && dest in s.tables && t.tables[active] == s.tables[dest]
            && forall n <- s.tables | Bystander(active, n) :: n in t.tables && t.tables[n] == s.tables[n]
  {
    hide DestName, StaleName;
    assert t.tables.Keys == s.tables.Keys - {DestName(active), StaleName(active)};
  }

  lemma CutIndexes(s: Schema, active: string, a: Schema, b: Schema, c: Schema, t: Schema)
    requires active != DestName(active) && active != StaleName(active) && DestName(active) != StaleName(active)
    requires DropSpec(s, StaleName(active), a) && RenameSpec(a, active, StaleName(active), b)
    requires RenameSpec(b, DestName(active), active, c) && DropSpec(c, StaleName(active), t)
    ensures forall n :: n in t.indexes <==> n in s.indexes && s.indexes[n].table != active
                                            && s.indexes[n].table != StaleName(active)
    ensures forall n <- t.indexes :: t.indexes[n]
              == if s.indexes[n].table == DestName(active) then s.indexes[n].(table := active) else s.indexes[n]
  {
    hide DestName, StaleName;
    forall n ensures n in t.indexes <==> n in s.indexes && s.indexes[n].table != active
                                         && s.indexes[n].table != StaleName(active)
    {
      if n in a.indexes {
        assert n in b.indexes.Keys && n in c.indexes.Keys;
      }
      if n in t.indexes {
        assert n in c.indexes.Keys && n in b.indexes.Keys;
      }
    }
  }

  /** A complete rotation: clone, copy the indexes, cut over, drop the stale table. */
  ghost predicate Rotation(s: Schema, active: string, order: seq<string>, names: seq<string>, t: Schema) {
    exists u: Schema :: RotationBy(s, active, order, names, u, t)
  }

  ghost predicate RotationBy(s: Schema, active: string, order: seq<string>, names: seq<string>, u: Schema, t: Schema) {
    && Cloned(s, active).Some?
    && Enumerates(Cloned(s, active).value, active, order)
    && Copies(Cloned(s, active).value, active, order, names, u)
    && CutOver(u, active).Some?
    && t == Dropped(CutOver(u, active).value, StaleName(active))
  }

  /** What a rotation leaves of the tables. */
  ghost predicate TablesRotated(s: Schema, active: string, t: Schema) {
    && t.tables.Keys == s.tables.Keys - {DestName(active), StaleName(active)}
    && active in s.tables && active in t.tables && t.tables[active] == s.tables[active].(rows := multiset{})
    && forall n <- s.tables | Bystander(active, n) :: n in t.tables && t.tables[n] == s.tables[n]
  }

  /** The copy of an index has taken its place under a name of its own. */
  ghost predicate Moved(s: Schema, order: seq<string>, names: seq<string>, t: Schema, i: nat)
    requires |names| == |order| && i < |order|
  {
    && order[i] in s.indexes && names[i] in t.indexes && t.indexes[names[i]] == s.indexes[order[i]]
    && names[i] !in order
  }

  ghost predicate Untouched(s: Schema, names: seq<string>, t: Schema, n: string) {
    n in s.indexes && n in t.indexes && t.indexes[n] == s.indexes[n] && n !in names
  }

  /** What a rotation leaves of the indexes. */
  ghost predicate IndexesRotated(s: Schema, active: string, order: seq<string>, names: seq<string>, t: Schema) {
    && |names| == |order|
    && (forall i: nat :: i < |order| ==> Moved(s, order, names, t, i))
    && (forall i, j :: 0 <= i < j < |names| ==> names[i] != names[j])
    && (forall n <- s.indexes | Bystander(active, s.indexes[n].table) :: Untouched(s, names, t, n))
    && (forall n <- t.indexes ::
          n in names || (n in s.indexes && Untouched(s, names, t, n) && Bystander(active, s.indexes[n].table)))
  }

  lemma CloneSound(s: Schema, active: string)
    requires Sound(s) && Cloned(s, active).Some?
    ensures Sound(Cloned(s, active).value)
    ensures var t := Cloned(s, active).value;
            forall n :: n in t.indexes <==> n in s.indexes && s.indexes[n].table != DestName(active)
    ensures forall n <- Cloned(s, active).value.indexes :: Cloned(s, active).value.indexes[n] == s.indexes[n]
  {
    ThreeNames(active);
  }

  /**
   A rotation leaves the active table with the same definition and no rows, and with one
   index for each explicit index it had, the same but for its name, under names distinct
   from each other and from every other index; no other table or index has changed.
   */
  lemma RotationResult(s: Schema, active: string, order: seq<string>, names: seq<string>, t: Schema)
    requires Sound(s) && PlainTable(s, active)
    requires forall n <- s.indexes | s.indexes[n].table == active :: PlainIndex(s.indexes[n], n, active)
    requires Rotation(s, active, order, names, t)
    ensures Sound(t) && TablesRotated(s, active, t) && IndexesRotated(s, active, order, names, t)
  {
    hide *;
    var u := RotationMiddle(s, active, order, names, t);
    var c := Cloned(s, active).value;
    RotationBefore(s, active, order, names, u, t);
    RotationTables(s, active, order, names, c, u, t);
    IndexesFollow(s, active, order, names, c, u, t);
  }

  lemma RotationMiddle(s: Schema, active: string, order: seq<string>, names: seq<string>, t: Schema) returns (u: Schema)
    requires Rotation(s, active, order, names, t)
    ensures RotationBy(s, active, order, names, u, t) && Cloned(s, active).Some?
  {
    hide RotationBy;
    u :| RotationBy(s, active, order, names, u, t);
    RotationClones(s, active, order, names, u, t);
  }

  lemma RotationClones(s: Schema, active: string, order: seq<string>, names: seq<string>, u: Schema, t: Schema)
    requires RotationBy(s, active, order, names, u, t)
    ensures Cloned(s, active).Some?
  {
  }

  lemma RotationBefore(s: Schema, active: string, order: seq<string>, names: seq<string>, u: Schema, t: Schema)
    requires Sound(s) && PlainTable(s, active)
    requires forall n <- s.indexes | s.indexes[n].table == active :: PlainIndex(s.indexes[n], n, active)
    requires Cloned(s, active).Some? && RotationBy(s, active, order, names, u, t)
    ensures Before(s, active, order, names, Cloned(s, active).value, u, t) && Sound(t)
  {
    hide Copies, CutOver, Cloned, Dropped, PlainIndex, Sound, Cut, DestName, StaleName, CopiedAll;
    var c := Cloned(s, active).value;
    ThreeNames(active);
    CloneSound(s, active);
    CloneSame(s, active);
    CopiesAll(c, active, order, names, u);
    AllSound(c, active, order, names, u);
    CutOverCuts(u, active);
    CutSound(u, active, t);
  }

  lemma AllSound(c: Schema, active: string, order: seq<string>, names: seq<string>, u: Schema)
    requires CopiedAll(c, active, order, names, u)
    ensures Sound(u) && u.tables == c.tables
  {
    hide Sound;
  }

  lemma RotationTables(s: Schema, active: string, order: seq<string>, names: seq<string>, c: Schema, u: Schema,
                       t: Schema)
    requires PlainTable(s, active) && Cloned(s, active) == Some(c) && Before(s, active, order, names, c, u, t)
    ensures TablesRotated(s, active, t)
  {
    hide Cloned, Cut, PlainTable, CopiedAll, TablesRotated, Enumerates, DestName, StaleName;
    CloneSame(s, active);
    CloneTables(s, active);
    AllSound(c, active, order, names, u);
    TablesFollow(s, active, c, u, t);
  }

  lemma CutSound(s: Schema, active: string, t: Schema)
    requires Cut(s, active, t)
    ensures Sound(t)
  {
  }

  lemma CloneTables(s: Schema, active: string)
    requires Cloned(s, active).Some?
    ensures Cloned(s, active).value.tables.Keys == s.tables.Keys + {DestName(active)}
  {
  }

  lemma TablesFollow(s: Schema, active: string, c: Schema, u: Schema, t: Schema)
    requires c.tables.Keys == s.tables.Keys + {DestName(active)} && u.tables == c.tables && Cut(u, active, t)
    requires active in s.tables && DestName(active) in c.tables && active in c.tables && DestName(active) != active
    requires c.tables[DestName(active)] == c.tables[active].(rows := multiset{})
    requires StaleName(active) != active
    requires forall n <- s.tables | n != DestName(active) :: n in c.tables && c.tables[n] == s.tables[n]
    ensures TablesRotated(s, active, t)
  {
    hide Sound;
  }

  /** The clone, and the clone with the copied indexes, before the cutover to `t`. */
  ghost predicate Before(s: Schema, active: string, order: seq<string>, names: seq<string>, c: Schema, u: Schema,
                         t: Schema) {
    && DestName(active) != active && StaleName(active) != active && DestName(active) != StaleName(active)
    && (forall n :: n in c.indexes <==> n in s.indexes && s.indexes[n].table != DestName(active))
    && (forall n <- c.indexes :: c.indexes[n] == s.indexes[n])
    && Enumerates(c, active, order) && CopiedAll(c, active, order, names, u) && Cut(u, active, t)
  }

  lemma IndexFollows(s: Schema, active: string, order: seq<string>, names: seq<string>, c: Schema, u: Schema,
                     t: Schema, i: nat)
    requires Before(s, active, order, names, c, u, t) && i < |order|
    ensures |names| == |order| && Moved(s, order, names, t, i)
  {
    hide Sound, DestName, StaleName;
    assert order[i] in order;
    assert names[i] in u.indexes && u.indexes[names[i]].table == DestName(active);
    assert names[i] !in c.indexes;
  }

  lemma BystanderFollows(s: Schema, active: string, order: seq<string>, names: seq<string>, c: Schema, u: Schema,
                         t: Schema, n: string)
    requires Before(s, active, order, names, c, u, t)
    requires n in s.indexes && Bystander(active, s.indexes[n].table)
    ensures Untouched(s, names, t, n)
  {
    hide Sound, DestName, StaleName;
    assert n in c.indexes;
  }

  lemma NothingElse(s: Schema, active: string, order: seq<string>, names: seq<string>, c: Schema, u: Schema,
                    t: Schema, n: string)
    requires Before(s, active, order, names, c, u, t) && n in t.indexes
    ensures n in names || (n in s.indexes && Untouched(s, names, t, n) && Bystander(active, s.indexes[n].table))
  {
    hide Sound, DestName, StaleName;
    if n !in names {
      assert n in c.indexes && c.indexes[n] == u.indexes[n];
    }
  }

  lemma NamesDistinct(s: Schema, active: string, order: seq<string>, names: seq<string>, c: Schema, u: Schema,
                      t: Schema)
    requires Before(s, active, order, names, c, u, t)
    ensures |names| == |order| && forall i, j :: 0 <= i < j < |names| ==> names[i] != names[j]
  {
    hide Sound, DestName, StaleName, Cut, Enumerates;
  }

  lemma IndexesFollow(s: Schema, active: string, order: seq<string>, names: seq<string>, c: Schema, u: Schema,
                      t: Schema)
    requires Before(s, active, order, names, c, u, t)
    ensures IndexesRotated(s, active, order, names, t)
  {
    hide Before, Moved, Untouched, Bystander;
    NamesDistinct(s, active, order, names, c, u, t);
    forall i: nat | i < |order| ensures Moved(s, order, names, t, i) {
      IndexFollows(s, active, order, names, c, u, t, i);
    }
    forall n <- s.indexes | Bystander(active, s.indexes[n].table) ensures Untouched(s, names, t, n) {
      BystanderFollows(s, active, order, names, c, u, t, n);
    }
    forall n <- t.indexes
      ensures n in names || (n in s.indexes && Untouched(s, names, t, n) && Bystander(active, s.indexes[n].table))
    {
      NothingElse(s, active, order, names, c, u, t, n);
    }
  }

  // ----- When a rotation succeeds ----------------------------------------------------------------------

  /** No table, present or to come, is named like a copy of an index of the active table could be. */
  ghost predicate NoClash(s: Schema, active: string) {
    && DestName(active) !in s.indexes && StaleName(active) !in s.indexes
    && forall n <- s.indexes | s.indexes[n].table == active ::
         && Root(n) != Root(DestName(active)) && Root(n) != Root(StaleName(active))
         && forall m <- s.tables :: Root(n) != Root(m)
  }

  ghost predicate RootsApart(s: Schema, order: seq<string>) {
    forall n <- order, m <- s.tables :: Root(n) != Root(m)
  }

  ghost predicate AllPlain(s: Schema, active: string) {
    && PlainTable(s, active)
    && forall n <- s.indexes | s.indexes[n].table == active :: PlainIndex(s.indexes[n], n, active)
  }

  /** Copies are allocated names with the roots of the originals. */
  lemma {:induction false} CopiesRoots(s: Schema, active: string, order: seq<string>, names: seq<string>, t: Schema)
    requires Copies(s, active, order, names, t)
    ensures forall i :: 0 <= i < |order| ==> Root(names[i]) == Root(order[i])
    decreases |order|
  {
    hide Root, CopiedAs, Allocates;
    if order == [] {
    } else {
      var k := |order| - 1;
      var u: Schema :| Copies(s, active, order[..k], names[..k], u) && order[k] in u.indexes
                       && Allocates(order[k], u.indexes.Keys, names[k])
                       && CopiedAs(u, active, order[k], names[k]) == Some(t);
      CopiesRoots(s, active, order[..k], names[..k], u);
      AllocatesRoot(order[k], u.indexes.Keys, names[k]);
      forall i | 0 <= i < k ensures Root(names[i]) == Root(order[i]) {
        assert order[..k][i] == order[i] && names[..k][i] == names[i];
      }
    }
  }

  /** The next index can be copied under any name that is allocated for it. */
  lemma CopyPossible(u: Schema, active: string, name: string, free: string)
    requires Sound(u) && active in u.tables && DestName(active) in u.tables
    requires name in u.indexes && u.indexes[name].table == active
    requires Allocates(name, u.indexes.Keys, free) && forall m <- u.tables :: Root(name) != Root(m)
    ensures CopiedAs(u, active, name, free).Some?
  {
    hide Root, Substituted, Allocates;
    AllocatesRoot(name, u.indexes.Keys, free);
    AllocatedFree(name, u.indexes.Keys, free);
    assert free !in u.tables;
  }

  lemma {:induction false} CopiesExist(s: Schema, active: string, order: seq<string>) returns (names: seq<string>,
                                       t: Schema)
    requires Sound(s) && active in s.tables && DestName(active) in s.tables && RootsApart(s, order)
    requires forall n <- order :: n in s.indexes && s.indexes[n].table == active && PlainIndex(s.indexes[n], n, active)
    ensures Copies(s, active, order, names, t)
    decreases |order|
  {
    hide PlainIndex, CopiedAs, Allocates, Root, Sound;
    if order == [] {
      return [], s;
    }
    var k := |order| - 1;
    var rest, u := CopiesExist(s, active, order[..k]);
    CopiesAll(s, active, order[..k], rest, u);
    assert order[k] in order;
    var free := AllocationExists(order[k], u.indexes.Keys);
    CopyPossible(u, active, order[k], free);
    names := rest + [free];
    t := CopiedAs(u, active, order[k], free).value;
    assert names[..k] == rest;
    assert Copies(s, active, order[..k], names[..k], u);
  }

  /** After the copying the cutover finds its names free. */
  lemma CutOverPossible(u: Schema, active: string)
    requires Sound(u) && active in u.tables && DestName(active) in u.tables && StaleName(active) !in u.indexes
    ensures CutOver(u, active).Some?
  {
    ThreeNames(active);
    DropStep(u, StaleName(active));
    RenameStep(Dropped(u, StaleName(active)), active, StaleName(active));
  }

  /**
   When no statement is refused, a rotation of an existing table goes through to its end,
   in whatever order the indexes are copied, unless a name clashes.
   */
  lemma RotationSucceeds(s: Schema, active: string, order: seq<string>) returns (names: seq<string>, t: Schema)
    requires Sound(s) && AllPlain(s, active) && NoClash(s, active) && Enumerates(s, active, order)
    ensures Rotation(s, active, order, names, t)
  {
    hide Cloned, Copies, CutOver, Dropped, PlainIndex, Root, Sound, RootsApart, AllPlain, NoClash, Enumerates;
    CloneSucceeds(s, active, order);
    var c := Cloned(s, active).value;
    var u;
    names, u := CopiesExist(c, active, order);
    CopiesAll(c, active, order, names, u);
    StaleNotCopied(c, active, order, names, u);
    CutOverPossible(u, active);
    t := Dropped(CutOver(u, active).value, StaleName(active));
    assert RotationBy(s, active, order, names, u, t);
  }

  lemma CloneSucceeds(s: Schema, active: string, order: seq<string>)
    requires Sound(s) && AllPlain(s, active) && NoClash(s, active) && Enumerates(s, active, order)
    ensures Cloned(s, active).Some?
    ensures var c := Cloned(s, active).value;
            && Sound(c) && active in c.tables && DestName(active) in c.tables
            && StaleName(active) !in c.indexes && Enumerates(c, active, order) && RootsApart(c, order)
            && (forall n <- order ::
                  n in c.indexes && c.indexes[n].table == active && PlainIndex(c.indexes[n], n, active))
            && forall n <- order :: Root(n) != Root(StaleName(active))
  {
    hide PlainIndex, Root, Sound, RewrittenTable;
    ThreeNames(active);
    DropStep(s, DestName(active));
    CloneSound(s, active);
    CloneTables(s, active);
  }

  lemma StaleNotCopied(c: Schema, active: string, order: seq<string>, names: seq<string>, u: Schema)
    requires Copies(c, active, order, names, u) && CopiedAll(c, active, order, names, u)
    requires StaleName(active) !in c.indexes && forall n <- order :: Root(n) != Root(StaleName(active))
    ensures StaleName(active) !in u.indexes
  {
    hide Root, Sound, StaleName;
    CopiesRoots(c, active, order, names, u);
    hide Copies;
    forall i | 0 <= i < |names| ensures Root(names[i]) != Root(StaleName(active)) {
      assert order[i] in order;
    }
  }

  /**
   Rotates a table over one leased connection, which is put back on each path.  A refused
   clone leaves the schema as it was; a refused copy or cutover leaves the empty clone.
   When no statement is refused and no name clashes, the rotation is complete.
   */
  method RotateTable(db: Connection, active: string, order: seq<string>, faults: (nat, nat, nat))
    returns (ok: bool, names: seq<string>)
    requires Sound(db.schema) && AllPlain(db.schema, active) && NoClash(db.schema, active)
    requires Enumerates(db.schema, active, order)
    modifies db
    ensures db.puts == old(db.puts) + 1
    ensures faults.0 > 4 && faults.1 > |order| + 1 && faults.2 > 7 ==> ok
    ensures ok && faults.2 > 7 ==> Rotation(old(db.schema), active, order, names, db.schema)
    ensures !ok ==> db.schema == old(db.schema)
                    || (exists ns :: Copies(Cloned(old(db.schema), active).value, active, order, ns, db.schema))
                    || Cloned(old(db.schema), active) == Some(db.schema)
  {
    hide Copies, CutOver, Cloned, Dropped, Sound, AllPlain, NoClash;
    ghost var s := db.schema;
    ghost var names', t := RotationSucceeds(s, active, order);
    ghost var u: Schema :| RotationBy(s, active, order, names', u, t);
    ghost var c := Cloned(s, active).value;
    assert Copies(c, active, order, names', u);
    CloneTables(s, active);
    names := [];
    ok := db.CloneEmpty(active, faults.0);
    if !ok {
      db.puts := db.puts + 1;
      return;
    }
    assert db.schema == c;
    ok, names := db.CreateIndexes(active, order, faults.1);
    if !ok {
      db.puts := db.puts + 1;
      return;
    }
    CopiesOne(c, active, order, names, db.schema, names', u);
    ok := db.Swap(active, false, faults.2);
  }

  // ----- The name after one rotation --------------------------------------------------------------------

  /** The copy of the index `name` is called `next`. */
  ghost predicate Goes(order: seq<string>, names: seq<string>, name: string, next: string) {
    |names| == |order| && forall i :: 0 <= i < |order| && order[i] == name ==> names[i] == next
  }

  /** The other name is no index name once the destination is dropped. */
  ghost predicate OtherFree(s: Schema, active: string, base: string, name: string) {
    var o := Other(base, name);
    o in s.indexes ==> s.indexes[o].table == DestName(active)
  }

  /** Another index of the active table, which takes the other name when it is copied first. */
  ghost predicate Hinders(s: Schema, active: string, base: string, name: string, m: string) {
    && m in s.indexes && s.indexes[m].table == active && m != name
    && (StripIndexSuffix(m) == base || StripIndexSuffix(m) == Other(base, name))
  }

  ghost predicate Unhindered(s: Schema, active: string, base: string, name: string) {
    OtherFree(s, active, base, name) && forall m <- s.indexes :: !Hinders(s, active, base, name, m)
  }

  ghost predicate Copyable(s: Schema, active: string, order: seq<string>) {
    && Sound(s) && active in s.tables && DestName(active) in s.tables
    && (forall i, j :: 0 <= i < j < |order| ==> order[i] != order[j])
    && forall n <- order :: n in s.indexes && s.indexes[n].table == active && PlainIndex(s.indexes[n], n, active)
  }

  lemma CopyableFirst(s: Schema, active: string, order: seq<string>, k: nat)
    requires Copyable(s, active, order) && k < |order|
    ensures Copyable(s, active, order[..k]) && order[k] !in order[..k] && order[k] in s.indexes
  {
    hide Sound, PlainIndex;
    assert order[k] in order;
    forall n <- order[..k] ensures n in order {
    }
  }

  /** Until the index itself is copied its other name stays free. */
  lemma {:induction false} CopiesGo(s: Schema, active: string, order: seq<string>, names: seq<string>, t: Schema,
                                    base: string, name: string)
    requires Copies(s, active, order, names, t) && Copyable(s, active, order)
    requires OfPair(base, name) && name in s.indexes && Other(base, name) !in s.indexes
    requires forall m <- order :: !Hinders(s, active, base, name, m)
    ensures Goes(order, names, name, Other(base, name)) && (name !in order ==> Other(base, name) !in names)
    decreases |order|
  {
    hide CopiedAs, Allocates, Copyable, Other, OfPair, Hinders, CopiedAll;
    if order == [] {
    } else {
      var k := |order| - 1;
      var u: Schema :| Copies(s, active, order[..k], names[..k], u) && order[k] in u.indexes
                       && Allocates(order[k], u.indexes.Keys, names[k])
                       && CopiedAs(u, active, order[k], names[k]) == Some(t);
      CopyableFirst(s, active, order, k);
      CopiesGo(s, active, order[..k], names[..k], u, base, name);
      assert CopiedAll(s, active, order[..k], names[..k], u) by {
        CopyableCopies(s, active, order[..k], names[..k], u);
      }
      GoesNext(s, active, order, names, u, base, name);
    }
  }

  lemma CopyableCopies(s: Schema, active: string, order: seq<string>, names: seq<string>, t: Schema)
    requires Copies(s, active, order, names, t) && Copyable(s, active, order)
    ensures CopiedAll(s, active, order, names, t)
  {
    CopiesAll(s, active, order, names, t);
  }

  lemma GoesNext(s: Schema, active: string, order: seq<string>, names: seq<string>, u: Schema, base: string,
                 name: string)
    requires order != [] && |names| == |order| && Copyable(s, active, order)
    requires OfPair(base, name) && name in s.indexes && Other(base, name) !in s.indexes
    requires forall m <- order :: !Hinders(s, active, base, name, m)
    requires var k := |order| - 1;
             && Goes(order[..k], names[..k], name, Other(base, name))
             && (name !in order[..k] ==> Other(base, name) !in names[..k])
             && CopiedAll(s, active, order[..k], names[..k], u)
             && Allocates(order[k], u.indexes.Keys, names[k])
    ensures Goes(order, names, name, Other(base, name)) && (name !in order ==> Other(base, name) !in names)
  {
    hide Allocates, CopiedAll, Goes, Other, OfPair, Hinders, Copyable, StripIndexSuffix;
    var k := |order| - 1;
    assert order[k] in order;
    CopyableFirst(s, active, order, k);
    if name !in order[..k] {
      StillFree(s, active, order[..k], names[..k], u, base, name);
      TakesOther(base, name, u.indexes.Keys, order[k], names[k]);
      assert names[k] == Other(base, name) <==> order[k] == name by {
        HindersOrNot(s, active, order, base, name, order[k]);
      }
    }
    GoesBack(order, names, name, Other(base, name));
  }

  lemma StillFree(s: Schema, active: string, order: seq<string>, names: seq<string>, u: Schema, base: string,
                  name: string)
    requires CopiedAll(s, active, order, names, u) && name in s.indexes
    requires Other(base, name) !in s.indexes && Other(base, name) !in names
    ensures name in u.indexes && Other(base, name) !in u.indexes
  {
    hide Other, Sound;
  }

  lemma HindersOrNot(s: Schema, active: string, order: seq<string>, base: string, name: string, m: string)
    requires Copyable(s, active, order) && m in order && OfPair(base, name) && !Hinders(s, active, base, name, m)
    ensures m == name <==> StripIndexSuffix(m) == base || StripIndexSuffix(m) == Other(base, name)
  {
    hide Other, OfPair, StripIndexSuffix, Sound, PlainIndex;
    PairStrips(base, name);
  }

  lemma GoesBack(order: seq<string>, names: seq<string>, name: string, next: string)
    requires order != [] && |names| == |order|
    requires var k := |order| - 1;
             && Goes(order[..k], names[..k], name, next) && order[k] !in order[..k]
             && (name !in order[..k] ==> next !in names[..k] && (names[k] == next <==> order[k] == name))
    ensures Goes(order, names, name, next) && (name !in order ==> next !in names)
  {
    var k := |order| - 1;
    assert order == order[..k] + [order[k]] && names == names[..k] + [names[k]];
    forall i | 0 <= i < k && order[i] == name ensures names[i] == next {
      assert order[..k][i] == order[i] && names[..k][i] == names[i];
    }
  }

  /** The first copy gets its name before any other is made. */
  lemma FirstCopy(s: Schema, active: string, order: seq<string>, names: seq<string>, t: Schema)
    requires Copies(s, active, order, names, t) && order != []
    ensures |names| == |order| && Allocates(order[0], s.indexes.Keys, names[0])
  {
    hide CopiedAs, Allocates;
    var u := CopiesPrefix(s, active, order, names, t, 0);
  }

  /** A set in some order, with a given element first. */
  lemma {:induction false} Ordered(s: set<string>) returns (q: seq<string>)
    ensures (forall x :: x in q <==> x in s) && forall i, j :: 0 <= i < j < |q| ==> q[i] != q[j]
    decreases |s|
  {
    if s == {} {
      q := [];
    } else {
      var x :| x in s;
      var rest := Ordered(s - {x});
      q := [x] + rest;
    }
  }

  lemma OrderFrom(s: Schema, active: string, m: string) returns (order: seq<string>)
    requires m in s.indexes && s.indexes[m].table == active
    ensures Enumerates(s, active, order) && order != [] && order[0] == m
  {
    var all := set n | n in s.indexes && s.indexes[n].table == active;
    var rest := Ordered(all - {m});
    order := [m] + rest;
  }

  /** When the other name is taken, or a hindering index goes first, the index gets another name. */
  lemma HinderedMisses(s: Schema, active: string, order: seq<string>, names: seq<string>, t: Schema, base: string,
                       name: string)
    requires Copies(s, active, order, names, t) && Copyable(s, active, order)
    requires OfPair(base, name) && name in order
    requires Other(base, name) in s.indexes || Hinders(s, active, base, name, order[0])
    ensures !Goes(order, names, name, Other(base, name))
  {
    hide Copies, Allocates, Copyable, Other, OfPair, StripIndexSuffix, Sound;
    CopyableCopies(s, active, order, names, t);
    var i :| 0 <= i < |order| && order[i] == name;
    if Other(base, name) !in s.indexes {
      FirstCopy(s, active, order, names, t);
      TakesOther(base, name, s.indexes.Keys, order[0], names[0]);
      assert i > 0;
    }
  }

  /** The clone has the indexes that are not on the destination, and everything copying needs. */
  lemma CloneReady(s: Schema, active: string, order: seq<string>)
    requires Sound(s) && AllPlain(s, active) && Cloned(s, active).Some?
    requires Enumerates(Cloned(s, active).value, active, order)
    ensures Copyable(Cloned(s, active).value, active, order)
    ensures forall n ::
              n in Cloned(s, active).value.indexes <==> n in s.indexes && s.indexes[n].table != DestName(active)
  {
    hide Cloned, PlainIndex, Sound;
    CloneSound(s, active);
    CloneTables(s, active);
  }

  lemma GoesWhenUnhindered(s: Schema, active: string, order: seq<string>, names: seq<string>, t: Schema,
                           base: string, name: string)
    requires Sound(s) && AllPlain(s, active) && Rotation(s, active, order, names, t)
    requires OfPair(base, name) && name in s.indexes && s.indexes[name].table == active
    requires Unhindered(s, active, base, name)
    ensures Goes(order, names, name, Other(base, name))
  {
    hide Copies, CutOver, Cloned, Dropped, PlainIndex, Sound, Other, OfPair, StripIndexSuffix;
    var u: Schema :| RotationBy(s, active, order, names, u, t);
    var c := Cloned(s, active).value;
    ThreeNames(active);
    CloneReady(s, active, order);
    CloneSound(s, active);
    CopiesGo(c, active, order, names, u, base, name);
  }

  /** An order of copying in which the index misses its other name. */
  lemma MissesWhenHindered(s: Schema, active: string, base: string, name: string)
    returns (order: seq<string>, names: seq<string>, t: Schema)
    requires Sound(s) && AllPlain(s, active) && NoClash(s, active)
    requires OfPair(base, name) && name in s.indexes && s.indexes[name].table == active
    requires !Unhindered(s, active, base, name)
    ensures Rotation(s, active, order, names, t) && !Goes(order, names, name, Other(base, name))
  {
    hide Copies, CutOver, Cloned, Dropped, PlainIndex, Sound, Root, Other, OfPair, StripIndexSuffix, NoClash, Goes;
    ThreeNames(active);
    var m := name;
    if OtherFree(s, active, base, name) {
      m :| m in s.indexes && Hinders(s, active, base, name, m);
    }
    order := OrderFrom(s, active, m);
    names, t := RotationSucceeds(s, active, order);
    var u: Schema :| RotationBy(s, active, order, names, u, t);
    var c := Cloned(s, active).value;
    CloneReady(s, active, order);
    CloneSound(s, active);
    assert name in order;
    HinderedMisses(c, active, order, names, u, base, name);
  }

  /**
   In every order of copying one rotation takes an index from its base to number 1, or
   back, if and only if the other name is free once the destination is dropped, and no
   other index of the active table strips to the base or to that name.
   */
  lemma GoesExactly(s: Schema, active: string, base: string, name: string)
    requires Sound(s) && AllPlain(s, active) && NoClash(s, active)
    requires OfPair(base, name) && name in s.indexes && s.indexes[name].table == active
    ensures (forall order, names, t ::
               Rotation(s, active, order, names, t) ==> Goes(order, names, name, Other(base, name)))
        <==> Unhindered(s, active, base, name)
  {
    hide Rotation, Sound, AllPlain, NoClash, Unhindered, OfPair, Other, Goes;
    if Unhindered(s, active, base, name) {
      forall order, names, t | Rotation(s, active, order, names, t)
        ensures Goes(order, names, name, Other(base, name))
      {
        GoesWhenUnhindered(s, active, order, names, t, base, name);
      }
    } else {
      var order, names, t := MissesWhenHindered(s, active, base, name);
      assert Rotation(s, active, order, names, t) && !Goes(order, names, name, Other(base, name));
    }
  }

  const PLAIN := Index("t", [], [], [])

  /** A table with the indexes `idx` and `idx_1_3`. */
  function TwoIndexes(): Schema {
    Schema(map["t" := Table([], [], multiset{})], map["idx" := PLAIN, "idx_1_3" := PLAIN])
  }

  lemma TwoIndexesRotate()
    ensures Sound(TwoIndexes()) && AllPlain(TwoIndexes(), "t") && NoClash(TwoIndexes(), "t")
    ensures Enumerates(TwoIndexes(), "t", ["idx_1_3", "idx"])
  {
    hide Root, StripIndexSuffix;
    LetterEnds("idx");
    LetterEnds("t");
    assert DestName("t") == "t_new" && StaleName("t") == "t_to_be_dropped";
    LetterEnds("t_new");
    LetterEnds("t_to_be_dropped");
    assert Itoa(1) == "1" && Itoa(3) == "3";
    assert Numbered("idx_1", 3) == "idx_1_3" && Numbered("idx", 1) == "idx_1";
    RootNumbered("idx_1", 3);
    RootNumbered("idx", 1);
  }

  lemma LongerNameCopies(c: Schema, names: seq<string>, u: Schema)
    requires Copies(c, "t", ["idx_1_3", "idx"], names, u) && Copyable(c, "t", ["idx_1_3", "idx"])
    requires c.indexes.Keys == {"idx", "idx_1_3"}
    ensures names == ["idx_1", "idx_2"]
  {
    hide Copies, StripIndexSuffix, Allocates, Copyable, Sound;
    var order := ["idx_1_3", "idx"];
    TakenByLongerName();
    FirstCopy(c, "t", order, names, u);
    AllocatesOne("idx_1_3", c.indexes.Keys, names[0], "idx_1");
    var v := CopiesPrefix(c, "t", order, names, u, 1);
    CopyableFirst(c, "t", order, 1);
    CopyableCopies(c, "t", order[..1], names[..1], v);
    assert v.indexes.Keys == {"idx", "idx_1_3"} + {"idx_1"} by {
      assert names[..1][0] == "idx_1" && order[..1][0] == "idx_1_3";
    }
    AllocatesOne("idx", v.indexes.Keys, names[1], "idx_2");
  }

  /** When `idx_1_3` is copied first it takes `idx_1`, and `idx` becomes `idx_2`. */
  lemma LongerNameFirst() returns (t: Schema)
    ensures Rotation(TwoIndexes(), "t", ["idx_1_3", "idx"], ["idx_1", "idx_2"], t)
  {
    hide Copies, CutOver, Cloned, Dropped, Root, Allocates, NoClash, AllPlain, Copyable, Sound;
    var s, order := TwoIndexes(), ["idx_1_3", "idx"];
    TwoIndexesRotate();
    var names;
    names, t := RotationSucceeds(s, "t", order);
    var u: Schema :| RotationBy(s, "t", order, names, u, t);
    var c := Cloned(s, "t").value;
    CloneReady(s, "t", order);
    assert c.indexes.Keys == {"idx", "idx_1_3"};
    LongerNameCopies(c, names, u);
  }
}
