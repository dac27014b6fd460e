/**
 Rotating a table again and again: when an index goes back and forth between its two
 names for ever, whatever the orders of copying.
 */
module RotationRuns {
  import opened SqlText
  import opened IndexNames
  import opened TableSwap

  /** Complete rotations, one after the other, each with its order of copying and its names. */
  ghost predicate Rotations(s: Schema, active: string, runs: seq<(seq<string>, seq<string>)>, t: Schema)
    decreases |runs|
  {
    if runs == [] then t == s
    else exists u: Schema :: Rotation(s, active, runs[0].0, runs[0].1, u) && Rotations(u, active, runs[1..], t)
  }

  /** In each rotation the copy of the index gets the other of its two names. */
  ghost predicate Alternating(runs: seq<(seq<string>, seq<string>)>, base: string, name: string)
    decreases |runs|
  {
    runs != [] ==>
      && Goes(runs[0].0, runs[0].1, name, Other(base, name))
      && Alternating(runs[1..], base, Other(base, name))
  }

  // ----- Statements that stay well named ------------------------------------------------------------

  /** The statements name the active table and the roots of its indexes only as names. */
  ghost predicate WellNamed(s: Schema, active: string) {
    && PlainTable(s, active)
    && forall n <- s.indexes | s.indexes[n].table == active :: NamedOnce(s.indexes[n], n, active)
  }

  ghost predicate NamedOnce(x: Index, name: string, active: string) {
    forall w: string | w == active || Root(w) == Root(name) ::
      Word(w) !in x.open && Word(w) !in x.mid && Word(w) !in x.rest
  }

  lemma WellNamedPlain(s: Schema, active: string)
    requires WellNamed(s, active)
    ensures AllPlain(s, active)
  {
    forall n <- s.indexes | s.indexes[n].table == active ensures PlainIndex(s.indexes[n], n, active) {
      assert NamedOnce(s.indexes[n], n, active);
    }
  }

  /** A rotation leaves well named statements. */
  lemma RotateWellNamed(s: Schema, active: string, order: seq<string>, names: seq<string>, t: Schema)
    requires Sound(s) && WellNamed(s, active) && Rotation(s, active, order, names, t)
    ensures Sound(t) && WellNamed(t, active)
  {
    hide Copies, CutOver, Cloned, Dropped, PlainIndex, NamedOnce, Sound, Root;
    WellNamedPlain(s, active);
    RotationResult(s, active, order, names, t);
    var u: Schema :| RotationBy(s, active, order, names, u, t);
    var c := Cloned(s, active).value;
    CopiesRoots(c, active, order, names, u);
    CloneSound(s, active);
    forall n <- t.indexes | t.indexes[n].table == active ensures NamedOnce(t.indexes[n], n, active) {
      assert n in names;
      var i :| 0 <= i < |names| && names[i] == n;
      assert order[i] in order && Moved(s, order, names, t, i);
      assert NamedOnce(s.indexes[order[i]], order[i], active);
      SameRoot(s.indexes[order[i]], order[i], n, active);
    }
  }

  lemma SameRoot(x: Index, a: string, b: string, active: string)
    requires NamedOnce(x, a, active) && Root(a) == Root(b)
    ensures NamedOnce(x, b, active)
  {
    hide Root;
  }

  // ----- Names that are never given up --------------------------------------------------------------

  /** An index of a table that no rotation touches. */
  ghost predicate Fixed(s: Schema, active: string, n: string) {
    n in s.indexes && Bystander(active, s.indexes[n].table)
  }

  /** Stripping the name again and again meets a fixed index, so that no copy ever gets below it. */
  ghost predicate Blocked(s: Schema, active: string, m: string)
    decreases |m|
  {
    var b := StripIndexSuffix(m);
    b != m && (Fixed(s, active, b) || Blocked(s, active, b))
  }

  ghost predicate SameFixed(s: Schema, active: string, t: Schema) {
    forall n :: Fixed(s, active, n) <==> Fixed(t, active, n)
  }

  lemma {:induction false} BlockedSame(s: Schema, active: string, t: Schema, m: string)
    requires SameFixed(s, active, t)
    ensures Blocked(s, active, m) <==> Blocked(t, active, m)
    decreases |m|
  {
    hide Fixed;
    var b := StripIndexSuffix(m);
    if b == m {
    } else {
      BlockedSame(s, active, t, b);
    }
  }

  /** A copy is blocked exactly when its original is. */
  lemma CopyBlocked(s: Schema, active: string, taken: set<string>, m: string, next: string)
    requires Allocates(m, taken, next) && StripIndexSuffix(m) != m
    requires forall n | Fixed(s, active, n) :: n in taken
    ensures Blocked(s, active, next) <==> Blocked(s, active, m)
  {
    hide Fixed, StripIndexSuffix, Numbered;
    var b := StripIndexSuffix(m);
    if next != b {
      var i: nat :| LeastFree(b, taken, i) && next == Numbered(b, i);
      StripNumbered(b, i);
      NumberLonger(b, i);
    }
  }

  lemma NumberLonger(base: string, i: nat)
    ensures |Numbered(base, i)| > |base|
  {
  }

  // ----- What a rotation keeps -------------------------------------------------------------------------

  ghost predicate Rotatable(s: Schema, active: string) {
    Sound(s) && WellNamed(s, active) && NoClash(s, active)
  }

  lemma NotBystander(active: string)
    ensures !Bystander(active, active)
  {
  }

  /** No index keeps the name of one that was copied. */
  lemma NotCopied(s: Schema, active: string, order: seq<string>, names: seq<string>, t: Schema, n: string)
    requires IndexesRotated(s, active, order, names, t)
    requires n in order && n in s.indexes && s.indexes[n].table == active
    ensures n !in t.indexes
  {
    hide Bystander;
    NotBystander(active);
    forall i: nat | i < |names| ensures names[i] != n {
      assert Moved(s, order, names, t, i);
    }
  }

  lemma RotationFixed(s: Schema, active: string, order: seq<string>, names: seq<string>, t: Schema)
    requires IndexesRotated(s, active, order, names, t)
    requires forall i :: 0 <= i < |names| ==> names[i] in t.indexes && t.indexes[names[i]].table == active
    ensures SameFixed(s, active, t)
  {
    hide Bystander, Moved;
    NotBystander(active);
    forall n ensures Fixed(s, active, n) <==> Fixed(t, active, n) {
      if n in s.indexes && Bystander(active, s.indexes[n].table) {
        assert Untouched(s, names, t, n);
      }
    }
  }

  /** The clone and the copies of a rotation, and where the names come from. */
  ghost predicate CopiedFrom(s: Schema, active: string, order: seq<string>, names: seq<string>, c: Schema, t: Schema) {
    && |names| == |order|
    && Enumerates(s, active, order) && IndexesRotated(s, active, order, names, t)
    && (forall n :: n in c.indexes <==> n in s.indexes && s.indexes[n].table != DestName(active))
    && (forall i :: 0 <= i < |order| ==> Root(names[i]) == Root(order[i]))
    && (forall i :: 0 <= i < |order| ==> names[i] in t.indexes && t.indexes[names[i]].table == active)
    && (forall i :: 0 <= i < |order| ==> names[i] !in c.indexes)
    && (forall i :: 0 <= i < |order| ==> Given(c, order[i], names[i]))
    && (order != [] ==> Allocates(order[0], c.indexes.Keys, names[0]))
  }

  /** The name was allocated while at least the indexes of the clone were there. */
  ghost predicate Given(c: Schema, m: string, next: string) {
    exists taken: set<string> :: c.indexes.Keys <= taken && Allocates(m, taken, next)
  }

  lemma EachGiven(c: Schema, active: string, order: seq<string>, names: seq<string>, u: Schema, i: nat)
    requires Copies(c, active, order, names, u) && Copyable(c, active, order) && i < |order|
    ensures |names| == |order| && Given(c, order[i], names[i])
  {
    hide Copies, Allocates, CopiedAs, Copyable, Sound;
    var v := CopiesPrefix(c, active, order, names, u, i);
    CopyableFirst(c, active, order, i);
    CopyableCopies(c, active, order[..i], names[..i], v);
  }

  lemma RotationCopies(s: Schema, active: string, order: seq<string>, names: seq<string>, t: Schema) returns (c: Schema)
    requires Sound(s) && AllPlain(s, active) && Rotation(s, active, order, names, t)
    ensures CopiedFrom(s, active, order, names, c, t)
  {
    hide Copies, CutOver, Cloned, Dropped, PlainIndex, Sound, Root, IndexesRotated, TablesRotated, Allocates, Copyable,
         StripIndexSuffix, Given;
    RotationResult(s, active, order, names, t);
    var u: Schema :| RotationBy(s, active, order, names, u, t);
    c := Cloned(s, active).value;
    ThreeNames(active);
    CloneReady(s, active, order);
    CloneSound(s, active);
    CopiesRoots(c, active, order, names, u);
    if order != [] {
      FirstCopy(c, active, order, names, u);
    }
    forall i | 0 <= i < |order| ensures Given(c, order[i], names[i]) {
      EachGiven(c, active, order, names, u, i);
    }
    CopiesApart(c, active, order, names, u);
    OnActive(s, active, order, names, t);
  }

  lemma CopiesApart(c: Schema, active: string, order: seq<string>, names: seq<string>, u: Schema)
    requires Copies(c, active, order, names, u) && Copyable(c, active, order)
    ensures |names| == |order| && forall i :: 0 <= i < |order| ==> names[i] !in c.indexes
  {
    hide Copies, Copyable, Sound;
    CopyableCopies(c, active, order, names, u);
  }

  lemma OnActive(s: Schema, active: string, order: seq<string>, names: seq<string>, t: Schema)
    requires IndexesRotated(s, active, order, names, t)
    requires forall n <- order :: n in s.indexes && s.indexes[n].table == active
    ensures forall i :: 0 <= i < |order| ==> names[i] in t.indexes && t.indexes[names[i]].table == active
  {
    hide Bystander, Untouched;
    forall i: nat | i < |order| ensures names[i] in t.indexes && t.indexes[names[i]].table == active {
      assert order[i] in order && Moved(s, order, names, t, i);
    }
  }

  lemma RotationNoClash(s: Schema, active: string, order: seq<string>, names: seq<string>, c: Schema, t: Schema)
    requires NoClash(s, active) && CopiedFrom(s, active, order, names, c, t) && TablesRotated(s, active, t)
    ensures NoClash(t, active)
  {
    hide Root, Given, Allocates, DestName, StaleName, Moved;
    forall n <- t.indexes
      ensures n != DestName(active) && n != StaleName(active)
      ensures t.indexes[n].table == active ==>
                && Root(n) != Root(DestName(active)) && Root(n) != Root(StaleName(active))
                && forall m <- t.tables :: Root(n) != Root(m)
    {
      if n in names {
        var i :| 0 <= i < |names| && names[i] == n;
        assert order[i] in order;
      }
    }
  }

  /** A rotation leaves a table that can be rotated again, with the same fixed indexes. */
  lemma RotationKeeps(s: Schema, active: string, order: seq<string>, names: seq<string>, t: Schema) returns (c: Schema)
    requires Rotatable(s, active) && Rotation(s, active, order, names, t)
    ensures Rotatable(t, active) && SameFixed(s, active, t) && CopiedFrom(s, active, order, names, c, t)
    ensures TablesRotated(s, active, t)
  {
    hide Rotation, Sound, Root, PlainIndex, NamedOnce, NoClash, Given, Allocates, TablesRotated, Fixed;
    WellNamedPlain(s, active);
    RotationResult(s, active, order, names, t);
    RotateWellNamed(s, active, order, names, t);
    c := RotationCopies(s, active, order, names, t);
    RotationFixed(s, active, order, names, t);
    RotationNoClash(s, active, order, names, c, t);
  }

  // ----- An index that alternates for ever ----------------------------------------------------------------

  /**
   The index is on the active table, its other name is free, and every other index of the
   table with this root is blocked.
   */
  ghost predicate Alone(s: Schema, active: string, base: string, name: string) {
    && name in s.indexes && s.indexes[name].table == active
    && OtherFree(s, active, base, name)
    && forall m <- s.indexes | s.indexes[m].table == active && m != name && Root(m) == base :: Blocked(s, active, m)
  }

  /** Neither of the two names is fixed, and nothing is blocked below them. */
  lemma PairNotFixed(s: Schema, active: string, base: string, name: string, b: string)
    requires OfPair(base, name) && name in s.indexes && s.indexes[name].table == active
    requires OtherFree(s, active, base, name) && (b == base || b == Other(base, name))
    ensures !Fixed(s, active, b) && !Blocked(s, active, b)
  {
    hide StripIndexSuffix, Numbered, Other, OfPair, Bystander;
    PairStrips(base, name);
    PairStrips(base, Other(base, name));
    NotBystander(active);
    DestNoBystander(active);
    assert base == name || base == Other(base, name) by {
      OneIsBase(base, name);
    }
    assert StripIndexSuffix(b) == base;
    assert StripIndexSuffix(base) == base;
    assert !Fixed(s, active, base);
    assert !Blocked(s, active, base);
  }

  lemma OneIsBase(base: string, name: string)
    requires OfPair(base, name)
    ensures base == name || base == Other(base, name)
  {
  }

  lemma DestNoBystander(active: string)
    ensures !Bystander(active, DestName(active))
  {
  }

  lemma AloneUnhindered(s: Schema, active: string, base: string, name: string)
    requires OfPair(base, name) && Alone(s, active, base, name)
    ensures Unhindered(s, active, base, name)
  {
    hide Root, StripIndexSuffix, Other, OfPair, Fixed;
    PairStrips(base, name);
    PairStrips(base, Other(base, name));
    forall m <- s.indexes ensures !Hinders(s, active, base, name, m) {
      if Hinders(s, active, base, name, m) {
        HindersNotBlocked(s, active, base, name, m);
      }
    }
  }

  lemma HindersNotBlocked(s: Schema, active: string, base: string, name: string, m: string)
    requires OfPair(base, name) && name in s.indexes && s.indexes[name].table == active
    requires OtherFree(s, active, base, name) && Hinders(s, active, base, name, m)
    ensures Root(m) == base && !Blocked(s, active, m)
  {
    hide Root, StripIndexSuffix, Other, OfPair, Fixed;
    PairStrips(base, name);
    PairStrips(base, Other(base, name));
    RootStripped(m);
    RootStripped(base);
    RootStripped(Other(base, name));
    PairNotFixed(s, active, base, name, StripIndexSuffix(m));
  }

  /** One rotation takes the index to its other name, and leaves it alone with its base. */
  lemma RotateName(s: Schema, active: string, order: seq<string>, names: seq<string>, t: Schema,
                   base: string, name: string)
    requires Rotatable(s, active) && Rotation(s, active, order, names, t)
    requires OfPair(base, name) && Alone(s, active, base, name)
    ensures Rotatable(t, active)
    ensures Goes(order, names, name, Other(base, name)) && Alone(t, active, base, Other(base, name))
  {
    hide Rotation, Rotatable, Sound, WellNamed, AllPlain, Root, Other, Goes, Unhindered, OfPair, StripIndexSuffix,
         Alone;
    RotatablePlain(s, active);
    AloneUnhindered(s, active, base, name);
    assert name in s.indexes && s.indexes[name].table == active by {
      AloneThere(s, active, base, name);
    }
    GoesWhenUnhindered(s, active, order, names, t, base, name);
    var c := RotationKeeps(s, active, order, names, t);
    AloneAgain(s, active, order, names, c, t, base, name);
  }

  lemma RotatablePlain(s: Schema, active: string)
    requires Rotatable(s, active)
    ensures Sound(s) && AllPlain(s, active)
  {
    WellNamedPlain(s, active);
  }

  lemma AloneThere(s: Schema, active: string, base: string, name: string)
    requires Alone(s, active, base, name)
    ensures name in s.indexes && s.indexes[name].table == active
  {
  }

  lemma AloneAgain(s: Schema, active: string, order: seq<string>, names: seq<string>, c: Schema, t: Schema,
                   base: string, name: string)
    requires CopiedFrom(s, active, order, names, c, t) && SameFixed(s, active, t)
    requires OfPair(base, name) && Alone(s, active, base, name) && Goes(order, names, name, Other(base, name))
    ensures Alone(t, active, base, Other(base, name))
  {
    hide Root, Other, OfPair, Bystander, StripIndexSuffix, SameFixed, Fixed, Blocked, Given, IndexesRotated, Allocates;
    PairStrips(base, name);
    var i :| 0 <= i < |order| && order[i] == name;
    NotCopied(s, active, order, names, t, name);
    var o := Other(base, name);
    assert o in t.indexes && t.indexes[o].table == active;
    forall m <- t.indexes | t.indexes[m].table == active && m != o && Root(m) == base ensures Blocked(t, active, m) {
      var j := CopyOf(s, active, order, names, t, m);
      assert order[j] in order && j != i;
      assert Blocked(s, active, order[j]);
      BlockedStrips(s, active, order[j]);
      StaysBlocked(s, active, order, names, c, t, j);
    }
  }

  /** Every index of the table is a copy. */
  lemma CopyOf(s: Schema, active: string, order: seq<string>, names: seq<string>, t: Schema, m: string) returns (j: nat)
    requires IndexesRotated(s, active, order, names, t) && m in t.indexes && t.indexes[m].table == active
    ensures j < |names| && names[j] == m
  {
    hide Bystander;
    NotBystander(active);
    assert m in names;
    j :| 0 <= j < |names| && names[j] == m;
  }

  lemma BlockedStrips(s: Schema, active: string, m: string)
    requires Blocked(s, active, m)
    ensures StripIndexSuffix(m) != m
  {
  }

  lemma StaysBlocked(s: Schema, active: string, order: seq<string>, names: seq<string>, c: Schema, t: Schema, j: nat)
    requires CopiedFrom(s, active, order, names, c, t) && SameFixed(s, active, t) && j < |order|
    requires StripIndexSuffix(order[j]) != order[j]
    ensures Blocked(t, active, names[j]) <==> Blocked(s, active, order[j])
  {
    hide Root, StripIndexSuffix, Allocates, IndexesRotated, DestName, SameFixed;
    assert Given(c, order[j], names[j]);
    var taken: set<string> :| c.indexes.Keys <= taken && Allocates(order[j], taken, names[j]);
    DestNoBystander(active);
    forall n | Fixed(s, active, n) ensures n in taken {
      assert n in c.indexes;
    }
    CopyBlocked(s, active, taken, order[j], names[j]);
    BlockedSame(s, active, t, names[j]);
  }

  /**
   Over any number of complete rotations the active table keeps its definition, and an
   index that is alone with its base alternates between the base and the base with
   number 1.
   */
  lemma {:induction false} RotationsAlternate(s: Schema, active: string, runs: seq<(seq<string>, seq<string>)>,
                                              t: Schema, base: string, name: string)
    requires Rotatable(s, active) && Rotations(s, active, runs, t)
    requires OfPair(base, name) && Alone(s, active, base, name)
    ensures Rotatable(t, active) && active in t.tables
    ensures t.tables[active] == if runs == [] then s.tables[active] else s.tables[active].(rows := multiset{})
    ensures Alternating(runs, base, name)
    ensures Alone(t, active, base, if |runs| % 2 == 0 then name else Other(base, name))
    decreases |runs|
  {
    hide Rotation, Sound, Root, WellNamed, NoClash, Alone, StripIndexSuffix, Other, OfPair, Goes;
    ActiveThere(s, active);
    if runs == [] {
    } else {
      var u: Schema :| Rotation(s, active, runs[0].0, runs[0].1, u) && Rotations(u, active, runs[1..], t);
      var c := RotationKeeps(s, active, runs[0].0, runs[0].1, u);
      RotateName(s, active, runs[0].0, runs[0].1, u, base, name);
      PairStrips(base, name);
      RotationsAlternate(u, active, runs[1..], t, base, Other(base, name));
    }
  }

  lemma ActiveThere(s: Schema, active: string)
    requires Rotatable(s, active)
    ensures active in s.tables
  {
    hide NamedOnce, NoClash, Sound;
  }

  // ----- Otherwise some rotations make it miss --------------------------------------------------------------

  /** One rotation with a given index first, and the name it gets. */
  lemma FirstRotation(s: Schema, active: string, base: string, name: string, m: string)
    returns (order: seq<string>, names: seq<string>, t: Schema)
    requires Rotatable(s, active) && OfPair(base, name) && Unhindered(s, active, base, name)
    requires name in s.indexes && s.indexes[name].table == active
    requires m in s.indexes && s.indexes[m].table == active && m != name
    requires StripIndexSuffix(m) != m && !Fixed(s, active, StripIndexSuffix(m))
    ensures Rotation(s, active, order, names, t) && Rotatable(t, active) && SameFixed(s, active, t)
    ensures Goes(order, names, name, Other(base, name))
    ensures Other(base, name) in t.indexes && t.indexes[Other(base, name)].table == active
    ensures names != [] && names[0] in t.indexes && t.indexes[names[0]].table == active && names[0] != Other(base, name)
    ensures Root(names[0]) == Root(m)
    ensures Blocked(t, active, names[0]) <==> Blocked(s, active, m)
    ensures var b := StripIndexSuffix(m);
            && (b !in s.indexes ==> names[0] == b)
            && (names[0] != b ==> StripIndexSuffix(names[0]) == b && b !in t.indexes)
  {
    hide Rotation, Sound, Root, WellNamed, NoClash, StripIndexSuffix, Other, OfPair, Unhindered, Allocates, Given,
         SameFixed, IndexesRotated, Fixed, DestName, Blocked;
    RotatablePlain(s, active);
    order := OrderFrom(s, active, m);
    names, t := RotationSucceeds(s, active, order);
    GoesWhenUnhindered(s, active, order, names, t, base, name);
    var c := RotationKeeps(s, active, order, names, t);
    assert name in order;
    var i :| 0 <= i < |order| && order[i] == name;
    NamesApart(s, active, order, names, t, 0, i);
    StaysBlocked(s, active, order, names, c, t, 0);
    FirstName(s, active, order, names, c, t);
  }

  lemma NamesApart(s: Schema, active: string, order: seq<string>, names: seq<string>, t: Schema, i: nat, j: nat)
    requires IndexesRotated(s, active, order, names, t) && i < j < |order|
    ensures names[i] != names[j]
  {
    hide Moved, Untouched;
  }

  /** The first index gets its stripped name, or a number of it when that is taken; and then nobody keeps it. */
  lemma FirstName(s: Schema, active: string, order: seq<string>, names: seq<string>, c: Schema, t: Schema)
    requires CopiedFrom(s, active, order, names, c, t) && order != []
    requires !Fixed(s, active, StripIndexSuffix(order[0]))
    ensures var b := StripIndexSuffix(order[0]);
            && (b !in s.indexes ==> names[0] == b)
            && (names[0] != b ==> StripIndexSuffix(names[0]) == b && b !in t.indexes)
  {
    hide Root, Given, StripIndexSuffix, Numbered, Moved;
    var b := StripIndexSuffix(order[0]);
    if names[0] != b {
      var i: nat :| LeastFree(b, c.indexes.Keys, i) && names[0] == Numbered(b, i);
      StripNumbered(b, i);
      assert b in c.indexes;
    }
  }

  /** A rotation in which the index misses its other name. */
  lemma MissNow(s: Schema, active: string, base: string, name: string)
    returns (runs: seq<(seq<string>, seq<string>)>, t: Schema)
    requires Rotatable(s, active) && OfPair(base, name) && name in s.indexes && s.indexes[name].table == active
    requires !Unhindered(s, active, base, name)
    ensures Rotations(s, active, runs, t) && !Alternating(runs, base, name)
  {
    hide Rotation, Sound, WellNamed, NoClash, OfPair, Unhindered, Other, Goes;
    RotatablePlain(s, active);
    var order, names;
    order, names, t := MissesWhenHindered(s, active, base, name);
    runs := [(order, names)];
    assert Rotations(t, active, runs[1..], t);
  }

  lemma OneMore(s: Schema, active: string, order: seq<string>, names: seq<string>, u: Schema,
                runs: seq<(seq<string>, seq<string>)>, t: Schema, base: string, name: string)
    requires Rotation(s, active, order, names, u) && Rotations(u, active, runs, t)
    requires !Alternating(runs, base, Other(base, name))
    ensures Rotations(s, active, [(order, names)] + runs, t) && !Alternating([(order, names)] + runs, base, name)
  {
    hide Rotation, Goes, Other;
    var all := [(order, names)] + runs;
    assert all[1..] == runs;
  }

  /**
   An index that is not blocked strips down, one number every one or two rotations, until
   it stands in the way.
   */
  lemma {:induction false} StripsDown(s: Schema, active: string, base: string, name: string, m: string)
    returns (runs: seq<(seq<string>, seq<string>)>, t: Schema)
    requires Rotatable(s, active) && OfPair(base, name) && name in s.indexes && s.indexes[name].table == active
    requires m in s.indexes && s.indexes[m].table == active && m != name && Root(m) == base
    requires !Blocked(s, active, m)
    ensures Rotations(s, active, runs, t) && !Alternating(runs, base, name)
    decreases |StripIndexSuffix(m)|, StripIndexSuffix(m) in s.indexes
  {
    hide Rotation, Rotatable, Root, OfPair, Unhindered, Other, Goes, Fixed, Rotations, Alternating, SameFixed, Blocked,
         StripIndexSuffix;
    if !Unhindered(s, active, base, name) {
      runs, t := MissNow(s, active, base, name);
    } else {
      StripsFurther(s, active, base, name, m);
      var order, names, u := FirstRotation(s, active, base, name, m);
      PairStrips(base, name);
      var rest;
      rest, t := StripsDown(u, active, base, Other(base, name), names[0]);
      OneMore(s, active, order, names, u, rest, t, base, name);
      runs := [(order, names)] + rest;
    }
  }

  lemma StripsFurther(s: Schema, active: string, base: string, name: string, m: string)
    requires OfPair(base, name) && Unhindered(s, active, base, name) && !Blocked(s, active, m)
    requires m in s.indexes && s.indexes[m].table == active && m != name && Root(m) == base
    ensures var b := StripIndexSuffix(m);
            b != m && !Fixed(s, active, b) && |StripIndexSuffix(b)| < |b|
  {
    hide StripIndexSuffix, OfPair, Fixed, Other;
    PairStrips(base, name);
    assert StripIndexSuffix(m) != base;
    RootStripped(m);
    StripShorter(StripIndexSuffix(m));
  }

  lemma StripShorter(b: string)
    ensures StripIndexSuffix(b) == b || |StripIndexSuffix(b)| < |b|
  {
  }

  /**
   In every sequence of complete rotations, in whatever orders, an index alternates
   between its base and number 1 if and only if it is alone: the other name is free, and
   every other index of the table with the same root is blocked by a fixed one.
   */
  lemma AlternatesForever(s: Schema, active: string, base: string, name: string)
    requires Rotatable(s, active) && OfPair(base, name) && name in s.indexes && s.indexes[name].table == active
    ensures (forall runs, t :: Rotations(s, active, runs, t) ==> Alternating(runs, base, name))
        <==> Alone(s, active, base, name)
  {
    hide Rotatable, Root, OfPair, Rotations, Alternating, Blocked, OtherFree;
    if Alone(s, active, base, name) {
      forall runs, t | Rotations(s, active, runs, t) ensures Alternating(runs, base, name) {
        RotationsAlternate(s, active, runs, t, base, name);
      }
    } else {
      var runs, t;
      if !OtherFree(s, active, base, name) {
        runs, t := MissNow(s, active, base, name);
      } else {
        var m :| m in s.indexes && s.indexes[m].table == active && m != name && Root(m) == base
            && !Blocked(s, active, m);
        runs, t := StripsDown(s, active, base, name, m);
      }
      assert Rotations(s, active, runs, t) && !Alternating(runs, base, name);
    }
  }
}
