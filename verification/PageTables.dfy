/** Four-level page tables (Intel SDM Volume 3A, section 4.5) as a value: a map from frame
    numbers to tables of 512 entries. Physical memory is reached by frame number, as the
    direct map of the kernel does.

    A table is named by the path of indices that leads to it from the root, so what a step
    changes can be said path by path. */
module PageTables {
  import opened Basics

  /** The bits of an entry beside the address. */
  datatype Flags = Flags(present: bool, rw: bool, user: bool, ps: bool, rest: nat)

  datatype Entry = Entry(frame: nat, flags: Flags)

  const ENTRIES: nat := 512
  const CLEAR := Entry(0, Flags(false, false, false, false, 0))
  const EMPTY_TABLE: seq<Entry> := seq(ENTRIES, _ => CLEAR)

  type Tables = map<nat, seq<Entry>>
  type Path = seq<nat>

  predicate HasTable(m: Tables, f: nat) {
    f in m && |m[f]| == ENTRIES
  }

  /** The walk goes on below an entry of a table of this level: to a table, or from level 1 to
      the page itself. It stops at a large page, which only levels 3 and 2 can map. */
  predicate Below(e: Entry, level: int) {
    e.flags.present && (level == 4 || level == 1 || !e.flags.ps)
  }

  /** The frame at which the walk along p arrives, from a root of the given level: a table, or
      for a path of full length a page. */
  function Locate(m: Tables, root: nat, level: nat, p: Path): Option<nat>
    decreases |p|
  {
    if p == [] then Some(root)
    else match EntryAt(m, root, level, p)
      case None => None
      case Some(e) => if Below(e, level + 1 - |p|) then Some(e.frame) else None
  }

  /** The entry at the end of p. */
  function EntryAt(m: Tables, root: nat, level: nat, p: Path): Option<Entry>
    requires p != []
    decreases |p|, 0
  {
    var i := p[|p| - 1];
    match Locate(m, root, level, p[..|p| - 1])
    case None => None
    case Some(f) => if |p| <= level && HasTable(m, f) && i < ENTRIES then Some(m[f][i]) else None
  }

  /** The page or large page that the walk finds at the end of p. */
  function LeafAt(m: Tables, root: nat, level: nat, p: Path): Option<Entry>
    requires p != []
  {
    match EntryAt(m, root, level, p)
    case None => None
    case Some(e) => if e.flags.present && (|p| == level || !Below(e, level + 1 - |p|)) then Some(e) else None
  }

  /** Every table that the walk can reach is there, and reached by one path only. */
  ghost predicate TreeOfTables(m: Tables, root: nat, level: nat) {
    && (forall p: Path :: |p| < level && Locate(m, root, level, p).Some? ==>
          HasTable(m, Locate(m, root, level, p).value))
    && (forall p: Path, q: Path ::
          |p| < level && |q| < level && Locate(m, root, level, p).Some? && Locate(m, root, level, p) == Locate(m, root, level, q) ==> p == q)
  }

  /** Frame f holds one of the tables. */
  ghost predicate IsTable(m: Tables, root: nat, level: nat, f: nat) {
    exists p: Path :: |p| < level && Locate(m, root, level, p) == Some(f)
  }

  // ----- changing one entry

  function SetEntry(m: Tables, f: nat, i: nat, e: Entry): (m': Tables)
    requires HasTable(m, f) && i < ENTRIES
    ensures HasTable(m', f) && forall g :: HasTable(m', g) == HasTable(m, g)
  {
    m[f := m[f][i := e]]
  }

  lemma OnePath(m: Tables, root: nat, level: nat, p: Path, q: Path)
    requires TreeOfTables(m, root, level) && |p| < level && |q| < level
    requires Locate(m, root, level, p).Some? && Locate(m, root, level, p) == Locate(m, root, level, q)
    ensures p == q && HasTable(m, Locate(m, root, level, p).value)
  {
  }

  /** Only what lies behind the changed entry can change. */
  lemma {:induction false} Elsewhere(m: Tables, root: nat, level: nat, at: Path, f: nat, i: nat, e: Entry, p: Path)
    requires TreeOfTables(m, root, level) && |at| < level && Locate(m, root, level, at) == Some(f) && HasTable(m, f)
    requires i < ENTRIES
    requires !(at + [i] <= p) && |p| <= level
    ensures Locate(SetEntry(m, f, i, e), root, level, p) == Locate(m, root, level, p)
    ensures p != [] ==> EntryAt(SetEntry(m, f, i, e), root, level, p) == EntryAt(m, root, level, p)
    decreases |p|
  {
    if p != [] {
      var init := p[..|p| - 1];
      assert p == init + [p[|p| - 1]];
      hide *;
      Elsewhere(m, root, level, at, f, i, e, init);
      if Locate(m, root, level, init) == Some(f) {
        OnePath(m, root, level, init, at);
      }
      OtherEntry(m, root, level, f, i, e, p);
      SameStep(m, SetEntry(m, f, i, e), root, level, p);
    }
  }

  lemma OtherEntry(m: Tables, root: nat, level: nat, f: nat, i: nat, e: Entry, p: Path)
    requires HasTable(m, f) && i < ENTRIES && p != []
    requires Locate(SetEntry(m, f, i, e), root, level, p[..|p| - 1]) == Locate(m, root, level, p[..|p| - 1])
    requires Locate(m, root, level, p[..|p| - 1]) == Some(f) ==> p[|p| - 1] != i
    ensures EntryAt(SetEntry(m, f, i, e), root, level, p) == EntryAt(m, root, level, p)
  {
    hide Locate;
  }

  lemma SameStep(m: Tables, m': Tables, root: nat, level: nat, p: Path)
    requires p != [] && EntryAt(m', root, level, p) == EntryAt(m, root, level, p)
    ensures Locate(m', root, level, p) == Locate(m, root, level, p)
  {
  }

  /** A change that keeps the address and how the walk goes on changes no location at all. */
  lemma {:induction false} SameBelow(m: Tables, root: nat, level: nat, f: nat, i: nat, e: Entry, p: Path)
    requires HasTable(m, f) && i < ENTRIES && e.frame == m[f][i].frame
    requires e.flags.present == m[f][i].flags.present && e.flags.ps == m[f][i].flags.ps
    ensures Locate(SetEntry(m, f, i, e), root, level, p) == Locate(m, root, level, p)
    decreases |p|
  {
    if p != [] { SameBelow(m, root, level, f, i, e, p[..|p| - 1]); }
  }

  /** A table that the walk cannot reach does not matter. */
  lemma {:induction false} Unreached(m: Tables, root: nat, level: nat, n: nat, t: seq<Entry>, p: Path)
    requires forall q: Path :: |q| < |p| ==> Locate(m, root, level, q) != Some(n)
    ensures Locate(m[n := t], root, level, p) == Locate(m, root, level, p)
    ensures p != [] ==> EntryAt(m[n := t], root, level, p) == EntryAt(m, root, level, p)
    decreases |p|
  {
    if p != [] { Unreached(m, root, level, n, t, p[..|p| - 1]); }
  }

  /** Nothing lies behind an entry that is not present. */
  lemma {:induction false} NothingBehind(m: Tables, root: nat, level: nat, at: Path, p: Path)
    requires at != [] && at <= p
    requires (EntryAt(m, root, level, at).Some? ==> !EntryAt(m, root, level, at).value.flags.present)
    ensures Locate(m, root, level, p).None? && (|p| > |at| ==> EntryAt(m, root, level, p).None?)
    decreases |p|
  {
    if p != at { NothingBehind(m, root, level, at, p[..|p| - 1]); }
  }

  /** The walk meets the same leaves on every path. */
  ghost predicate SameLeaves(m: Tables, m': Tables, root: nat, level: nat) {
    forall p: Path :: 0 < |p| <= level ==> LeafAt(m', root, level, p) == LeafAt(m, root, level, p)
  }

  /** Every path leads to the same table, or to the same page frame. */
  ghost predicate SameLocations(m: Tables, m': Tables, root: nat, level: nat) {
    forall p: Path :: |p| <= level ==> Locate(m', root, level, p) == Locate(m, root, level, p)
  }

  lemma SameLocationsTree(m: Tables, m': Tables, root: nat, level: nat)
    requires TreeOfTables(m, root, level) && SameLocations(m, m', root, level)
    requires forall g :: HasTable(m, g) ==> HasTable(m', g)
    ensures TreeOfTables(m', root, level)
  {
    hide Locate, LeafAt;
  }

  /** Widening the rights of a directory entry changes nothing that the walk finds. */
  lemma Widened(m: Tables, root: nat, level: nat, at: Path, f: nat, i: nat, e: Entry)
    requires TreeOfTables(m, root, level) && Locate(m, root, level, at) == Some(f) && HasTable(m, f) && i < ENTRIES
    requires |at| + 1 < level && Below(m[f][i], level - |at|)
    requires e.frame == m[f][i].frame && e.flags.present && e.flags.ps == m[f][i].flags.ps
    ensures var m' := SetEntry(m, f, i, e);
      SameLeaves(m, m', root, level) && SameLocations(m, m', root, level) && TreeOfTables(m', root, level)
  {
    var m' := SetEntry(m, f, i, e);
    forall p: Path | |p| <= level ensures Locate(m', root, level, p) == Locate(m, root, level, p) {
      SameBelow(m, root, level, f, i, e, p);
    }
    SameLocationsTree(m, m', root, level);
    forall p: Path | 0 < |p| <= level ensures LeafAt(m', root, level, p) == LeafAt(m, root, level, p) {
      if at + [i] <= p {
        if p == at + [i] { assert p[..|p| - 1] == at; } else { Onwards(m, root, level, at, f, i, e, p); }
      } else {
        Elsewhere(m, root, level, at, f, i, e, p);
      }
    }
  }

  /** Behind a changed entry the tables are as they were. */
  lemma Onwards(m: Tables, root: nat, level: nat, at: Path, f: nat, i: nat, e: Entry, p: Path)
    requires TreeOfTables(m, root, level) && Locate(m, root, level, at) == Some(f) && HasTable(m, f) && i < ENTRIES
    requires SameLocations(m, SetEntry(m, f, i, e), root, level)
    requires at + [i] <= p && p != at + [i] && |p| <= level
    ensures EntryAt(SetEntry(m, f, i, e), root, level, p) == EntryAt(m, root, level, p)
  {
    var init := p[..|p| - 1];
    if Locate(m, root, level, init) == Some(f) {
      OnePath(m, root, level, init, at);
    }
  }

  /** The entry of a new directory. */
  function DirTo(n: nat): Entry {
    Entry(n, Flags(true, true, true, false, 0))
  }

  /** A fresh empty table where there was none: one more table, nothing else. */
  lemma Planted(m: Tables, root: nat, level: nat, at: Path, f: nat, i: nat, n: nat)
    requires TreeOfTables(m, root, level) && Locate(m, root, level, at) == Some(f) && HasTable(m, f) && i < ENTRIES
    requires |at| + 1 < level && !m[f][i].flags.present && !IsTable(m, root, level, n)
    ensures f != n
    ensures var m' := SetEntry(m[n := EMPTY_TABLE], f, i, DirTo(n));
      && SameLeaves(m, m', root, level) && TreeOfTables(m', root, level) && HasTable(m', n)
      && (forall p: Path :: |p| <= level ==>
            Locate(m', root, level, p) == if p == at + [i] then Some(n) else Locate(m, root, level, p))
      && (forall k :: 0 <= k < ENTRIES ==> m'[n][k] == CLEAR)
  {
    assert IsTable(m, root, level, f);
    var m1 := m[n := EMPTY_TABLE];
    forall p: Path | |p| <= level ensures Locate(m1, root, level, p) == Locate(m, root, level, p)
    {
      Unreached(m, root, level, n, EMPTY_TABLE, p);
    }
    forall p: Path | 0 < |p| <= level ensures LeafAt(m1, root, level, p) == LeafAt(m, root, level, p)
    {
      Unreached(m, root, level, n, EMPTY_TABLE, p);
    }
    SameLocationsTree(m, m1, root, level);
    PlantedPaths(m1, root, level, at, f, i, n);
    var m' := SetEntry(m1, f, i, DirTo(n));
    PlantedTree(m1, m', root, level, at + [i], n);
  }

  /** Nothing lies behind a table without present entries. */
  lemma EmptyBehind(m: Tables, root: nat, level: nat, q: Path, n: nat, p: Path)
    requires Locate(m, root, level, q) == Some(n) && HasTable(m, n)
    requires forall k :: 0 <= k < ENTRIES ==> !m[n][k].flags.present
    requires q <= p && p != q && |p| <= level
    ensures Locate(m, root, level, p).None? && LeafAt(m, root, level, p).None?
  {
    var next := p[..|q| + 1];
    assert next[..|next| - 1] == q;
    assert EntryAt(m, root, level, next).Some? ==> !EntryAt(m, root, level, next).value.flags.present;
    NothingBehind(m, root, level, next, p);
    assert p == next || |p| > |next|;
  }

  lemma PlantedPaths(m: Tables, root: nat, level: nat, at: Path, f: nat, i: nat, n: nat)
    requires TreeOfTables(m, root, level) && Locate(m, root, level, at) == Some(f) && HasTable(m, f) && i < ENTRIES
    requires |at| + 1 < level && !m[f][i].flags.present && n in m && m[n] == EMPTY_TABLE && f != n
    ensures var m' := SetEntry(m, f, i, DirTo(n));
      && SameLeaves(m, m', root, level)
      && (forall p: Path :: |p| <= level ==>
            Locate(m', root, level, p) == if p == at + [i] then Some(n) else Locate(m, root, level, p))
  {
    var m', q := SetEntry(m, f, i, DirTo(n)), at + [i];
    assert q[..|q| - 1] == at;
    Elsewhere(m, root, level, at, f, i, DirTo(n), at);
    forall p: Path | |p| <= level
      ensures Locate(m', root, level, p) == if p == q then Some(n) else Locate(m, root, level, p)
      ensures p != [] ==> LeafAt(m', root, level, p) == LeafAt(m, root, level, p)
    {
      if q <= p {
        if p != q {
          NothingBehind(m, root, level, q, p);
          EmptyBehind(m', root, level, q, n, p);
        }
      } else {
        Elsewhere(m, root, level, at, f, i, DirTo(n), p);
      }
    }
  }

  lemma PlantedTree(m: Tables, m': Tables, root: nat, level: nat, q: Path, n: nat)
    requires TreeOfTables(m, root, level) && !IsTable(m, root, level, n) && HasTable(m', n) && |q| < level
    requires forall g :: HasTable(m, g) ==> HasTable(m', g)
    requires forall p: Path ::
      |p| <= level ==> Locate(m', root, level, p) == if p == q then Some(n) else Locate(m, root, level, p)
    ensures TreeOfTables(m', root, level)
  {
    hide Locate;
    forall p: Path, r: Path |
      |p| < level && |r| < level && Locate(m', root, level, p).Some? && Locate(m', root, level, p) == Locate(m', root, level, r)
      ensures p == r
    {
      if p != q && r != q { OnePath(m, root, level, p, r); }
    }
  }

  /** Writing a leaf of a level-1 table changes that leaf and no other. */
  lemma LeafSet(m: Tables, root: nat, level: nat, at: Path, f: nat, i: nat, e: Entry)
    requires TreeOfTables(m, root, level) && Locate(m, root, level, at) == Some(f) && HasTable(m, f) && i < ENTRIES
    requires |at| + 1 == level
    ensures var m' := SetEntry(m, f, i, e);
      && TreeOfTables(m', root, level)
      && LeafAt(m', root, level, at + [i]) == (if e.flags.present then Some(e) else None)
      && (forall p: Path :: 0 < |p| <= level && p != at + [i] ==>
            LeafAt(m', root, level, p) == LeafAt(m, root, level, p))
      && (forall p: Path :: |p| < level ==> Locate(m', root, level, p) == Locate(m, root, level, p))
  {
    var m', q := SetEntry(m, f, i, e), at + [i];
    assert q[..|q| - 1] == at;
    forall p: Path | |p| <= level && p != q
      ensures Locate(m', root, level, p) == Locate(m, root, level, p)
      ensures p != [] ==> LeafAt(m', root, level, p) == LeafAt(m, root, level, p)
    {
      Elsewhere(m, root, level, at, f, i, e, p);
    }
    LeafSetTree(m, m', root, level);
  }

  lemma LeafSetTree(m: Tables, m': Tables, root: nat, level: nat)
    requires TreeOfTables(m, root, level) && forall g :: HasTable(m, g) ==> HasTable(m', g)
    requires forall p: Path :: |p| < level ==> Locate(m', root, level, p) == Locate(m, root, level, p)
    ensures TreeOfTables(m', root, level)
  {
    hide Locate;
  }

  /** Clearing the entry of a table without present entries removes that table, nothing else. */
  lemma Pruned(m: Tables, root: nat, level: nat, at: Path, f: nat, i: nat, n: nat)
    requires TreeOfTables(m, root, level) && Locate(m, root, level, at) == Some(f) && HasTable(m, f) && i < ENTRIES
    requires |at| + 1 < level && Locate(m, root, level, at + [i]) == Some(n)
    requires HasTable(m, n) && forall k :: 0 <= k < ENTRIES ==> !m[n][k].flags.present
    ensures var m' := SetEntry(m, f, i, CLEAR);
      && SameLeaves(m, m', root, level) && TreeOfTables(m', root, level)
      && (forall p: Path :: |p| <= level ==>
            Locate(m', root, level, p) == if p == at + [i] then None else Locate(m, root, level, p))
  {
    var m', q := SetEntry(m, f, i, CLEAR), at + [i];
    assert q[..|q| - 1] == at;
    Elsewhere(m, root, level, at, f, i, CLEAR, at);
    forall p: Path | |p| <= level
      ensures Locate(m', root, level, p) == if p == q then None else Locate(m, root, level, p)
      ensures p != [] ==> LeafAt(m', root, level, p) == LeafAt(m, root, level, p)
    {
      if q <= p {
        NothingBehind(m', root, level, q, p);
        if p != q { EmptyBehind(m, root, level, q, n, p); }
      } else {
        Elsewhere(m, root, level, at, f, i, CLEAR, p);
      }
    }
    PrunedTree(m, m', root, level, q);
  }

  lemma PrunedTree(m: Tables, m': Tables, root: nat, level: nat, q: Path)
    requires TreeOfTables(m, root, level) && forall g :: HasTable(m, g) ==> HasTable(m', g)
    requires forall p: Path ::
      |p| <= level ==> Locate(m', root, level, p) == if p == q then None else Locate(m, root, level, p)
    ensures TreeOfTables(m', root, level)
  {
    hide Locate;
    forall p: Path, r: Path |
      |p| < level && |r| < level && Locate(m', root, level, p).Some? && Locate(m', root, level, p) == Locate(m', root, level, r)
      ensures p == r
    {
      OnePath(m, root, level, p, r);
    }
  }
}
