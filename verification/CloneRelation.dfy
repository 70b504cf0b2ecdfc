/** What it means that a tree of page tables is a deep copy of another: the relation that
    CloneTable and CloneUserAddressSpace of kernel/task/task_kthread_constructor.cpp build up
    entry by entry.

    A page counts as a tree of level 0, so that tables and pages need no separate rules. `lim`
    bounds the first index: 256 for the user half of a root table, and in a loop the number of
    entries that are done. */
module CloneRelation {
  import opened Basics
  import opened PageTables

  type Pages = map<nat, seq<Byte>>

  predicate InReach(p: Path, lim: nat) {
    p == [] || p[0] < lim
  }

  /** Path p leads to a table or a page of the tree. */
  ghost predicate Located(m: Tables, root: nat, level: nat, lim: nat, p: Path) {
    |p| <= level && InReach(p, lim) && Locate(m, root, level, p).Some?
  }

  /** Frame f holds a table or a page of the tree. */
  ghost predicate Owns(m: Tables, root: nat, level: nat, lim: nat, f: nat) {
    exists p: Path :: |p| <= level && InReach(p, lim) && Locate(m, root, level, p) == Some(f)
  }

  /** No frame is used twice, be it for tables or for pages. */
  ghost predicate Exclusive(m: Tables, root: nat, level: nat, lim: nat) {
    forall p: Path, q: Path | Located(m, root, level, lim, p) && Located(m, root, level, lim, q) ::
      Locate(m, root, level, p) == Locate(m, root, level, q) ==> p == q
  }

  /** The tree is made of exactly the frames that have been taken from the bitmap. */
  ghost predicate Fresh(m: Tables, root: nat, level: nat, lim: nat, free: set<nat>, free': set<nat>) {
    free' <= free && forall f: nat :: Owns(m, root, level, lim, f) <==> f in free && f !in free'
  }

  /** Nothing outside the free frames has been written. */
  ghost predicate Untouched(m: Tables, m': Tables, data: Pages, data': Pages, free: set<nat>) {
    forall f: nat :: f !in free ==>
      && (f in m' <==> f in m) && (f in m ==> m'[f] == m[f])
      && (f in data' <==> f in data) && (f in data ==> data'[f] == data[f])
  }

  predicate SameEntry(a: Option<Entry>, b: Option<Entry>) {
    && a.Some? == b.Some?
    && (b.Some? ==> a.value.flags.present == b.value.flags.present && (b.value.flags.present ==> a.value.flags == b.value.flags))
  }

  ghost predicate SamePage(data': Pages, a: Option<nat>, data: Pages, b: Option<nat>) {
    b.Some? ==> a.Some? && b.value in data && a.value in data' && data'[a.value] == data[b.value]
  }

  /** The same entries but for the frames, and the same bytes in the pages. */
  ghost predicate Copies(m': Tables, data': Pages, n: nat, m: Tables, data: Pages, src: nat, level: nat, lim: nat) {
    && (forall p: Path :: 0 < |p| <= level && p[0] < lim ==>
          SameEntry(EntryAt(m', n, level, p), EntryAt(m, src, level, p)))
    && (forall p: Path :: |p| == level && InReach(p, lim) ==>
          SamePage(data', Locate(m', n, level, p), data, Locate(m, src, level, p)))
  }

  /** A tree that can be copied: allocated frames, tables and pages all there, no large page. */
  ghost predicate Source(m: Tables, data: Pages, src: nat, level: nat, lim: nat, free: set<nat>) {
    && (forall p: Path :: |p| <= level && InReach(p, lim) && Locate(m, src, level, p).Some? ==>
          var f := Locate(m, src, level, p).value;
          f !in free && (|p| < level ==> HasTable(m, f)) && (|p| == level ==> f in data))
    && (forall p: Path :: 0 < |p| <= level && p[0] < lim && EntryAt(m, src, level, p).Some? && EntryAt(m, src, level, p).value.flags.present ==>
          Locate(m, src, level, p).Some?)
  }

  // ----- from a table to its children

  /** A path through entry i of the root goes on in the tree below it. */
  lemma {:induction false} LocateCons(m: Tables, root: nat, level: nat, i: nat, p: Path)
    requires 0 < level && |p| < level
    ensures Locate(m, root, level, [i] + p) ==
      match Locate(m, root, level, [i]) case None => None case Some(c) => Locate(m, c, level - 1, p)
    ensures p != [] ==>
      EntryAt(m, root, level, [i] + p) == match Locate(m, root, level, [i]) case None => None case Some(c) => EntryAt(m, c, level - 1, p)
    decreases |p|
  {
    if p == [] {
      assert [i] + p == [i];
    } else {
      var init := p[..|p| - 1];
      LocateCons(m, root, level, i, init);
      assert ([i] + p)[..|[i] + p| - 1] == [i] + init;
      assert ([i] + p)[|[i] + p| - 1] == p[|p| - 1];
    }
  }

  /** Paths from the root, split at their first index. */
  lemma Split(p: Path)
    ensures p != [] ==> p == [p[0]] + p[1..] && |p[1..]| == |p| - 1
  {
  }

  /** Two memories that agree on the tables of a tree agree on all its paths. */
  lemma {:induction false} SameTables(m: Tables, m': Tables, root: nat, level: nat, p: Path)
    requires forall q: Path :: |q| < |p| && q <= p && Locate(m, root, level, q).Some? ==>
      var f := Locate(m, root, level, q).value; (f in m' <==> f in m) && (f in m ==> m'[f] == m[f])
    ensures Locate(m', root, level, p) == Locate(m, root, level, p)
    ensures p != [] ==> EntryAt(m', root, level, p) == EntryAt(m, root, level, p)
    decreases |p|
  {
    if p != [] { SameTables(m, m', root, level, p[..|p| - 1]); }
  }

  lemma EntryOfRoot(m: Tables, root: nat, level: nat, i: nat)
    requires 0 < level && HasTable(m, root) && i < ENTRIES
    ensures EntryAt(m, root, level, [i]) == Some(m[root][i])
    ensures Locate(m, root, level, [i]) == if Below(m[root][i], level) then Some(m[root][i].frame) else None
  {
    assert [i][..0] == [];
  }

  // ----- the source while it is copied

  /** Writing to free frames does not change a source. */
  lemma SourcePaths(m: Tables, m': Tables, data: Pages, data': Pages, src: nat, level: nat, lim: nat, free: set<nat>,
                    p: Path)
    requires Source(m, data, src, level, lim, free) && Untouched(m, m', data, data', free) && |p| <= level
    requires InReach(p, lim)
    ensures Locate(m', src, level, p) == Locate(m, src, level, p)
    ensures p != [] ==> EntryAt(m', src, level, p) == EntryAt(m, src, level, p)
  {
    hide Locate, EntryAt;
    SameTables(m, m', src, level, p);
  }

  lemma SourceKept(m: Tables, m': Tables, data: Pages, data': Pages, src: nat, level: nat, lim: nat, free: set<nat>,
                   free': set<nat>)
    requires Source(m, data, src, level, lim, free) && Untouched(m, m', data, data', free) && free' <= free
    ensures Source(m', data', src, level, lim, free')
  {
    hide Locate, EntryAt;
    forall p: Path | |p| <= level && InReach(p, lim)
      ensures Locate(m', src, level, p) == Locate(m, src, level, p)
      ensures p != [] ==> EntryAt(m', src, level, p) == EntryAt(m, src, level, p)
    {
      SourcePaths(m, m', data, data', src, level, lim, free, p);
    }
  }

  lemma ChildSource(m: Tables, data: Pages, src: nat, level: nat, lim: nat, free: set<nat>, i: nat)
    requires Source(m, data, src, level, lim, free) && 0 < level && i < lim && Locate(m, src, level, [i]).Some?
    ensures Source(m, data, Locate(m, src, level, [i]).value, level - 1, ENTRIES, free)
  {
    hide Locate, EntryAt;
    var c := Locate(m, src, level, [i]).value;
    forall p: Path | |p| <= level - 1
      ensures Locate(m, c, level - 1, p) == Locate(m, src, level, [i] + p)
      ensures p != [] ==> EntryAt(m, c, level - 1, p) == EntryAt(m, src, level, [i] + p)
      ensures InReach([i] + p, lim)
    {
      LocateCons(m, src, level, i, p);
    }
  }

  // ----- the copy as it grows

  /** The first `lim` entries of the new table n have been copied. */
  ghost predicate Progress(m: Tables, data: Pages, src: nat, level: nat, free: set<nat>,
                           m': Tables, data': Pages, n: nat, free': set<nat>, lim: nat) {
    && Exclusive(m', n, level, lim) && Fresh(m', n, level, lim, free, free')
    && Copies(m', data', n, m, data, src, level, lim) && Untouched(m, m', data, data', free)
  }

  /** Writing to free frames does not change what has been copied. */
  lemma OwnedPaths(m: Tables, m': Tables, data: Pages, data': Pages, c: nat, level: nat, lim: nat, free: set<nat>,
                   n: nat, t: seq<Entry>, p: Path)
    requires Untouched(m, m', data, data', free) && |p| <= level && InReach(p, lim)
    requires forall f: nat :: Owns(m, c, level, lim, f) ==> f !in free && f != n
    ensures Locate(m'[n := t], c, level, p) == Locate(m, c, level, p)
    ensures p != [] ==> EntryAt(m'[n := t], c, level, p) == EntryAt(m, c, level, p)
  {
    hide Locate, EntryAt;
    forall q: Path | |q| < |p| && q <= p && Locate(m, c, level, q).Some?
      ensures var f := Locate(m, c, level, q).value; (f in m'[n := t] <==> f in m) && (f in m ==> m'[n := t][f] == m[f])
    {
      assert InReach(q, lim);
      assert Owns(m, c, level, lim, Locate(m, c, level, q).value);
    }
    SameTables(m, m'[n := t], c, level, p);
  }

  /** What a child owns its parent owns, and it is not the parent's own frame. */
  lemma ChildOwned(m: Tables, root: nat, level: nat, lim: nat, k: nat, f: nat)
    requires Exclusive(m, root, level, lim) && 0 < level && k < lim && Locate(m, root, level, [k]).Some?
    requires Owns(m, Locate(m, root, level, [k]).value, level - 1, ENTRIES, f)
    ensures Owns(m, root, level, lim, f) && f != root
  {
    var c := Locate(m, root, level, [k]).value;
    var p: Path :| |p| <= level - 1 && InReach(p, ENTRIES) && Locate(m, c, level - 1, p) == Some(f);
    LocateCons(m, root, level, k, p);
    hide Locate;
    var q := [k] + p;
    assert |q| <= level && InReach(q, lim) && Locate(m, root, level, q) == Some(f);
    RootLocated(m, root, level, lim);
    assert Located(m, root, level, lim, q) && Located(m, root, level, lim, []);
  }

  lemma RootLocated(m: Tables, root: nat, level: nat, lim: nat)
    ensures Locate(m, root, level, []) == Some(root) && Located(m, root, level, lim, [])
    ensures Owns(m, root, level, lim, root)
  {
    assert Locate(m, root, level, []) == Some(root) && InReach([], lim);
  }

  /** The state of a copy between two entries: the child c of entry i has just been made. */
  ghost predicate Stepping(m1: Tables, data1: Pages, free1: set<nat>, m2: Tables, data2: Pages, free2: set<nat>,
                           n: nat, level: nat, free: set<nat>, i: nat, e: Entry) {
    && 0 < level && i < ENTRIES && HasTable(m1, n) && n !in free1 && Below(e, level)
    && Exclusive(m1, n, level, i) && Fresh(m1, n, level, i, free, free1)
    && Exclusive(m2, e.frame, level - 1, ENTRIES) && Fresh(m2, e.frame, level - 1, ENTRIES, free1, free2)
    && Untouched(m1, m2, data1, data2, free1)
  }

  lemma StepTable(m1: Tables, data1: Pages, free1: set<nat>, m2: Tables, data2: Pages, free2: set<nat>,
                  n: nat, level: nat, free: set<nat>, i: nat, e: Entry)
    requires Stepping(m1, data1, free1, m2, data2, free2, n, level, free, i, e)
    ensures 0 < level && i < ENTRIES && HasTable(m2, n) && m2[n] == m1[n] && HasTable(SetEntry(m2, n, i, e), n)
    ensures forall k :: 0 <= k < ENTRIES && k != i ==> SetEntry(m2, n, i, e)[n][k] == m1[n][k]
  {
  }

  /** Paths through the entries copied before lead where they led. */
  lemma EarlierPaths(m1: Tables, data1: Pages, free1: set<nat>, m2: Tables, data2: Pages, free2: set<nat>,
                     n: nat, level: nat, free: set<nat>, i: nat, e: Entry, p: Path)
    requires Stepping(m1, data1, free1, m2, data2, free2, n, level, free, i, e) && HasTable(m2, n)
    requires 0 < |p| <= level && p[0] < i
    ensures Locate(SetEntry(m2, n, i, e), n, level, p) == Locate(m1, n, level, p)
    ensures EntryAt(SetEntry(m2, n, i, e), n, level, p) == EntryAt(m1, n, level, p)
  {
    hide Locate, EntryAt;
    StepTable(m1, data1, free1, m2, data2, free2, n, level, free, i, e);
    var m3, k, rest := SetEntry(m2, n, i, e), p[0], p[1..];
    Split(p);
    if rest == [] { assert p == [k]; }
    EntryOfRoot(m1, n, level, k);
    EntryOfRoot(m3, n, level, k);
    LocateCons(m1, n, level, k, rest);
    LocateCons(m3, n, level, k, rest);
    if Locate(m1, n, level, [k]).Some? {
      var c := Locate(m1, n, level, [k]).value;
      forall f: nat | Owns(m1, c, level - 1, ENTRIES, f)
        ensures f !in free1 && f != n
      {
        ChildOwned(m1, n, level, i, k, f);
      }
      if InReach(rest, ENTRIES) {
        OwnedPaths(m1, m2, data1, data2, c, level - 1, ENTRIES, free1, n, m3[n], rest);
      } else {
        OutOfReach(m1, c, level - 1, rest);
        OutOfReach(m3, c, level - 1, rest);
      }
    }
  }

  /** No table has an entry beyond its end. */
  lemma {:induction false} OutOfReach(m: Tables, root: nat, level: nat, p: Path)
    requires p != [] && p[0] >= ENTRIES
    ensures Locate(m, root, level, p).None? && EntryAt(m, root, level, p).None?
    decreases |p|
  {
    if |p| > 1 { OutOfReach(m, root, level, p[..|p| - 1]); }
  }

  /** Paths through the new entry lead on in the new child. */
  lemma NewPaths(m1: Tables, data1: Pages, free1: set<nat>, m2: Tables, data2: Pages, free2: set<nat>,
                 n: nat, level: nat, free: set<nat>, i: nat, e: Entry, rest: Path)
    requires Stepping(m1, data1, free1, m2, data2, free2, n, level, free, i, e) && HasTable(m2, n) && |rest| < level
    ensures Locate(SetEntry(m2, n, i, e), n, level, [i]) == Some(e.frame)
    ensures EntryAt(SetEntry(m2, n, i, e), n, level, [i]) == Some(e)
    ensures Locate(SetEntry(m2, n, i, e), n, level, [i] + rest) == Locate(m2, e.frame, level - 1, rest)
    ensures rest != [] ==> EntryAt(SetEntry(m2, n, i, e), n, level, [i] + rest) == EntryAt(m2, e.frame, level - 1, rest)
  {
    hide Locate, EntryAt;
    StepTable(m1, data1, free1, m2, data2, free2, n, level, free, i, e);
    var m3 := SetEntry(m2, n, i, e);
    EntryOfRoot(m3, n, level, i);
    LocateCons(m3, n, level, i, rest);
    var none: set<nat> := {};
    forall f: nat | Owns(m2, e.frame, level - 1, ENTRIES, f) ensures f !in none && f != n {}
    if InReach(rest, ENTRIES) {
      OwnedPaths(m2, m2, data2, data2, e.frame, level - 1, ENTRIES, none, n, m3[n], rest);
    } else {
      OutOfReach(m2, e.frame, level - 1, rest);
      OutOfReach(m3, e.frame, level - 1, rest);
    }
  }

  /** The tree as it is after the step, path by path. */
  ghost predicate Stepped(m1: Tables, m2: Tables, m3: Tables, n: nat, level: nat, i: nat, e: Entry) {
    && (forall p: Path :: 0 < |p| <= level && p[0] < i ==>
          Locate(m3, n, level, p) == Locate(m1, n, level, p) && EntryAt(m3, n, level, p) == EntryAt(m1, n, level, p))
    && EntryAt(m3, n, level, [i]) == Some(e)
    && (forall p: Path :: 0 < |p| <= level && p[0] == i ==>
          Locate(m3, n, level, p) == Locate(m2, e.frame, level - 1, p[1..]))
    && (forall p: Path :: 1 < |p| <= level && p[0] == i ==>
          EntryAt(m3, n, level, p) == EntryAt(m2, e.frame, level - 1, p[1..]))
  }

  lemma StepPaths(m1: Tables, data1: Pages, free1: set<nat>, m2: Tables, data2: Pages, free2: set<nat>,
                  n: nat, level: nat, free: set<nat>, i: nat, e: Entry)
    requires Stepping(m1, data1, free1, m2, data2, free2, n, level, free, i, e) && HasTable(m2, n)
    ensures Stepped(m1, m2, SetEntry(m2, n, i, e), n, level, i, e)
  {
    hide Locate, EntryAt, Stepping;
    StepTable(m1, data1, free1, m2, data2, free2, n, level, free, i, e);
    var m3 := SetEntry(m2, n, i, e);
    forall p: Path | 0 < |p| <= level && p[0] < i
      ensures Locate(m3, n, level, p) == Locate(m1, n, level, p) && EntryAt(m3, n, level, p) == EntryAt(m1, n, level, p)
    {
      EarlierPaths(m1, data1, free1, m2, data2, free2, n, level, free, i, e, p);
    }
    NewPaths(m1, data1, free1, m2, data2, free2, n, level, free, i, e, []);
    forall p: Path | 0 < |p| <= level && p[0] == i
      ensures Locate(m3, n, level, p) == Locate(m2, e.frame, level - 1, p[1..])
      ensures |p| > 1 ==> EntryAt(m3, n, level, p) == EntryAt(m2, e.frame, level - 1, p[1..])
    {
      Split(p);
      NewPaths(m1, data1, free1, m2, data2, free2, n, level, free, i, e, p[1..]);
    }
  }

  /** What the new tree owns: what it owned, and what the child owns. */
  lemma StepOwns(m1: Tables, m2: Tables, m3: Tables, n: nat, level: nat, i: nat, e: Entry, f: nat)
    requires 0 < level && Stepped(m1, m2, m3, n, level, i, e)
    ensures Owns(m3, n, level, i + 1, f) <==> Owns(m1, n, level, i, f) || OwnsWithin(m2, e.frame, level - 1, f)
  {
    hide Locate, EntryAt;
    RootLocated(m1, n, level, i);
    RootLocated(m3, n, level, i + 1);
    if Owns(m3, n, level, i + 1, f) {
      var p: Path :| |p| <= level && InReach(p, i + 1) && Locate(m3, n, level, p) == Some(f);
      if p != [] && p[0] == i {
        assert |p[1..]| <= level - 1 && Locate(m2, e.frame, level - 1, p[1..]) == Some(f);
      } else {
        assert InReach(p, i) && Locate(m1, n, level, p) == Some(f);
      }
    }
    if Owns(m1, n, level, i, f) {
      var p: Path :| |p| <= level && InReach(p, i) && Locate(m1, n, level, p) == Some(f);
      assert InReach(p, i + 1) && Locate(m3, n, level, p) == Some(f);
    }
    if OwnsWithin(m2, e.frame, level - 1, f) {
      var p: Path :| |p| <= level - 1 && Locate(m2, e.frame, level - 1, p) == Some(f);
      var q := [i] + p;
      assert q[1..] == p;
      assert InReach(q, i + 1) && |q| <= level && Locate(m3, n, level, q) == Some(f);
    }
  }

  /** Owning by any path at all; the first index is below 512 anyway. */
  ghost predicate OwnsWithin(m: Tables, root: nat, level: nat, f: nat) {
    exists p: Path :: |p| <= level && Locate(m, root, level, p) == Some(f)
  }

  lemma OwnsIsWithin(m: Tables, root: nat, level: nat, f: nat)
    ensures OwnsWithin(m, root, level, f) <==> Owns(m, root, level, ENTRIES, f)
  {
    if OwnsWithin(m, root, level, f) {
      var p: Path :| |p| <= level && Locate(m, root, level, p) == Some(f);
      if !InReach(p, ENTRIES) { OutOfReach(m, root, level, p); }
      assert InReach(p, ENTRIES);
    }
  }

  lemma StepFresh(m1: Tables, data1: Pages, free1: set<nat>, m2: Tables, data2: Pages, free2: set<nat>, m3: Tables,
                  n: nat, level: nat, free: set<nat>, i: nat, e: Entry)
    requires Stepping(m1, data1, free1, m2, data2, free2, n, level, free, i, e) && Stepped(m1, m2, m3, n, level, i, e)
    ensures Fresh(m3, n, level, i + 1, free, free2)
  {
    hide Locate, EntryAt, Owns, OwnsWithin, Stepped, Exclusive;
    forall f: nat ensures Owns(m3, n, level, i + 1, f) <==> f in free && f !in free2 {
      StepOwns(m1, m2, m3, n, level, i, e, f);
      OwnsIsWithin(m2, e.frame, level - 1, f);
    }
  }

  lemma StepExclusive(m1: Tables, data1: Pages, free1: set<nat>, m2: Tables, data2: Pages, free2: set<nat>, m3: Tables,
                      n: nat, level: nat, free: set<nat>, i: nat, e: Entry)
    requires Stepping(m1, data1, free1, m2, data2, free2, n, level, free, i, e) && Stepped(m1, m2, m3, n, level, i, e)
    ensures Exclusive(m3, n, level, i + 1)
  {
    hide Stepping, Stepped, Exclusive, Fresh, Locate, EntryAt, Owns;
    forall p: Path, q: Path | Located(m3, n, level, i + 1, p) && Located(m3, n, level, i + 1, q)
                              && Locate(m3, n, level, p) == Locate(m3, n, level, q)
      ensures p == q
    {
      if p != [] && p[0] == i {
        if q != [] && q[0] == i {
          BothNew(m1, data1, free1, m2, data2, free2, m3, n, level, free, i, e, p, q);
        } else {
          OldAndNew(m1, data1, free1, m2, data2, free2, m3, n, level, free, i, e, q, p);
        }
      } else if q != [] && q[0] == i {
        OldAndNew(m1, data1, free1, m2, data2, free2, m3, n, level, free, i, e, p, q);
      } else {
        BothOld(m1, data1, free1, m2, data2, free2, m3, n, level, free, i, e, p, q);
      }
    }
    CloseExclusive(m3, n, level, i + 1);
  }

  lemma CloseExclusive(m: Tables, root: nat, level: nat, lim: nat)
    requires forall p: Path, q: Path | Located(m, root, level, lim, p) && Located(m, root, level, lim, q) ::
               Locate(m, root, level, p) == Locate(m, root, level, q) ==> p == q
    ensures Exclusive(m, root, level, lim)
  {
  }

  lemma BothNew(m1: Tables, data1: Pages, free1: set<nat>, m2: Tables, data2: Pages, free2: set<nat>, m3: Tables,
                n: nat, level: nat, free: set<nat>, i: nat, e: Entry, p: Path, q: Path)
    requires Stepping(m1, data1, free1, m2, data2, free2, n, level, free, i, e) && Stepped(m1, m2, m3, n, level, i, e)
    requires Located(m3, n, level, i + 1, p) && Located(m3, n, level, i + 1, q)
    requires Locate(m3, n, level, p) == Locate(m3, n, level, q)
    requires p != [] && q != [] && p[0] == i == q[0]
    ensures p == q
  {
    hide *;
    ChildAlone(m1, data1, free1, m2, data2, free2, n, level, free, i, e);
    NewPath(m1, m2, m3, n, level, i, e, p);
    NewPath(m1, m2, m3, n, level, i, e, q);
    OnePlace(m2, e.frame, level - 1, ENTRIES, p[1..], q[1..]);
  }

  lemma ChildAlone(m1: Tables, data1: Pages, free1: set<nat>, m2: Tables, data2: Pages, free2: set<nat>,
                   n: nat, level: nat, free: set<nat>, i: nat, e: Entry)
    requires Stepping(m1, data1, free1, m2, data2, free2, n, level, free, i, e)
    ensures 0 < level && Exclusive(m2, e.frame, level - 1, ENTRIES)
  {
  }

  /** A path through the new entry goes on in the new child. */
  lemma NewPath(m1: Tables, m2: Tables, m3: Tables, n: nat, level: nat, i: nat, e: Entry, p: Path)
    requires Stepped(m1, m2, m3, n, level, i, e) && 0 < level
    requires Located(m3, n, level, i + 1, p) && p != [] && p[0] == i
    ensures p == [i] + p[1..] && Locate(m3, n, level, p) == Locate(m2, e.frame, level - 1, p[1..])
    ensures Located(m2, e.frame, level - 1, ENTRIES, p[1..])
  {
    hide Locate, EntryAt;
    Split(p);
    ChildReach(m2, e.frame, level - 1, p[1..]);
  }

  lemma OnePlace(m: Tables, root: nat, level: nat, lim: nat, p: Path, q: Path)
    requires Exclusive(m, root, level, lim) && Located(m, root, level, lim, p) && Located(m, root, level, lim, q)
    requires Locate(m, root, level, p) == Locate(m, root, level, q)
    ensures p == q
  {
  }

  lemma ChildReach(m: Tables, root: nat, level: nat, p: Path)
    requires |p| <= level && Locate(m, root, level, p).Some?
    ensures Located(m, root, level, ENTRIES, p)
  {
    if !InReach(p, ENTRIES) { OutOfReach(m, root, level, p); }
  }

  lemma OldAndNew(m1: Tables, data1: Pages, free1: set<nat>, m2: Tables, data2: Pages, free2: set<nat>, m3: Tables,
                  n: nat, level: nat, free: set<nat>, i: nat, e: Entry, p: Path, q: Path)
    requires Stepping(m1, data1, free1, m2, data2, free2, n, level, free, i, e) && Stepped(m1, m2, m3, n, level, i, e)
    requires Located(m3, n, level, i + 1, p) && Located(m3, n, level, i + 1, q)
    requires (p == [] || p[0] != i) && q != [] && q[0] == i
    ensures Locate(m3, n, level, p) != Locate(m3, n, level, q)
  {
    hide Locate, EntryAt, Exclusive;
    RootLocated(m1, n, level, i);
    RootLocated(m3, n, level, i + 1);
    var f, g := Locate(m3, n, level, p).value, Locate(m3, n, level, q).value;
    assert Owns(m1, n, level, i, f) by { assert |p| <= level && InReach(p, i) && Locate(m1, n, level, p) == Some(f); }
    ChildReach(m2, e.frame, level - 1, q[1..]);
    assert Owns(m2, e.frame, level - 1, ENTRIES, g) by {
      assert |q[1..]| <= level - 1 && InReach(q[1..], ENTRIES) && Locate(m2, e.frame, level - 1, q[1..]) == Some(g);
    }
  }

  lemma BothOld(m1: Tables, data1: Pages, free1: set<nat>, m2: Tables, data2: Pages, free2: set<nat>, m3: Tables,
                n: nat, level: nat, free: set<nat>, i: nat, e: Entry, p: Path, q: Path)
    requires Stepping(m1, data1, free1, m2, data2, free2, n, level, free, i, e) && Stepped(m1, m2, m3, n, level, i, e)
    requires Located(m3, n, level, i + 1, p) && Located(m3, n, level, i + 1, q)
    requires Locate(m3, n, level, p) == Locate(m3, n, level, q)
    requires (p == [] || p[0] != i) && (q == [] || q[0] != i)
    ensures p == q
  {
  }

  // ----- the copied contents

  /** What is known when the child of entry i has been copied from the source's child. */
  ghost predicate Copied(m: Tables, data: Pages, src: nat, lim: nat, m1: Tables, data1: Pages, free1: set<nat>,
                         m2: Tables, data2: Pages,
                         n: nat, level: nat, free: set<nat>, i: nat, e: Entry) {
    && 0 < level && Source(m, data, src, level, lim, free) && i < lim && i < ENTRIES && HasTable(m, src)
    && Copies(m1, data1, n, m, data, src, level, i) && Untouched(m, m1, data, data1, free)
    && Locate(m, src, level, [i]) == Some(m[src][i].frame) && e.flags == m[src][i].flags
    && Copies(m2, data2, e.frame, m1, data1, m[src][i].frame, level - 1, ENTRIES)
  }

  /** The source's paths through entry i, seen from its child in the memory of now. */
  lemma SourceChildPaths(m: Tables, data: Pages, src: nat, lim: nat, m1: Tables, data1: Pages, level: nat,
                         free: set<nat>, i: nat, r: Path)
    requires Source(m, data, src, level, lim, free) && 0 < level && i < lim && Untouched(m, m1, data, data1, free)
    requires Locate(m, src, level, [i]).Some? && |r| < level && InReach(r, ENTRIES)
    ensures Locate(m1, Locate(m, src, level, [i]).value, level - 1, r) == Locate(m, src, level, [i] + r)
    ensures r != [] ==> EntryAt(m1, Locate(m, src, level, [i]).value, level - 1, r) == EntryAt(m, src, level, [i] + r)
  {
    hide Locate, EntryAt;
    var c := Locate(m, src, level, [i]).value;
    ChildSource(m, data, src, level, lim, free, i);
    SourcePaths(m, m1, data, data1, c, level - 1, ENTRIES, free, r);
    LocateCons(m, src, level, i, r);
  }

  lemma StepEntries(m: Tables, data: Pages, src: nat, lim: nat, m1: Tables, data1: Pages, free1: set<nat>, m2: Tables,
                    data2: Pages, free2: set<nat>,
                    m3: Tables, n: nat, level: nat, free: set<nat>, i: nat, e: Entry, p: Path)
    requires Stepping(m1, data1, free1, m2, data2, free2, n, level, free, i, e) && Stepped(m1, m2, m3, n, level, i, e)
    requires Copied(m, data, src, lim, m1, data1, free1, m2, data2, n, level, free, i, e)
    requires 0 < |p| <= level && p[0] <= i
    ensures SameEntry(EntryAt(m3, n, level, p), EntryAt(m, src, level, p))
  {
    hide Locate, EntryAt, Exclusive, Fresh, Untouched, Source;
    var r := p[1..];
    Split(p);
    if p[0] == i {
      if r == [] {
        assert p == [i];
        EntryOfRoot(m, src, level, i);
      } else if r[0] < ENTRIES {
        SourceChildPaths(m, data, src, lim, m1, data1, level, free, i, r);
      } else {
        OutOfReach(m2, e.frame, level - 1, r);
        LocateCons(m, src, level, i, r);
        OutOfReach(m, m[src][i].frame, level - 1, r);
      }
    }
  }

  lemma StepPages(m: Tables, data: Pages, src: nat, lim: nat, m1: Tables, data1: Pages, free1: set<nat>, m2: Tables,
                  data2: Pages, free2: set<nat>,
                  m3: Tables, n: nat, level: nat, free: set<nat>, i: nat, e: Entry, p: Path)
    requires Stepping(m1, data1, free1, m2, data2, free2, n, level, free, i, e) && Stepped(m1, m2, m3, n, level, i, e)
    requires Copied(m, data, src, lim, m1, data1, free1, m2, data2, n, level, free, i, e)
    requires |p| == level && InReach(p, i + 1)
    ensures SamePage(data2, Locate(m3, n, level, p), data, Locate(m, src, level, p))
  {
    hide Locate, EntryAt, Exclusive;
    var r := p[1..];
    Split(p);
    if p[0] == i {
      if InReach(r, ENTRIES) {
        SourceChildPaths(m, data, src, lim, m1, data1, level, free, i, r);
        assert SamePage(data2, Locate(m2, e.frame, level - 1, r), data1, Locate(m1, m[src][i].frame, level - 1, r));
      } else {
        LocateCons(m, src, level, i, r);
        OutOfReach(m, m[src][i].frame, level - 1, r);
      }
    } else if Locate(m, src, level, p).Some? {
      var a := Locate(m1, n, level, p).value;
      assert Owns(m1, n, level, i, a) by { assert |p| <= level && InReach(p, i) && Locate(m1, n, level, p) == Some(a); }
    }
  }

  lemma StepCopies(m: Tables, data: Pages, src: nat, lim: nat, m1: Tables, data1: Pages, free1: set<nat>, m2: Tables,
                   data2: Pages, free2: set<nat>,
                   m3: Tables, n: nat, level: nat, free: set<nat>, i: nat, e: Entry)
    requires Stepping(m1, data1, free1, m2, data2, free2, n, level, free, i, e) && Stepped(m1, m2, m3, n, level, i, e)
    requires Copied(m, data, src, lim, m1, data1, free1, m2, data2, n, level, free, i, e)
    ensures Copies(m3, data2, n, m, data, src, level, i + 1)
  {
    hide Locate, EntryAt, Stepping, Stepped, Copied, SameEntry, SamePage;
    forall p: Path | 0 < |p| <= level && p[0] < i + 1
      ensures SameEntry(EntryAt(m3, n, level, p), EntryAt(m, src, level, p))
    {
      StepEntries(m, data, src, lim, m1, data1, free1, m2, data2, free2, m3, n, level, free, i, e, p);
    }
    forall p: Path | |p| == level && InReach(p, i + 1)
      ensures SamePage(data2, Locate(m3, n, level, p), data, Locate(m, src, level, p))
    {
      StepPages(m, data, src, lim, m1, data1, free1, m2, data2, free2, m3, n, level, free, i, e, p);
    }
  }

  lemma StepUntouched(m: Tables, data: Pages, m1: Tables, data1: Pages, free1: set<nat>, m2: Tables, data2: Pages,
                      n: nat, i: nat, e: Entry, free: set<nat>)
    requires Untouched(m, m1, data, data1, free) && Untouched(m1, m2, data1, data2, free1) && free1 <= free && n in free
    requires HasTable(m2, n) && i < ENTRIES
    ensures Untouched(m, SetEntry(m2, n, i, e), data, data2, free)
  {
  }

  // ----- one entry of the loop

  /** An entry whose child has been copied. */
  lemma CloneStep(m: Tables, data: Pages, src: nat, lim: nat, free: set<nat>, m1: Tables, data1: Pages, free1: set<nat>,
                  m2: Tables, data2: Pages, free2: set<nat>, n: nat, level: nat, i: nat, e: Entry)
    requires Source(m, data, src, level, lim, free) && 0 < level && i < lim && i < ENTRIES && HasTable(m, src)
    requires Progress(m, data, src, level, free, m1, data1, n, free1, i) && n in free && n !in free1 && HasTable(m1, n)
    requires Locate(m, src, level, [i]) == Some(m[src][i].frame) && e.flags == m[src][i].flags
    requires Progress(m1, data1, m[src][i].frame, level - 1, free1, m2, data2, e.frame, free2, ENTRIES)
    ensures HasTable(m2, n) && m2[n] == m1[n]
    ensures Progress(m, data, src, level, free, SetEntry(m2, n, i, e), data2, n, free2, i + 1)
  {
    OpenProgress(m, data, src, level, free, m1, data1, n, free1, i);
    OpenProgress(m1, data1, m[src][i].frame, level - 1, free1, m2, data2, e.frame, free2, ENTRIES);
    EntryOfRoot(m, src, level, i);
    hide Locate, EntryAt, Owns, Exclusive, Copies, Source, SameEntry, SamePage, Progress, Fresh, Stepped;
    OpenFresh(m1, n, level, i, free, free1);
    assert Below(e, level);
    assert Stepping(m1, data1, free1, m2, data2, free2, n, level, free, i, e);
    assert Copied(m, data, src, lim, m1, data1, free1, m2, data2, n, level, free, i, e);
    StepTable(m1, data1, free1, m2, data2, free2, n, level, free, i, e);
    var m3 := SetEntry(m2, n, i, e);
    StepPaths(m1, data1, free1, m2, data2, free2, n, level, free, i, e);
    StepFresh(m1, data1, free1, m2, data2, free2, m3, n, level, free, i, e);
    StepExclusive(m1, data1, free1, m2, data2, free2, m3, n, level, free, i, e);
    StepCopies(m, data, src, lim, m1, data1, free1, m2, data2, free2, m3, n, level, free, i, e);
    StepUntouched(m, data, m1, data1, free1, m2, data2, n, i, e, free);
    CloseProgress(m, data, src, level, free, m3, data2, n, free2, i + 1);
  }

  lemma OpenProgress(m: Tables, data: Pages, src: nat, level: nat, free: set<nat>, m': Tables, data': Pages, n: nat,
                     free': set<nat>, lim: nat)
    requires Progress(m, data, src, level, free, m', data', n, free', lim)
    ensures Exclusive(m', n, level, lim) && Fresh(m', n, level, lim, free, free')
    ensures Copies(m', data', n, m, data, src, level, lim) && Untouched(m, m', data, data', free)
  {
  }

  lemma CloseProgress(m: Tables, data: Pages, src: nat, level: nat, free: set<nat>, m': Tables, data': Pages, n: nat,
                      free': set<nat>, lim: nat)
    requires Exclusive(m', n, level, lim) && Fresh(m', n, level, lim, free, free')
    requires Copies(m', data', n, m, data, src, level, lim) && Untouched(m, m', data, data', free)
    ensures Progress(m, data, src, level, free, m', data', n, free', lim)
  {
  }

  lemma OpenFresh(m: Tables, root: nat, level: nat, lim: nat, free: set<nat>, free': set<nat>)
    requires Fresh(m, root, level, lim, free, free')
    ensures free' <= free && root in free && root !in free'
  {
    RootLocated(m, root, level, lim);
  }

  /** An entry that is not present, neither in the source nor in the copy. */
  lemma SkipStep(m: Tables, data: Pages, src: nat, free: set<nat>, m1: Tables, data1: Pages, free1: set<nat>, n: nat,
                 level: nat, i: nat)
    requires Progress(m, data, src, level, free, m1, data1, n, free1, i) && 0 < level && i < ENTRIES
    requires HasTable(m, src) && HasTable(m1, n) && !m[src][i].flags.present && !m1[n][i].flags.present
    ensures Progress(m, data, src, level, free, m1, data1, n, free1, i + 1)
  {
    EntryOfRoot(m, src, level, i);
    EntryOfRoot(m1, n, level, i);
    forall p: Path | 0 < |p| && p[0] == i
      ensures Locate(m, src, level, p).None? && Locate(m1, n, level, p).None?
      ensures |p| > 1 ==> EntryAt(m, src, level, p).None? && EntryAt(m1, n, level, p).None?
      ensures |p| == 1 ==> p == [i]
    {
      assert [i] <= p;
      NothingBehind(m, src, level, [i], p);
      NothingBehind(m1, n, level, [i], p);
    }
    hide Locate, EntryAt;
    SkipOwns(m1, n, level, i);
    SkipCopies(m, data, src, m1, data1, n, level, i);
  }

  lemma SkipOwns(m: Tables, n: nat, level: nat, i: nat)
    requires forall p: Path | 0 < |p| && p[0] == i :: Locate(m, n, level, p).None?
    ensures Exclusive(m, n, level, i) ==> Exclusive(m, n, level, i + 1)
    ensures forall f: nat :: Owns(m, n, level, i + 1, f) <==> Owns(m, n, level, i, f)
  {
  }

  lemma SkipCopies(m: Tables, data: Pages, src: nat, m1: Tables, data1: Pages, n: nat, level: nat, i: nat)
    requires Copies(m1, data1, n, m, data, src, level, i) && 0 < level
    requires forall p: Path | 0 < |p| && p[0] == i :: Locate(m, src, level, p).None? && Locate(m1, n, level, p).None?
    requires SameEntry(EntryAt(m1, n, level, [i]), EntryAt(m, src, level, [i]))
    requires forall p: Path | 1 < |p| && p[0] == i :: EntryAt(m, src, level, p).None? && EntryAt(m1, n, level, p).None?
    ensures Copies(m1, data1, n, m, data, src, level, i + 1)
  {
  }

  /** A new table without entries. */
  lemma StartProgress(m: Tables, data: Pages, src: nat, level: nat, free: set<nat>, n: nat, t: seq<Entry>)
    requires n in free && 0 < level
    ensures Progress(m, data, src, level, free, m[n := t], data, n, free - {n}, 0)
  {
  }

  /** The copy of a page. */
  lemma PageProgress(m: Tables, data: Pages, f: nat, free: set<nat>, c: nat)
    requires c in free && f !in free && f in data
    ensures Progress(m, data, f, 0, free, m, data[c := data[f]], c, free - {c}, ENTRIES)
  {
  }

  // ----- the finished copy

  /** The copy has a table or a page exactly where the source has one. */
  lemma CopyLocates(m: Tables, data: Pages, src: nat, level: nat, free: set<nat>, m': Tables, data': Pages, n: nat,
                    free': set<nat>, lim: nat, p: Path)
    requires Progress(m, data, src, level, free, m', data', n, free', lim) && |p| <= level && InReach(p, lim)
    ensures Locate(m', n, level, p).Some? == Locate(m, src, level, p).Some?
  {
    if p != [] { assert SameEntry(EntryAt(m', n, level, p), EntryAt(m, src, level, p)); }
  }

  /** The copy of a source is one itself. */
  lemma CopyIsSource(m: Tables, data: Pages, src: nat, level: nat, free: set<nat>, m': Tables, data': Pages, n: nat,
                     free': set<nat>, lim: nat)
    requires Source(m, data, src, level, lim, free) && Progress(m, data, src, level, free, m', data', n, free', lim)
    requires 0 < lim <= ENTRIES
    requires HasTable(m', n) || level == 0
    ensures Source(m', data', n, level, lim, free')
  {
    forall p: Path | |p| <= level && InReach(p, lim) && Locate(m', n, level, p).Some?
      ensures var f := Locate(m', n, level, p).value;
        f !in free' && (|p| < level ==> HasTable(m', f)) && (|p| == level ==> f in data')
    {
      CopyHasTable(m, data, src, level, free, m', data', n, free', lim, p);
    }
    forall p: Path | 0 < |p| <= level && p[0] < lim
                     && EntryAt(m', n, level, p).Some? && EntryAt(m', n, level, p).value.flags.present
      ensures Locate(m', n, level, p).Some?
    {
      assert SameEntry(EntryAt(m', n, level, p), EntryAt(m, src, level, p));
      CopyLocates(m, data, src, level, free, m', data', n, free', lim, p);
    }
  }

  lemma CopyHasTable(m: Tables, data: Pages, src: nat, level: nat, free: set<nat>, m': Tables, data': Pages, n: nat,
                     free': set<nat>, lim: nat, p: Path)
    requires Source(m, data, src, level, lim, free) && Progress(m, data, src, level, free, m', data', n, free', lim)
    requires 0 < lim <= ENTRIES
    requires |p| <= level && InReach(p, lim) && Locate(m', n, level, p).Some?
    ensures var f := Locate(m', n, level, p).value;
      f !in free' && (|p| < level ==> HasTable(m', f)) && (|p| == level ==> f in data')
  {
    hide Locate, Exclusive, Untouched;
    CopyLocates(m, data, src, level, free, m', data', n, free', lim, p);
    var f := Locate(m', n, level, p).value;
    assert Owns(m', n, level, lim, f);
    if |p| < level {
      var q := p + [0];
      assert q[..|q| - 1] == p;
      assert EntryAt(m, src, level, q).Some?;
      assert SameEntry(EntryAt(m', n, level, q), EntryAt(m, src, level, q));
    } else {
      assert SamePage(data', Locate(m', n, level, p), data, Locate(m, src, level, p));
    }
  }

  /** The copy maps the same addresses, with the same flags, to pages with the same bytes. */
  lemma CopyMapsTheSame(m: Tables, data: Pages, src: nat, level: nat, free: set<nat>, m': Tables, data': Pages, n: nat,
                        free': set<nat>, lim: nat, p: Path)
    requires Source(m, data, src, level, lim, free) && Progress(m, data, src, level, free, m', data', n, free', lim)
    requires |p| == level && p != [] && p[0] < lim
    ensures LeafAt(m', n, level, p).Some? == LeafAt(m, src, level, p).Some?
    ensures LeafAt(m, src, level, p).Some? ==>
      && LeafAt(m', n, level, p).value.flags == LeafAt(m, src, level, p).value.flags
      && LeafAt(m', n, level, p).value.frame in data' && LeafAt(m, src, level, p).value.frame in data
      && data'[LeafAt(m', n, level, p).value.frame] == data[LeafAt(m, src, level, p).value.frame]
      && Locate(m', n, level, p) == Some(LeafAt(m', n, level, p).value.frame)
      && Locate(m, src, level, p) == Some(LeafAt(m, src, level, p).value.frame)
  {
    assert SameEntry(EntryAt(m', n, level, p), EntryAt(m, src, level, p));
    CopyLocates(m, data, src, level, free, m', data', n, free', lim, p);
  }

  /** The two trees have no frame in common, so what is written through one is not seen through
      the other. */
  lemma CopyIsApart(m: Tables, data: Pages, src: nat, level: nat, free: set<nat>, m': Tables, data': Pages, n: nat,
                    free': set<nat>, lim: nat, p: Path, q: Path, bytes: seq<Byte>)
    requires Source(m, data, src, level, lim, free) && Progress(m, data, src, level, free, m', data', n, free', lim)
    requires |p| <= level && InReach(p, lim) && |q| <= level && InReach(q, lim)
    requires Locate(m', src, level, p).Some? && Locate(m', n, level, q).Some?
    ensures Locate(m', src, level, p) == Locate(m, src, level, p)
    ensures Locate(m', src, level, p) != Locate(m', n, level, q)
    ensures |p| == level && |q| == level ==>
      var f, g := Locate(m', src, level, p).value, Locate(m', n, level, q).value;
      && f in data' && g in data' && data'[f] == data[f]
      && data'[f := bytes][g] == data'[g] && data'[g := bytes][f] == data'[f]
  {
    SourcePaths(m, m', data, data', src, level, lim, free, p);
    var f, g := Locate(m', src, level, p).value, Locate(m', n, level, q).value;
    assert Owns(m', n, level, lim, g);
    CopyLocates(m, data, src, level, free, m', data', n, free', lim, q);
    if |q| == level { assert SamePage(data', Locate(m', n, level, q), data, Locate(m, src, level, q)); }
  }
}
