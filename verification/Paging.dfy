/** MapPages, UnmapPage, GetPhysicalAddress and SetFlags of kernel/mm/mappage.cpp. */
module Paging {
  import opened Basics
  import opened PageTables
  import opened PhysicalMemories

  const LEVELS: nat := 4

  /** No table of the address space is free in the bitmap. */
  ghost predicate Allocated(m: Tables, root: nat, free: set<nat>) {
    forall p: Path :: |p| < LEVELS && Locate(m, root, LEVELS, p).Some? ==> Locate(m, root, LEVELS, p).value !in free
  }

  /** A sound address space: a tree of allocated tables. */
  ghost predicate Space(m: Tables, root: nat, free: set<nat>) {
    TreeOfTables(m, root, LEVELS) && Allocated(m, root, free)
  }

  /** All tables stay where they are; new ones appear on the path q only, and they are the frames
      that have been taken from the bitmap. */
  ghost predicate Grew(m: Tables, m': Tables, root: nat, q: Path, free: set<nat>, free': set<nat>) {
    && free' <= free
    && (forall p: Path :: |p| < LEVELS && Locate(m, root, LEVELS, p).Some? ==>
          Locate(m', root, LEVELS, p) == Locate(m, root, LEVELS, p))
    && (forall p: Path :: |p| < LEVELS && Locate(m, root, LEVELS, p).None? && Locate(m', root, LEVELS, p).Some? ==>
          p <= q && Locate(m', root, LEVELS, p).value in free - free')
    && (forall f :: f in free && f !in free' ==> IsTable(m', root, LEVELS, f))
  }

  lemma GrewNot(m: Tables, m': Tables, root: nat, q: Path, free: set<nat>)
    requires SameLocations(m, m', root, LEVELS)
    ensures Grew(m, m', root, q, free, free)
  {
    hide Locate;
  }

  lemma GrewOn(m: Tables, m1: Tables, m2: Tables, root: nat, q1: Path, q: Path, free: set<nat>, free1: set<nat>,
               free2: set<nat>)
    requires Grew(m, m1, root, q1, free, free1) && Grew(m1, m2, root, q, free1, free2) && q1 <= q
    ensures Grew(m, m2, root, q, free, free2)
  {
    hide Locate;
    forall f | f in free && f !in free2 ensures IsTable(m2, root, LEVELS, f) {
      if f !in free1 {
        var p: Path :| |p| < LEVELS && Locate(m1, root, LEVELS, p) == Some(f);
        assert Locate(m2, root, LEVELS, p) == Some(f);
      }
    }
  }

  lemma GrewSpace(m: Tables, m': Tables, root: nat, q: Path, free: set<nat>, free': set<nat>)
    requires Space(m, root, free) && Grew(m, m', root, q, free, free') && TreeOfTables(m', root, LEVELS)
    ensures Space(m', root, free')
  {
    hide Locate, TreeOfTables;
  }

  lemma FreeIsNoTable(m: Tables, root: nat, free: set<nat>, n: nat)
    requires Space(m, root, free) && n in free
    ensures !IsTable(m, root, LEVELS, n)
  {
    hide Locate, TreeOfTables;
  }

  /** A fresh table at the end of q. */
  lemma GrewByOne(m: Tables, m': Tables, root: nat, q: Path, n: nat, free: set<nat>)
    requires Space(m, root, free) && n in free && |q| < LEVELS && Locate(m, root, LEVELS, q).None?
    requires forall p: Path ::
      |p| <= LEVELS ==> Locate(m', root, LEVELS, p) == if p == q then Some(n) else Locate(m, root, LEVELS, p)
    ensures Grew(m, m', root, q, free, free - {n})
  {
    hide Locate, TreeOfTables;
    assert Locate(m', root, LEVELS, q) == Some(n);
  }

  lemma TableHere(m: Tables, root: nat, at: Path, f: nat)
    requires TreeOfTables(m, root, LEVELS) && |at| < LEVELS && Locate(m, root, LEVELS, at) == Some(f)
    ensures HasTable(m, f)
  {
  }

  lemma LocateNext(m: Tables, root: nat, at: Path, f: nat, i: nat)
    requires |at| < LEVELS && Locate(m, root, LEVELS, at) == Some(f) && HasTable(m, f) && i < ENTRIES
    ensures EntryAt(m, root, LEVELS, at + [i]) == Some(m[f][i])
    ensures Locate(m, root, LEVELS, at + [i]) == if Below(m[f][i], LEVELS - |at|) then Some(m[f][i].frame) else None
  {
    assert (at + [i])[..|at|] == at;
  }

  lemma LeafNext(m: Tables, root: nat, at: Path, f: nat, i: nat)
    requires |at| + 1 < LEVELS && Locate(m, root, LEVELS, at) == Some(f) && HasTable(m, f) && i < ENTRIES
    requires m[f][i].flags.present && m[f][i].flags.ps && |at| > 0
    ensures LeafAt(m, root, LEVELS, at + [i]) == Some(m[f][i])
  {
    LocateNext(m, root, at, f, i);
  }

  /** A large page on the path q, in place of one of its tables. */
  ghost predicate LargeOn(m: Tables, root: nat, q: Path)
    requires |q| == LEVELS
  {
    exists k :: 0 < k < LEVELS && LeafAt(m, root, LEVELS, q[..k]).Some?
  }

  /** Where the walk comes to the last table there is none. */
  lemma NotLarge(m: Tables, root: nat, q: Path)
    requires |q| == LEVELS && Locate(m, root, LEVELS, q[..3]).Some?
    ensures !LargeOn(m, root, q)
  {
    forall k | 0 < k < LEVELS ensures LeafAt(m, root, LEVELS, q[..k]).None? {
      assert q[..3][..2] == q[..2] && q[..2][..1] == q[..1];
      assert Locate(m, root, LEVELS, q[..2]).Some? && Locate(m, root, LEVELS, q[..1]).Some?;
      assert k == 1 || k == 2 || k == 3;
    }
  }

  function Widen(e: Entry): Entry {
    e.(flags := e.flags.(rw := true))
  }

  /** What becomes of the directory entries: those on the first n levels of the path q are made
      writable, the others stay as they are, and new ones are as DirTo says. */
  ghost predicate Directories(m: Tables, m': Tables, root: nat, q: Path, n: nat) {
    && (forall p: Path :: 0 < |p| < LEVELS && Locate(m, root, LEVELS, p).Some? && EntryAt(m, root, LEVELS, p).Some? ==>
          EntryAt(m', root, LEVELS, p)
          == Some(if p <= q && |p| <= n then Widen(EntryAt(m, root, LEVELS, p).value)
                  else EntryAt(m, root, LEVELS, p).value))
    && (forall p: Path :: 0 < |p| < LEVELS && Locate(m, root, LEVELS, p).None? && Locate(m', root, LEVELS, p).Some? ==>
          EntryAt(m', root, LEVELS, p) == Some(DirTo(Locate(m', root, LEVELS, p).value)))
  }

  /** The same for one step, which concerns the entry at the end of q. */
  ghost predicate DirectoryStep(m: Tables, m': Tables, root: nat, q: Path) {
    && (forall p: Path :: 0 < |p| < LEVELS && Locate(m, root, LEVELS, p).Some? && EntryAt(m, root, LEVELS, p).Some? ==>
          EntryAt(m', root, LEVELS, p)
          == Some(if p == q then Widen(EntryAt(m, root, LEVELS, p).value) else EntryAt(m, root, LEVELS, p).value))
    && (forall p: Path :: 0 < |p| < LEVELS && Locate(m, root, LEVELS, p).None? && Locate(m', root, LEVELS, p).Some? ==>
          EntryAt(m', root, LEVELS, p) == Some(DirTo(Locate(m', root, LEVELS, p).value)))
  }

  /** Directory entries after an entry that leads on has been made writable. */
  lemma WidenedDirectories(m: Tables, root: nat, at: Path, f: nat, i: nat)
    requires TreeOfTables(m, root, LEVELS) && Locate(m, root, LEVELS, at) == Some(f) && HasTable(m, f) && i < ENTRIES
    requires |at| + 1 < LEVELS && Below(m[f][i], LEVELS - |at|)
    ensures DirectoryStep(m, SetEntry(m, f, i, Widen(m[f][i])), root, at + [i])
  {
    var e, q := Widen(m[f][i]), at + [i];
    var m' := SetEntry(m, f, i, e);
    Widened(m, root, LEVELS, at, f, i, e);
    assert q[..|q| - 1] == at;
    forall p: Path | 0 < |p| < LEVELS
      ensures Locate(m', root, LEVELS, p) == Locate(m, root, LEVELS, p)
      ensures p != q ==> EntryAt(m', root, LEVELS, p) == EntryAt(m, root, LEVELS, p)
    {
      if q <= p {
        if p != q { Onwards(m, root, LEVELS, at, f, i, e, p); }
      } else {
        Elsewhere(m, root, LEVELS, at, f, i, e, p);
      }
    }
    assert Locate(m', root, LEVELS, at) == Some(f);
  }

  /** Directory entries after a new table has been put in. */
  lemma PlantedDirectories(m: Tables, root: nat, at: Path, f: nat, i: nat, n: nat)
    requires TreeOfTables(m, root, LEVELS) && Locate(m, root, LEVELS, at) == Some(f) && HasTable(m, f) && i < ENTRIES
    requires |at| + 1 < LEVELS && !m[f][i].flags.present && !IsTable(m, root, LEVELS, n)
    ensures f != n && DirectoryStep(m, SetEntry(m[n := EMPTY_TABLE], f, i, DirTo(n)), root, at + [i])
  {
    Planted(m, root, LEVELS, at, f, i, n);
    var q, m1 := at + [i], m[n := EMPTY_TABLE];
    var m' := SetEntry(m1, f, i, DirTo(n));
    assert q[..|q| - 1] == at;
    forall p: Path | |p| <= LEVELS
      ensures Locate(m1, root, LEVELS, p) == Locate(m, root, LEVELS, p)
      ensures p != [] ==> EntryAt(m1, root, LEVELS, p) == EntryAt(m, root, LEVELS, p)
    {
      Unreached(m, root, LEVELS, n, EMPTY_TABLE, p);
    }
    SameLocationsTree(m, m1, root, LEVELS);
    forall p: Path | 0 < |p| < LEVELS && Locate(m, root, LEVELS, p).Some?
      ensures EntryAt(m', root, LEVELS, p) == EntryAt(m, root, LEVELS, p)
    {
      if q <= p { NothingBehind(m, root, LEVELS, q, p); } else { Elsewhere(m1, root, LEVELS, at, f, i, DirTo(n), p); }
    }
    assert Locate(m', root, LEVELS, at) == Some(f);
  }

  // ----- rights

  /** What the processor asks of each entry on the way to a page before it writes there. */
  predicate LetsWrite(e: Option<Entry>) {
    e.Some? && e.value.flags.present && e.value.flags.rw
  }

  /** What it asks of each of them on behalf of a user program. */
  predicate LetsUser(e: Option<Entry>) {
    e.Some? && e.value.flags.present && e.value.flags.user
  }

  ghost predicate Writable(m: Tables, root: nat, q: Path)
    requires |q| == LEVELS
  {
    forall k :: 0 < k <= LEVELS ==> LetsWrite(EntryAt(m, root, LEVELS, q[..k]))
  }

  ghost predicate ForUser(m: Tables, root: nat, q: Path)
    requires |q| == LEVELS
  {
    forall k :: 0 < k <= LEVELS ==> LetsUser(EntryAt(m, root, LEVELS, q[..k]))
  }

  /** The directories that are on the way already let the user through. */
  ghost predicate OpenSoFar(m: Tables, root: nat, q: Path)
    requires |q| == LEVELS
  {
    forall k :: 0 < k < LEVELS && Locate(m, root, LEVELS, q[..k]).Some? ==> LetsUser(EntryAt(m, root, LEVELS, q[..k]))
  }

  /** At most the right to write has been added to an entry. */
  ghost predicate NoNarrower(e: Option<Entry>, e': Option<Entry>) {
    e.Some? ==>
      && e'.Some? && e'.value.frame == e.value.frame
      && (e.value.flags.rw ==> e'.value.flags.rw)
      && e'.value.flags.present == e.value.flags.present && e'.value.flags.user == e.value.flags.user
      && e'.value.flags.ps == e.value.flags.ps && e'.value.flags.rest == e.value.flags.rest
  }

  /** That is all that happens to a directory entry; new ones give both rights and no other bit
      of them is set. */
  ghost predicate Opened(m: Tables, m': Tables, root: nat) {
    && (forall p: Path :: 0 < |p| < LEVELS && Locate(m, root, LEVELS, p).Some? ==>
          NoNarrower(EntryAt(m, root, LEVELS, p), EntryAt(m', root, LEVELS, p)))
    && (forall p: Path :: 0 < |p| < LEVELS && Locate(m, root, LEVELS, p).None? && Locate(m', root, LEVELS, p).Some? ==>
          && EntryAt(m', root, LEVELS, p).Some?
          && EntryAt(m', root, LEVELS, p).value.flags == Flags(true, true, true, false, 0))
  }

  lemma OpenedNot(m: Tables, root: nat)
    ensures Opened(m, m, root)
  {
    hide Locate, EntryAt;
  }

  /** No table goes. */
  ghost predicate TablesStay(m: Tables, m': Tables, root: nat) {
    forall p: Path :: |p| < LEVELS && Locate(m, root, LEVELS, p).Some? ==>
      Locate(m', root, LEVELS, p) == Locate(m, root, LEVELS, p)
  }

  lemma GrewStay(m: Tables, m1: Tables, m2: Tables, root: nat, q: Path, free: set<nat>, free': set<nat>)
    requires TablesStay(m, m1, root) && Grew(m1, m2, root, q, free, free')
    ensures TablesStay(m, m2, root)
  {
    hide Locate;
  }

  lemma AllTablesStay(m: Tables, root: nat)
    ensures TablesStay(m, m, root)
  {
  }

  lemma OpenedOn(m: Tables, m1: Tables, m2: Tables, root: nat)
    requires Opened(m, m1, root) && Opened(m1, m2, root) && TablesStay(m, m1, root)
    ensures Opened(m, m2, root)
  {
    hide Locate, EntryAt, LetsWrite, LetsUser;
  }

  lemma OpenedSame(m: Tables, m1: Tables, m2: Tables, root: nat)
    requires Opened(m, m1, root)
    requires forall p: Path :: |p| < LEVELS ==> Locate(m2, root, LEVELS, p) == Locate(m1, root, LEVELS, p)
    requires forall p: Path :: 0 < |p| < LEVELS ==> EntryAt(m2, root, LEVELS, p) == EntryAt(m1, root, LEVELS, p)
    ensures Opened(m, m2, root)
  {
    hide Locate, EntryAt, LetsWrite, LetsUser;
  }

  /** What is open stays so. */
  lemma StaysOpen(m: Tables, m': Tables, root: nat, q: Path)
    requires |q| == LEVELS && Opened(m, m', root) && OpenSoFar(m, root, q)
    ensures OpenSoFar(m', root, q)
  {
    hide Locate, EntryAt;
    forall k | 0 < k < LEVELS && Locate(m', root, LEVELS, q[..k]).Some?
      ensures LetsUser(EntryAt(m', root, LEVELS, q[..k]))
    {
      assert 0 < |q[..k]| < LEVELS;
    }
  }

  /** The rights of a page that has been mapped at the end of q. */
  lemma MappedRights(m: Tables, m': Tables, root: nat, q: Path, e: Entry)
    requires |q| == LEVELS && Directories(m, m', root, q, 3) && Leads(m', root, q, e) && e.flags.present
    ensures e.flags.rw ==> Writable(m', root, q)
    ensures e.flags.user && OpenSoFar(m, root, q) ==> ForUser(m', root, q)
  {
    assert q[..4] == q && EntryAt(m', root, LEVELS, q) == Some(e);
    forall k | 0 < k < LEVELS
      ensures LetsWrite(EntryAt(m', root, LEVELS, q[..k]))
      ensures OpenSoFar(m, root, q) ==> LetsUser(EntryAt(m', root, LEVELS, q[..k]))
    {
      LeafLocates(m', root, q[..k], q);
      assert q[..k] <= q && |q[..k]| == k;
    }
    hide Locate, EntryAt;
  }

  /** And of one that is not touched. */
  lemma RightsStay(m: Tables, m': Tables, root: nat, q: Path)
    requires Opened(m, m', root) && |q| == LEVELS && LeafAt(m, root, LEVELS, q).Some?
    requires LeafAt(m', root, LEVELS, q) == LeafAt(m, root, LEVELS, q)
    ensures Writable(m, root, q) ==> Writable(m', root, q)
    ensures ForUser(m, root, q) ==> ForUser(m', root, q)
  {
    assert q[..4] == q && EntryAt(m', root, LEVELS, q) == EntryAt(m, root, LEVELS, q);
    forall k | 0 < k < LEVELS
      ensures LetsWrite(EntryAt(m, root, LEVELS, q[..k])) ==> LetsWrite(EntryAt(m', root, LEVELS, q[..k]))
      ensures LetsUser(EntryAt(m, root, LEVELS, q[..k])) ==> LetsUser(EntryAt(m', root, LEVELS, q[..k]))
    {
      LeafLocates(m, root, q[..k], q);
    }
    hide Locate, EntryAt;
  }

  lemma StepOpens(m: Tables, m': Tables, root: nat, q: Path)
    requires DirectoryStep(m, m', root, q)
    ensures Opened(m, m', root)
  {
    forall p: Path | 0 < |p| < LEVELS && Locate(m, root, LEVELS, p).Some?
      ensures EntryAt(m, root, LEVELS, p).Some?
    {
    }
    forall p: Path | 0 < |p| < LEVELS && Locate(m', root, LEVELS, p).Some?
      ensures EntryAt(m', root, LEVELS, p).Some?
    {
    }
    hide Locate, EntryAt;
  }

  lemma NoDirectoryStep(m: Tables, root: nat, q: Path)
    ensures Directories(m, m, root, q, 0)
  {
    hide Locate, EntryAt;
  }

  /** One more level. */
  lemma NextDirectory(m: Tables, m1: Tables, m2: Tables, root: nat, q: Path, n: nat, free: set<nat>, free1: set<nat>)
    requires n < |q| && Directories(m, m1, root, q, n) && Grew(m, m1, root, q[..n], free, free1)
    requires DirectoryStep(m1, m2, root, q[..n + 1])
    ensures Directories(m, m2, root, q, n + 1)
  {
    hide Locate, EntryAt;
    forall p: Path | 0 < |p| < LEVELS && Locate(m, root, LEVELS, p).Some? && EntryAt(m, root, LEVELS, p).Some?
      ensures EntryAt(m2, root, LEVELS, p)
           == Some(if p <= q && |p| <= n + 1 then Widen(EntryAt(m, root, LEVELS, p).value)
                   else EntryAt(m, root, LEVELS, p).value)
    {
      assert Locate(m1, root, LEVELS, p).Some? && EntryAt(m1, root, LEVELS, p).Some?;
      assert p == q[..n + 1] <==> p <= q && |p| == n + 1;
    }
    forall p: Path | 0 < |p| < LEVELS && Locate(m, root, LEVELS, p).None? && Locate(m2, root, LEVELS, p).Some?
      ensures EntryAt(m2, root, LEVELS, p) == Some(DirTo(Locate(m2, root, LEVELS, p).value))
    {
      if Locate(m1, root, LEVELS, p).Some? {
        assert p <= q[..n];
        assert EntryAt(m1, root, LEVELS, p) == Some(DirTo(Locate(m1, root, LEVELS, p).value));
        SameTarget(m2, root, p);
      }
    }
  }

  /** A directory entry leads to its own frame. */
  lemma SameTarget(m: Tables, root: nat, p: Path)
    requires p != [] && EntryAt(m, root, LEVELS, p).Some? && Locate(m, root, LEVELS, p).Some?
    ensures Locate(m, root, LEVELS, p) == Some(EntryAt(m, root, LEVELS, p).value.frame)
  {
  }

  /** One of the three directory steps of MapPages: the table below entry i of the table f, which
      is made if there is none. A large page is in the way of it. */
  method EnsureTable(mem: Memory, ghost root: nat, ghost at: Path, level: nat, f: nat, i: nat)
    returns (ok: bool, child: nat)
    requires mem.Valid() && Space(mem.tables, root, mem.FreeFrames())
    requires |at| + 1 < LEVELS && level == LEVELS - |at| && Locate(mem.tables, root, LEVELS, at) == Some(f)
    requires i < ENTRIES
    modifies mem`tables, mem.frames.bytes
    ensures mem.Valid() && Space(mem.tables, root, mem.FreeFrames())
    ensures SameLeaves(old(mem.tables), mem.tables, root, LEVELS)
    ensures Grew(old(mem.tables), mem.tables, root, at + [i], old(mem.FreeFrames()), mem.FreeFrames())
    ensures ok ==> Locate(mem.tables, root, LEVELS, at + [i]) == Some(child)
    ensures !ok ==> mem.FreeFrames() == {} || LeafAt(mem.tables, root, LEVELS, at + [i]).Some?
    ensures ok ==> DirectoryStep(old(mem.tables), mem.tables, root, at + [i])
    ensures Opened(old(mem.tables), mem.tables, root)
  {
    hide Locate, EntryAt, LeafAt, TreeOfTables, Allocated, Space, Grew, SameLeaves, SameLocations, IsTable;
    hide DirectoryStep, Opened, Memory.FreeFrames, Memory.Valid;
    OpenedNot(mem.tables, root);
    ghost var m, free := mem.tables, mem.FreeFrames();
    OpenSpace(m, root, free);
    TableHere(m, root, at, f);
    LocateNext(m, root, at, f, i);
    var e := mem.tables[f][i];
    if !e.flags.present {
      child := mem.AllocFrame();
      if child == 0 {
        NoChange(m, root, at + [i], free);
        return false, 0;
      }
      FreeIsNoTable(m, root, free, child);
      Planted(m, root, LEVELS, at, f, i, child);
      PlantedDirectories(m, root, at, f, i, child);
      mem.tables := mem.tables[child := EMPTY_TABLE];
      mem.tables := SetEntry(mem.tables, f, i, DirTo(child));
      GrewByOne(m, mem.tables, root, at + [i], child, free);
    } else {
      if level < 4 && e.flags.ps {
        NoChange(m, root, at + [i], free);
        LeafNext(m, root, at, f, i);
        return false, 0;
      }
      child := e.frame;
      SameEntry(m, f, i);
      Widened(m, root, LEVELS, at, f, i, e.(flags := e.flags.(rw := true)));
      WidenedDirectories(m, root, at, f, i);
      if !e.flags.rw {
        mem.tables := SetEntry(mem.tables, f, i, e.(flags := e.flags.(rw := true)));
      }
      GrewNot(m, mem.tables, root, at + [i], free);
    }
    GrewSpace(m, mem.tables, root, at + [i], free, mem.FreeFrames());
    StepOpens(m, mem.tables, root, at + [i]);
    ok := true;
  }

  lemma SameEntry(m: Tables, f: nat, i: nat)
    requires HasTable(m, f) && i < ENTRIES
    ensures SetEntry(m, f, i, m[f][i]) == m
  {
    assert m[f][i := m[f][i]] == m[f];
  }

  lemma OpenSpace(m: Tables, root: nat, free: set<nat>)
    requires Space(m, root, free)
    ensures TreeOfTables(m, root, LEVELS) && LEVELS == 4 && ENTRIES == 512
  {
  }

  lemma NoChange(m: Tables, root: nat, q: Path, free: set<nat>)
    ensures SameLeaves(m, m, root, LEVELS) && Grew(m, m, root, q, free, free)
  {
  }

  // ----- addresses

  /** The four indices of a page number. */
  function PathOf(page: nat): (q: Path)
    ensures |q| == LEVELS && forall k :: 0 <= k < LEVELS ==> q[k] < ENTRIES
  {
    [page / 0x800_0000 % 512, page / 0x4_0000 % 512, page / 0x200 % 512, page % 512]
  }

  /** Pages less than 2^36 apart have different paths. */
  lemma PathsDiffer(a: nat, b: nat)
    requires a < b < a + 0x10_0000_0000
    ensures PathOf(a) != PathOf(b)
  {
    Digits(a);
    Digits(b);
  }

  lemma Digits(n: nat)
    ensures var q := PathOf(n);
      n == n / 0x10_0000_0000 * 0x10_0000_0000 + q[0] * 0x800_0000 + q[1] * 0x4_0000 + q[2] * 0x200 + q[3]
  {
    SecondIndex(n);
    ThirdIndex(n);
    FourthIndex(n);
  }

  lemma SecondIndex(n: nat)
    ensures n / 0x4_0000 == n / 0x200 / 512
  {
  }

  lemma ThirdIndex(n: nat)
    ensures n / 0x800_0000 == n / 0x4_0000 / 512
  {
  }

  lemma FourthIndex(n: nat)
    ensures n / 0x10_0000_0000 == n / 0x800_0000 / 512
  {
  }

  // ----- MapPages

  /** Every path but q meets the same leaf. */
  ghost predicate OnlyLeaf(m: Tables, m': Tables, root: nat, q: Path) {
    forall p: Path :: 0 < |p| <= LEVELS && p != q ==> LeafAt(m', root, LEVELS, p) == LeafAt(m, root, LEVELS, p)
  }

  /** The leaf at the end of q is e, if e is present, and otherwise there is none. */
  ghost predicate Leads(m: Tables, root: nat, q: Path, e: Entry)
    requires q != []
  {
    LeafAt(m, root, LEVELS, q) == if e.flags.present then Some(e) else None
  }

  lemma SameThenOnly(m: Tables, m1: Tables, m2: Tables, root: nat, q: Path)
    requires SameLeaves(m, m1, root, LEVELS) && OnlyLeaf(m1, m2, root, q)
    ensures OnlyLeaf(m, m2, root, q)
  {
    hide LeafAt;
  }

  lemma SameThenSame(m: Tables, m1: Tables, m2: Tables, root: nat)
    requires SameLeaves(m, m1, root, LEVELS) && SameLeaves(m1, m2, root, LEVELS)
    ensures SameLeaves(m, m2, root, LEVELS)
  {
    hide LeafAt;
  }

  /** The three directory steps of MapPages for the page at the end of q. */
  method EnsureTables(mem: Memory, root: nat, q: Path) returns (ok: bool, pt: nat)
    requires mem.Valid() && Space(mem.tables, root, mem.FreeFrames()) && |q| == LEVELS
    requires forall k :: 0 <= k < LEVELS ==> q[k] < ENTRIES
    modifies mem`tables, mem.frames.bytes
    ensures mem.Valid() && Space(mem.tables, root, mem.FreeFrames())
    ensures SameLeaves(old(mem.tables), mem.tables, root, LEVELS)
    ensures Grew(old(mem.tables), mem.tables, root, q[..3], old(mem.FreeFrames()), mem.FreeFrames())
    ensures !ok ==> mem.FreeFrames() == {} || LargeOn(mem.tables, root, q)
    ensures ok ==>
      Locate(mem.tables, root, LEVELS, q[..3]) == Some(pt) && Directories(old(mem.tables), mem.tables, root, q, 3)
    ensures Opened(old(mem.tables), mem.tables, root)
  {
    hide Locate, EntryAt, LeafAt, TreeOfTables, Allocated, Space, Grew, SameLeaves, SameLocations, IsTable;
    hide DirectoryStep, Directories, Opened, TablesStay, Memory.FreeFrames, Memory.Valid;
    ghost var m, free := mem.tables, mem.FreeFrames();
    NoDirectoryStep(m, root, q);
    NoChange(m, root, q[..0], free);
    assert [] + [q[0]] == [q[0]] == q[..1];
    assert [q[0]] + [q[1]] == [q[0], q[1]] == q[..2];
    assert [q[0], q[1]] + [q[2]] == q[..3];
    pt := 0;
    LocateRoot(m, root);
    var pdpt, pd;
    ok, pdpt := EnsureTable(mem, root, [], 4, root, q[0]);
    ghost var m1, free1 := mem.tables, mem.FreeFrames();
    WiderGrowth(m, m1, root, q[..1], q[..3], free, free1);
    if !ok { return; }
    NextDirectory(m, m, m1, root, q, 0, free, free);
    ok, pd := EnsureTable(mem, root, [q[0]], 3, pdpt, q[1]);
    ghost var m2, free2 := mem.tables, mem.FreeFrames();
    SameThenSame(m, m1, m2, root);
    AllTablesStay(m, root);
    GrewStay(m, m, m1, root, q[..1], free, free1);
    OpenedOn(m, m1, m2, root);
    GrewOn(m, m1, m2, root, q[..1], q[..2], free, free1, free2);
    WiderGrowth(m, m2, root, q[..2], q[..3], free, free2);
    if !ok { return; }
    NextDirectory(m, m1, m2, root, q, 1, free, free1);
    ok, pt := EnsureTable(mem, root, [q[0], q[1]], 2, pd, q[2]);
    SameThenSame(m, m2, mem.tables, root);
    GrewStay(m, m1, m2, root, q[..2], free1, free2);
    OpenedOn(m, m2, mem.tables, root);
    GrewOn(m, m2, mem.tables, root, q[..2], q[..3], free, free2, mem.FreeFrames());
    if ok { NextDirectory(m, m2, mem.tables, root, q, 2, free, free2); }
  }

  lemma LocateRoot(m: Tables, root: nat)
    ensures Locate(m, root, LEVELS, []) == Some(root)
  {
  }

  lemma WiderGrowth(m: Tables, m': Tables, root: nat, q1: Path, q: Path, free: set<nat>, free': set<nat>)
    requires Grew(m, m', root, q1, free, free') && q1 <= q
    ensures Grew(m, m', root, q, free, free')
  {
    hide Locate;
  }

  /** One turn of the loop of MapPages. */
  method MapOne(mem: Memory, root: nat, page: nat, frame: nat, flags: Flags) returns (ok: bool)
    requires mem.Valid() && Space(mem.tables, root, mem.FreeFrames())
    modifies mem`tables, mem.frames.bytes
    ensures mem.Valid() && Space(mem.tables, root, mem.FreeFrames())
    ensures Grew(old(mem.tables), mem.tables, root, PathOf(page)[..3], old(mem.FreeFrames()), mem.FreeFrames())
    ensures OnlyLeaf(old(mem.tables), mem.tables, root, PathOf(page))
    ensures if ok then Leads(mem.tables, root, PathOf(page), Entry(frame, flags))
            else SameLeaves(old(mem.tables), mem.tables, root, LEVELS)
    ensures if ok then !LargeOn(old(mem.tables), root, PathOf(page))
            else mem.FreeFrames() == {} || LargeOn(old(mem.tables), root, PathOf(page))
    ensures ok ==> Directories(old(mem.tables), mem.tables, root, PathOf(page), 3)
    ensures Opened(old(mem.tables), mem.tables, root)
    ensures ok && flags.present && flags.rw ==> Writable(mem.tables, root, PathOf(page))
    ensures ok && flags.present && flags.user && OpenSoFar(old(mem.tables), root, PathOf(page)) ==>
      ForUser(mem.tables, root, PathOf(page))
  {
    hide Directories, Locate, EntryAt, LeafAt, TreeOfTables, Allocated, Space, Grew, SameLeaves, SameLocations, IsTable;
    hide Memory.FreeFrames, Memory.Valid, OnlyLeaf, Leads, PathOf, LargeOn, Opened, OpenSoFar, Writable, ForUser;
    var q := PathOf(page);
    ghost var m, free := mem.tables, mem.FreeFrames();
    var pt;
    ok, pt := EnsureTables(mem, root, q);
    ghost var m1, free1 := mem.tables, mem.FreeFrames();
    SameIsOnly(m, m1, root, q);
    SameLarge(m, m1, root, q);
    if !ok { return; }
    NotLarge(m1, root, q);
    SetPage(m1, root, q, pt, Entry(frame, flags), free1);
    mem.tables := SetEntry(mem.tables, pt, q[3], Entry(frame, flags));
    SameThenOnly(m, m1, mem.tables, root, q);
    GrewOn(m, m1, mem.tables, root, q[..3], q[..3], free, free1, free1);
    SameDirectories(m, m1, mem.tables, root, q, 3);
    OpenedSame(m, m1, mem.tables, root);
    if flags.present { MappedRights(m, mem.tables, root, q, Entry(frame, flags)); }
  }

  lemma SameLarge(m: Tables, m': Tables, root: nat, q: Path)
    requires SameLeaves(m, m', root, LEVELS) && |q| == LEVELS
    ensures LargeOn(m', root, q) <==> LargeOn(m, root, q)
  {
    hide LeafAt;
    assert forall k :: 0 < k < LEVELS ==> LeafAt(m', root, LEVELS, q[..k]) == LeafAt(m, root, LEVELS, q[..k]);
  }

  lemma SameDirectories(m: Tables, m1: Tables, m2: Tables, root: nat, q: Path, n: nat)
    requires Directories(m, m1, root, q, n)
    requires forall p: Path :: |p| < LEVELS ==> Locate(m2, root, LEVELS, p) == Locate(m1, root, LEVELS, p)
    requires forall p: Path :: 0 < |p| < LEVELS ==> EntryAt(m2, root, LEVELS, p) == EntryAt(m1, root, LEVELS, p)
    ensures Directories(m, m2, root, q, n)
  {
    hide Locate, EntryAt;
  }

  lemma SameIsOnly(m: Tables, m': Tables, root: nat, q: Path)
    requires SameLeaves(m, m', root, LEVELS)
    ensures OnlyLeaf(m, m', root, q)
  {
    hide LeafAt;
  }

  /** Writing the entry of a page. */
  lemma SetPage(m: Tables, root: nat, q: Path, pt: nat, e: Entry, free: set<nat>)
    requires Space(m, root, free) && |q| == LEVELS && q[3] < ENTRIES && Locate(m, root, LEVELS, q[..3]) == Some(pt)
    ensures HasTable(m, pt)
    ensures var m' := SetEntry(m, pt, q[3], e);
      && Space(m', root, free) && OnlyLeaf(m, m', root, q) && Leads(m', root, q, e) && Grew(m, m', root, q[..3], free, free)
      && (forall p: Path :: |p| < LEVELS ==> Locate(m', root, LEVELS, p) == Locate(m, root, LEVELS, p))
      && (forall p: Path :: 0 < |p| < LEVELS ==> EntryAt(m', root, LEVELS, p) == EntryAt(m, root, LEVELS, p))
  {
    TableHere(m, root, q[..3], pt);
    LeafSet(m, root, LEVELS, q[..3], pt, q[3], e);
    assert q == q[..3] + [q[3]];
    forall p: Path | 0 < |p| < LEVELS
      ensures EntryAt(SetEntry(m, pt, q[3], e), root, LEVELS, p) == EntryAt(m, root, LEVELS, p)
    {
      Elsewhere(m, root, LEVELS, q[..3], pt, q[3], e, p);
    }
    hide Locate, LeafAt, TreeOfTables;
  }

  /** What a run of MapPages from page `first` has done when it has come to page `next`: of every
      path that a page of it takes, the leaf is that of the last such page; every other leaf is
      as before. */
  ghost predicate MappedSoFar(m: Tables, m': Tables, root: nat, first: nat, frame: nat, flags: Flags, next: nat) {
    && (forall n: nat :: first <= n < next && LastOn(n, next) ==>
          Leads(m', root, PathOf(n), Entry(frame + (n - first), flags)))
    && (forall p: Path :: 0 < |p| <= LEVELS && !Taken(first, next, p) ==>
          LeafAt(m', root, LEVELS, p) == LeafAt(m, root, LEVELS, p))
  }

  /** No later page of the run takes the path of page n. */
  ghost predicate LastOn(n: nat, next: nat) {
    forall k: nat :: n < k < next ==> PathOf(k) != PathOf(n)
  }

  ghost predicate Taken(first: nat, next: nat, p: Path) {
    exists n: nat :: first <= n < next && PathOf(n) == p
  }

  /** Runs of at most 2^36 pages never come back to a path. */
  lemma AllLast(first: nat, n: nat, next: nat)
    requires first <= n < next <= first + 0x10_0000_0000
    ensures LastOn(n, next)
  {
    forall k: nat | n < k < next ensures PathOf(k) != PathOf(n) { PathsDiffer(n, k); }
  }

  lemma OneMore(m: Tables, m1: Tables, m2: Tables, root: nat, first: nat, frame: nat, flags: Flags, next: nat)
    requires first <= next && MappedSoFar(m, m1, root, first, frame, flags, next)
    requires OnlyLeaf(m1, m2, root, PathOf(next)) && Leads(m2, root, PathOf(next), Entry(frame + (next - first), flags))
    ensures MappedSoFar(m, m2, root, first, frame, flags, next + 1)
  {
    hide LeafAt, PathOf;
    forall n: nat | first <= n < next + 1 && LastOn(n, next + 1)
      ensures Leads(m2, root, PathOf(n), Entry(frame + (n - first), flags))
    {
      if n < next {
        assert LastOn(n, next);
        assert PathOf(next) != PathOf(n);
      }
    }
    forall p: Path | 0 < |p| <= LEVELS && !Taken(first, next + 1, p)
      ensures LeafAt(m2, root, LEVELS, p) == LeafAt(m, root, LEVELS, p)
    {
      assert PathOf(next) != p;
      assert !Taken(first, next, p);
    }
  }

  /** Of every path that a page of the run takes, the last such page can be written if the flags
      say so, and used by the user if they say so and the directories on the way let him through. */
  ghost predicate RightsSoFar(m: Tables, m': Tables, root: nat, first: nat, flags: Flags, next: nat) {
    forall n: nat :: first <= n < next && LastOn(n, next) && flags.present ==>
      && (flags.rw ==> Writable(m', root, PathOf(n)))
      && (flags.user && OpenSoFar(m, root, PathOf(n)) ==> ForUser(m', root, PathOf(n)))
  }

  /** One page more, or a failure. */
  lemma MoreRights(m: Tables, m1: Tables, m2: Tables, root: nat, first: nat, frame: nat, flags: Flags, next: nat)
    requires first <= next && RightsSoFar(m, m1, root, first, flags, next) && Opened(m, m1, root) && Opened(m1, m2, root)
    requires MappedSoFar(m, m1, root, first, frame, flags, next) && OnlyLeaf(m1, m2, root, PathOf(next))
    requires flags.present && flags.rw ==> Writable(m2, root, PathOf(next))
    requires flags.present && flags.user && OpenSoFar(m1, root, PathOf(next)) ==> ForUser(m2, root, PathOf(next))
    ensures RightsSoFar(m, m2, root, first, flags, next + 1)
  {
    hide LeafAt, PathOf, Opened, OpenSoFar, Writable, ForUser;
    forall n: nat | first <= n < next + 1 && LastOn(n, next + 1) && flags.present
      ensures flags.rw ==> Writable(m2, root, PathOf(n))
      ensures flags.user && OpenSoFar(m, root, PathOf(n)) ==> ForUser(m2, root, PathOf(n))
    {
      if n < next {
        assert LastOn(n, next) && PathOf(next) != PathOf(n);
        RightsStay(m1, m2, root, PathOf(n));
      } else if OpenSoFar(m, root, PathOf(n)) {
        StaysOpen(m, m1, root, PathOf(n));
      }
    }
  }

  lemma SameRights(m: Tables, m1: Tables, m2: Tables, root: nat, first: nat, frame: nat, flags: Flags, next: nat)
    requires RightsSoFar(m, m1, root, first, flags, next) && Opened(m1, m2, root)
    requires MappedSoFar(m, m1, root, first, frame, flags, next) && SameLeaves(m1, m2, root, LEVELS)
    ensures RightsSoFar(m, m2, root, first, flags, next)
  {
    hide LeafAt, PathOf, Opened, OpenSoFar, Writable, ForUser;
    forall n: nat | first <= n < next && LastOn(n, next) && flags.present
      ensures flags.rw ==> Writable(m2, root, PathOf(n))
      ensures flags.user && OpenSoFar(m, root, PathOf(n)) ==> ForUser(m2, root, PathOf(n))
    {
      RightsStay(m1, m2, root, PathOf(n));
    }
  }

  lemma NoRights(m: Tables, root: nat, first: nat, flags: Flags)
    ensures RightsSoFar(m, m, root, first, flags, first)
  {
  }

  lemma PathLength(page: nat)
    ensures LEVELS == 4 == |PathOf(page)|
  {
  }

  lemma NoneSoFar(m: Tables, root: nat, page: nat, frame: nat, flags: Flags)
    ensures MappedSoFar(m, m, root, page, frame, flags, page)
  {
  }

  lemma StillSoFar(m: Tables, m1: Tables, m2: Tables, root: nat, page: nat, frame: nat, flags: Flags, done: nat)
    requires MappedSoFar(m, m1, root, page, frame, flags, done) && SameLeaves(m1, m2, root, LEVELS)
    ensures MappedSoFar(m, m2, root, page, frame, flags, done)
  {
    hide LeafAt, PathOf;
  }

  /** Mapping pages puts no large page on a path and takes none away. */
  lemma MappedLarge(m: Tables, m': Tables, root: nat, first: nat, frame: nat, flags: Flags, next: nat, q: Path)
    requires MappedSoFar(m, m', root, first, frame, flags, next) && |q| == LEVELS
    ensures LargeOn(m', root, q) <==> LargeOn(m, root, q)
  {
    hide LeafAt, PathOf;
    forall k | 0 < k < LEVELS ensures LeafAt(m', root, LEVELS, q[..k]) == LeafAt(m, root, LEVELS, q[..k]) {
      assert !Taken(first, next, q[..k]);
    }
  }

  /** MapPages for pages and frames by number. It fails at the first page that has a large page on
      its path, or when the frames have run out. Also when it fails part of the way, all leaves
      outside the run are as before, and the tables are a tree of allocated frames. */
  method MapPages(mem: Memory, root: nat, frame: nat, page: nat, Count: nat, flags: Flags)
    returns (ok: bool, ghost next: nat)
    requires mem.Valid() && Space(mem.tables, root, mem.FreeFrames())
    modifies mem`tables, mem.frames.bytes
    ensures mem.Valid() && Space(mem.tables, root, mem.FreeFrames())
    ensures page <= next <= page + Count && (ok <==> next == page + Count)
    ensures forall n: nat :: page <= n < next ==> !LargeOn(old(mem.tables), root, PathOf(n))
    ensures !ok ==> mem.FreeFrames() == {} || LargeOn(old(mem.tables), root, PathOf(next))
    ensures MappedSoFar(old(mem.tables), mem.tables, root, page, frame, flags, next)
    ensures RightsSoFar(old(mem.tables), mem.tables, root, page, flags, next)
    ensures ok && flags.present && NoEmptyTable(old(mem.tables), root) ==> NoEmptyTable(mem.tables, root)
  {
    hide *;
    ghost var m := mem.tables;
    NoneSoFar(m, root, page, frame, flags);
    NoRights(m, root, page, flags);
    OpenedNot(m, root);
    AllTablesStay(m, root);
    next := page;
    for I := 0 to Count
      invariant mem.Valid() && Space(mem.tables, root, mem.FreeFrames())
      invariant next == page + I && MappedSoFar(m, mem.tables, root, page, frame, flags, next)
      invariant forall n: nat :: page <= n < next ==> !LargeOn(m, root, PathOf(n))
      invariant flags.present && NoEmptyTable(m, root) ==> NoEmptyTable(mem.tables, root)
      invariant RightsSoFar(m, mem.tables, root, page, flags, next)
      invariant Opened(m, mem.tables, root) && TablesStay(m, mem.tables, root)
    {
      ghost var m1, free1 := mem.tables, mem.FreeFrames();
      PathLength(page + I);
      MappedLarge(m, m1, root, page, frame, flags, next, PathOf(next));
      ok := MapOne(mem, root, page + I, frame + I, flags);
      if !ok {
        StillSoFar(m, m1, mem.tables, root, page, frame, flags, next);
        SameRights(m, m1, mem.tables, root, page, frame, flags, next);
        return false, next;
      }
      MoreRights(m, m1, mem.tables, root, page, frame, flags, next);
      OpenedOn(m, m1, mem.tables, root);
      GrewStay(m, m1, mem.tables, root, PathOf(page + I)[..3], free1, mem.FreeFrames());
      OneMore(m, m1, mem.tables, root, page, frame, flags, next);
      if flags.present && NoEmptyTable(m1, root) {
        MapKeepsNoEmpty(m1, mem.tables, root, PathOf(page + I), Entry(frame + I, flags), free1, mem.FreeFrames());
      }
      next := next + 1;
    }
    return true, next;
  }

  // ----- UnmapPage

  ghost predicate NoPresent(m: Tables, f: nat) {
    HasTable(m, f) && forall k :: 0 <= k < ENTRIES ==> !m[f][k].flags.present
  }

  /** Whether a table holds no present entry. */
  method IsEmpty(mem: Memory, f: nat) returns (empty: bool)
    requires HasTable(mem.tables, f)
    ensures empty <==> NoPresent(mem.tables, f)
  {
    for i := 0 to ENTRIES
      invariant forall k :: 0 <= k < i ==> !mem.tables[f][k].flags.present
    {
      if mem.tables[f][i].flags.present { return false; }
    }
    return true;
  }

  /** The locations after the table at the end of q may have been removed. */
  ghost predicate Cut(m: Tables, m': Tables, root: nat, q: Path, removed: bool) {
    forall p: Path :: |p| < LEVELS ==> Locate(m', root, LEVELS, p) == if removed && p == q then None
                                                                      else Locate(m, root, LEVELS, p)
  }

  lemma CutSpace(m: Tables, m': Tables, root: nat, q: Path, n: nat, free: set<nat>, more: set<nat>)
    requires Space(m, root, free) && |q| < LEVELS && Locate(m, root, LEVELS, q) == Some(n) && more <= {n}
    requires Cut(m, m', root, q, true) && TreeOfTables(m', root, LEVELS)
    ensures Space(m', root, free + more)
  {
    hide Locate;
    forall p: Path | |p| < LEVELS && Locate(m', root, LEVELS, p).Some?
      ensures Locate(m', root, LEVELS, p).value !in free + more
    {
      if Locate(m', root, LEVELS, p) == Some(n) { OnePath(m, root, LEVELS, p, q); }
    }
  }

  /** The directory entries that are still on the way to a table are as they were. */
  ghost predicate DirectoriesStay(m: Tables, m': Tables, root: nat) {
    forall p: Path :: 0 < |p| < LEVELS && Locate(m', root, LEVELS, p).Some? ==>
      Locate(m', root, LEVELS, p) == Locate(m, root, LEVELS, p) && EntryAt(m', root, LEVELS, p) == EntryAt(m, root, LEVELS, p)
  }

  lemma StayTrans(m: Tables, m1: Tables, m2: Tables, root: nat)
    requires DirectoriesStay(m, m1, root) && DirectoriesStay(m1, m2, root)
    ensures DirectoriesStay(m, m2, root)
  {
    hide Locate, EntryAt;
  }

  lemma AllStay(m: Tables, m': Tables, root: nat)
    requires forall p: Path :: |p| < LEVELS ==> Locate(m', root, LEVELS, p) == Locate(m, root, LEVELS, p)
    requires forall p: Path :: 0 < |p| < LEVELS ==> EntryAt(m', root, LEVELS, p) == EntryAt(m, root, LEVELS, p)
    ensures DirectoriesStay(m, m', root)
  {
    hide Locate, EntryAt;
  }

  lemma PrunedStay(m: Tables, root: nat, at: Path, f: nat, i: nat, n: nat)
    requires TreeOfTables(m, root, LEVELS) && Locate(m, root, LEVELS, at) == Some(f) && HasTable(m, f) && i < ENTRIES
    requires |at| + 1 < LEVELS && Locate(m, root, LEVELS, at + [i]) == Some(n)
    requires HasTable(m, n) && forall k :: 0 <= k < ENTRIES ==> !m[n][k].flags.present
    ensures DirectoriesStay(m, SetEntry(m, f, i, CLEAR), root)
  {
    var m' := SetEntry(m, f, i, CLEAR);
    Pruned(m, root, LEVELS, at, f, i, n);
    forall p: Path | 0 < |p| < LEVELS && Locate(m', root, LEVELS, p).Some?
      ensures Locate(m', root, LEVELS, p) == Locate(m, root, LEVELS, p)
      ensures EntryAt(m', root, LEVELS, p) == EntryAt(m, root, LEVELS, p)
    {
      if at + [i] <= p {
        if p != at + [i] { EmptyBehind(m, root, LEVELS, at + [i], n, p); }
      } else {
        Elsewhere(m, root, LEVELS, at, f, i, CLEAR, p);
      }
    }
  }

  /** One of the three steps in which UnmapPage gives an empty table back. */
  method Prune(mem: Memory, ghost root: nat, ghost at: Path, f: nat, i: nat, n: nat) returns (ghost removed: bool)
    requires mem.Valid() && Space(mem.tables, root, mem.FreeFrames())
    requires |at| + 1 < LEVELS && i < ENTRIES && Locate(mem.tables, root, LEVELS, at) == Some(f)
    requires Locate(mem.tables, root, LEVELS, at + [i]) == Some(n)
    modifies mem`tables, mem.frames.bytes, mem.frames`doubleFree
    ensures mem.Valid() && Space(mem.tables, root, mem.FreeFrames())
    ensures mem.frames.doubleFree == old(mem.frames.doubleFree)
    ensures SameLeaves(old(mem.tables), mem.tables, root, LEVELS)
    ensures removed == NoPresent(old(mem.tables), n) && Cut(old(mem.tables), mem.tables, root, at + [i], removed)
    ensures mem.FreeFrames() == old(mem.FreeFrames()) + if removed && Managed(n) then {n} else {}
    ensures f != n && HasTable(old(mem.tables), f)
    ensures mem.tables == if removed then SetEntry(old(mem.tables), f, i, CLEAR) else old(mem.tables)
    ensures DirectoriesStay(old(mem.tables), mem.tables, root)
  {
    hide DirectoriesStay, Locate, EntryAt, LeafAt, TreeOfTables, Allocated, Space, SameLeaves, Cut, NoPresent;
    hide Memory.FreeFrames, Memory.Valid;
    ghost var m, free := mem.tables, mem.FreeFrames();
    OpenSpace(m, root, free);
    TableHere(m, root, at, f);
    TableHere(m, root, at + [i], n);
    if f == n { OnePath(m, root, LEVELS, at, at + [i]); }
    NoCut(m, root, at + [i]);
    AllStay(m, m, root);
    var empty := IsEmpty(mem, n);
    removed := empty;
    if empty {
      if n in free { FreeIsNoTable(m, root, free, n); }
      OpenNoPresent(m, n);
      Pruned(m, root, LEVELS, at, f, i, n);
      PrunedStay(m, root, at, f, i, n);
      mem.tables := SetEntry(mem.tables, f, i, CLEAR);
      AllCut(m, mem.tables, root, at + [i]);
      mem.FreeFrame(n);
      CutSpace(m, mem.tables, root, at + [i], n, free, if Managed(n) then {n} else {});
    }
  }

  lemma AllCut(m: Tables, m': Tables, root: nat, q: Path)
    requires forall p: Path ::
      |p| <= LEVELS ==> Locate(m', root, LEVELS, p) == if p == q then None else Locate(m, root, LEVELS, p)
    ensures Cut(m, m', root, q, true)
  {
    hide Locate;
  }

  lemma OpenNoPresent(m: Tables, f: nat)
    requires NoPresent(m, f)
    ensures HasTable(m, f) && forall k :: 0 <= k < ENTRIES ==> !m[f][k].flags.present
  {
  }

  lemma NoCut(m: Tables, root: nat, q: Path)
    ensures Cut(m, m, root, q, false) && SameLeaves(m, m, root, LEVELS)
  {
  }

  /** What the walk does at one table: it stops, or goes on below. */
  lemma WalkStops(m: Tables, root: nat, q: Path, k: nat)
    requires 0 < k < LEVELS == |q|
    requires (EntryAt(m, root, LEVELS, q[..k]).Some? ==> !Below(EntryAt(m, root, LEVELS, q[..k]).value, LEVELS + 1 - k))
    ensures LeafAt(m, root, LEVELS, q).None?
  {
    Dead(m, root, q[..k], q);
  }

  lemma {:induction false} Dead(m: Tables, root: nat, at: Path, p: Path)
    requires at != [] && at <= p && |p| <= LEVELS
    requires EntryAt(m, root, LEVELS, at).Some? ==> !Below(EntryAt(m, root, LEVELS, at).value, LEVELS + 1 - |at|)
    ensures Locate(m, root, LEVELS, p).None? && (|p| > |at| ==> EntryAt(m, root, LEVELS, p).None?)
    decreases |p|
  {
    if p != at { Dead(m, root, at, p[..|p| - 1]); }
  }

  /** The walk that UnmapPage and SetFlags share: down to the table of level 1, if the page is
      mapped by one. */
  method FindPage(mem: Memory, root: nat, q: Path) returns (found: bool, pdpt: nat, pd: nat, pt: nat)
    requires mem.Valid() && Space(mem.tables, root, mem.FreeFrames()) && |q| == LEVELS
    requires forall k :: 0 <= k < LEVELS ==> q[k] < ENTRIES
    ensures found <==> LeafAt(mem.tables, root, LEVELS, q).Some?
    ensures found ==>
      Locate(mem.tables, root, LEVELS, q[..1]) == Some(pdpt) && Locate(mem.tables, root, LEVELS, q[..2]) == Some(pd)
    ensures found ==> Locate(mem.tables, root, LEVELS, q[..3]) == Some(pt) && HasTable(mem.tables, pt)
    ensures found ==> LeafAt(mem.tables, root, LEVELS, q) == Some(mem.tables[pt][q[3]])
  {
    hide Locate, EntryAt, LeafAt, TreeOfTables, Allocated, Space, Memory.FreeFrames, Memory.Valid;
    ghost var m := mem.tables;
    found, pdpt, pd, pt := false, 0, 0, 0;
    assert q[..1] == [] + [q[0]] && q[..2] == q[..1] + [q[1]] && q[..3] == q[..2] + [q[2]] && q == q[..3] + [q[3]];
    OpenSpace(m, root, mem.FreeFrames());
    LocateRoot(m, root);
    TableHere(m, root, [], root);
    LocateNext(m, root, [], root, q[0]);
    var e4 := mem.tables[root][q[0]];
    if !e4.flags.present { WalkStops(m, root, q, 1); return; }
    pdpt := e4.frame;
    TableHere(m, root, q[..1], pdpt);
    LocateNext(m, root, q[..1], pdpt, q[1]);
    var e3 := mem.tables[pdpt][q[1]];
    if !e3.flags.present || e3.flags.ps { WalkStops(m, root, q, 2); return; }
    pd := e3.frame;
    TableHere(m, root, q[..2], pd);
    LocateNext(m, root, q[..2], pd, q[2]);
    var e2 := mem.tables[pd][q[2]];
    if !e2.flags.present || e2.flags.ps { WalkStops(m, root, q, 3); return; }
    pt := e2.frame;
    TableHere(m, root, q[..3], pt);
    LocateNext(m, root, q[..3], pt, q[3]);
    LastLeaf(m, root, q);
    found := mem.tables[pt][q[3]].flags.present;
  }

  lemma LastLeaf(m: Tables, root: nat, q: Path)
    requires |q| == LEVELS && EntryAt(m, root, LEVELS, q).Some?
    ensures var e := EntryAt(m, root, LEVELS, q).value; LeafAt(m, root, LEVELS, q) == if e.flags.present then Some(e)
                                                                                      else None
  {
  }

  /** The table at the end of p has gone because it holds no present entry any more. */
  ghost predicate Gone(m: Tables, m': Tables, root: nat, q: Path, p: Path) {
    0 < |p| < LEVELS && p <= q && Locate(m, root, LEVELS, p).Some? && NoPresent(m', Locate(m, root, LEVELS, p).value)
  }

  /** What UnmapPage does for the page at the end of q: its leaf goes, and with it exactly those
      tables on the way that are left without present entry. */
  ghost predicate Unmapped(m: Tables, m': Tables, root: nat, q: Path, free: set<nat>, free': set<nat>)
    requires |q| == LEVELS
  {
    && OnlyLeaf(m, m', root, q) && LeafAt(m', root, LEVELS, q).None?
    && (forall p: Path :: |p| < LEVELS ==>
          Locate(m', root, LEVELS, p) == if Gone(m, m', root, q, p) then None else Locate(m, root, LEVELS, p))
    && (forall f ::
          f in free' <==>
          f in free || (Managed(f) && exists p: Path :: Gone(m, m', root, q, p) && Locate(m, root, LEVELS, p) == Some(f)))
  }

  /** UnmapPage. */
  method UnmapPage(mem: Memory, root: nat, page: nat) returns (ok: bool)
    requires mem.Valid() && Space(mem.tables, root, mem.FreeFrames())
    modifies mem`tables, mem.frames.bytes, mem.frames`doubleFree
    ensures mem.Valid() && Space(mem.tables, root, mem.FreeFrames())
    ensures mem.frames.doubleFree == old(mem.frames.doubleFree)
    ensures ok <==> LeafAt(old(mem.tables), root, LEVELS, PathOf(page)).Some?
    ensures !ok ==> mem.tables == old(mem.tables) && mem.FreeFrames() == old(mem.FreeFrames())
    ensures ok ==> Unmapped(old(mem.tables), mem.tables, root, PathOf(page), old(mem.FreeFrames()), mem.FreeFrames())
    ensures ok ==> DirectoriesStay(old(mem.tables), mem.tables, root)
  {
    hide DirectoriesStay, Locate, EntryAt, LeafAt, TreeOfTables, Allocated, Space, SameLeaves, Cut, NoPresent, Gone;
    hide Unmapped, OnlyLeaf, Leads, PathOf, Grew, Memory.FreeFrames, Memory.Valid;
    var q := PathOf(page);
    ghost var m, free := mem.tables, mem.FreeFrames();
    var pdpt, pd, pt;
    ok, pdpt, pd, pt := FindPage(mem, root, q);
    if !ok { return; }
    SetPage(m, root, q, pt, CLEAR, free);
    ghost var m0 := SetEntry(m, pt, q[3], CLEAR);
    AllStay(m, m0, root);
    mem.tables := SetEntry(mem.tables, pt, q[3], CLEAR);
    LocateRoot(m, root);
    assert q[..1] == [] + [q[0]] && q[..2] == q[..1] + [q[1]] && q[..3] == q[..2] + [q[2]];
    ghost var r3 := Prune(mem, root, q[..2], pd, q[2], pt);
    ghost var m3, free3 := mem.tables, mem.FreeFrames();
    OpenCut(m0, m3, root, q[..3], r3);
    ghost var r2 := Prune(mem, root, q[..1], pdpt, q[1], pd);
    ghost var m2, free2 := mem.tables, mem.FreeFrames();
    OpenCut(m3, m2, root, q[..2], r2);
    ghost var r1 := Prune(mem, root, [], root, q[0], pdpt);
    OpenCut(m2, mem.tables, root, q[..1], r1);
    ghost var m1, free1 := mem.tables, mem.FreeFrames();
    StayTrans(m, m0, m3, root);
    StayTrans(m, m3, m2, root);
    StayTrans(m, m2, m1, root);
    DifferentTables(m, root, q, pdpt, pd, pt, free);
    OtherTable(m0, pd, q[2], pt, r3);
    OtherTable(m3, pdpt, q[1], pt, r2);
    OtherTable(m2, root, q[0], pt, r1);
    OtherTable(m3, pdpt, q[1], pd, r2);
    OtherTable(m2, root, q[0], pd, r1);
    OtherTable(m2, root, q[0], pdpt, r1);
    UnmapLeaves(m, m0, m3, m2, m1, root, q);
    UnmapTables(m, m1, root, q, pdpt, pd, pt);
    UnmapFrames(m, m1, root, q, pdpt, pd, pt, free, free1);
    CloseUnmapped(m, m1, root, q, free, free1);
  }

  lemma DifferentTables(m: Tables, root: nat, q: Path, pdpt: nat, pd: nat, pt: nat, free: set<nat>)
    requires Space(m, root, free) && |q| == LEVELS && Locate(m, root, LEVELS, q[..1]) == Some(pdpt)
    requires Locate(m, root, LEVELS, q[..2]) == Some(pd) && Locate(m, root, LEVELS, q[..3]) == Some(pt)
    ensures pt != pd && pt != pdpt && pt != root && pd != pdpt && pd != root && pdpt != root
  {
    LocateRoot(m, root);
    hide Locate;
    assert |q[..1]| == 1 && |q[..2]| == 2 && |q[..3]| == 3;
  }

  lemma OtherTable(m: Tables, f: nat, i: nat, g: nat, changed: bool)
    requires HasTable(m, f) && i < ENTRIES && g != f
    ensures NoPresent(if changed then SetEntry(m, f, i, CLEAR) else m, g) == NoPresent(m, g)
  {
  }

  lemma UnmapLeaves(m: Tables, m0: Tables, m3: Tables, m2: Tables, m1: Tables, root: nat, q: Path)
    requires |q| == LEVELS && OnlyLeaf(m, m0, root, q) && Leads(m0, root, q, CLEAR)
    requires SameLeaves(m0, m3, root, LEVELS) && SameLeaves(m3, m2, root, LEVELS) && SameLeaves(m2, m1, root, LEVELS)
    ensures OnlyLeaf(m, m1, root, q) && LeafAt(m1, root, LEVELS, q).None?
  {
    hide LeafAt;
  }

  /** What has gone, in terms of the three tables on the way. */
  lemma UnmapTables(m: Tables, m': Tables, root: nat, q: Path, pdpt: nat, pd: nat, pt: nat)
    requires |q| == LEVELS && Locate(m, root, LEVELS, q[..1]) == Some(pdpt)
    requires Locate(m, root, LEVELS, q[..2]) == Some(pd) && Locate(m, root, LEVELS, q[..3]) == Some(pt)
    requires forall p: Path :: |p| < LEVELS ==>
      Locate(m', root, LEVELS, p)
      == if (NoPresent(m', pt) && p == q[..3]) || (NoPresent(m', pd) && p == q[..2]) || (NoPresent(m', pdpt) && p == q[..1])
                                     then None else Locate(m, root, LEVELS, p)
    ensures forall p: Path :: |p| < LEVELS ==>
      Locate(m', root, LEVELS, p) == if Gone(m, m', root, q, p) then None else Locate(m, root, LEVELS, p)
  {
    hide Locate, NoPresent;
    forall p: Path | |p| < LEVELS
      ensures Gone(m, m', root, q, p) <==>
        (NoPresent(m', pt) && p == q[..3]) || (NoPresent(m', pd) && p == q[..2]) || (NoPresent(m', pdpt) && p == q[..1])
    {
      OnTheWay(q, p);
    }
  }

  lemma OnTheWay(q: Path, p: Path)
    requires |q| == LEVELS
    ensures 0 < |p| < LEVELS && p <= q <==> p == q[..1] || p == q[..2] || p == q[..3]
  {
  }

  lemma UnmapFrames(m: Tables, m': Tables, root: nat, q: Path, pdpt: nat, pd: nat, pt: nat, free: set<nat>,
                    free': set<nat>)
    requires |q| == LEVELS && Locate(m, root, LEVELS, q[..1]) == Some(pdpt)
    requires Locate(m, root, LEVELS, q[..2]) == Some(pd) && Locate(m, root, LEVELS, q[..3]) == Some(pt)
    requires free' == free + (if NoPresent(m', pt) && Managed(pt) then {pt} else {})
                      + (if NoPresent(m', pd) && Managed(pd) then {pd} else {})
                    + (if NoPresent(m', pdpt) && Managed(pdpt) then {pdpt} else {})
    ensures forall f ::
      f in free' <==>
      f in free || (Managed(f) && exists p: Path :: Gone(m, m', root, q, p) && Locate(m, root, LEVELS, p) == Some(f))
  {
    hide Locate, NoPresent;
    forall f
      ensures f in free' <==>
        f in free || (Managed(f) && exists p: Path :: Gone(m, m', root, q, p) && Locate(m, root, LEVELS, p) == Some(f))
    {
      if f in free' && f !in free {
        var p := if f == pt && NoPresent(m', pt) then q[..3]
                 else if f == pd && NoPresent(m', pd) then q[..2] else q[..1];
        assert Gone(m, m', root, q, p) && Locate(m, root, LEVELS, p) == Some(f);
      }
      if p: Path :| Gone(m, m', root, q, p) && Locate(m, root, LEVELS, p) == Some(f) {
        OnTheWay(q, p);
      }
    }
  }

  lemma CloseUnmapped(m: Tables, m': Tables, root: nat, q: Path, free: set<nat>, free': set<nat>)
    requires |q| == LEVELS && OnlyLeaf(m, m', root, q) && LeafAt(m', root, LEVELS, q).None?
    requires forall p: Path :: |p| < LEVELS ==>
      Locate(m', root, LEVELS, p) == if Gone(m, m', root, q, p) then None else Locate(m, root, LEVELS, p)
    requires forall f ::
      f in free' <==>
      f in free || (Managed(f) && exists p: Path :: Gone(m, m', root, q, p) && Locate(m, root, LEVELS, p) == Some(f))
    ensures Unmapped(m, m', root, q, free, free')
  {
  }

  lemma OpenCut(m: Tables, m': Tables, root: nat, q: Path, removed: bool)
    requires Cut(m, m', root, q, removed)
    ensures forall p: Path ::
      |p| < LEVELS ==> Locate(m', root, LEVELS, p) == if removed && p == q then None else Locate(m, root, LEVELS, p)
  {
  }

  // ----- no empty tables

  /** Some leaf lies behind p. */
  ghost predicate HasLeaf(m: Tables, root: nat, p: Path) {
    exists r: Path :: 0 < |r| <= LEVELS && p <= r && LeafAt(m, root, LEVELS, r).Some?
  }

  /** Every table but the root leads to a leaf. */
  ghost predicate NoEmptyTable(m: Tables, root: nat) {
    forall p: Path :: 0 < |p| < LEVELS && Locate(m, root, LEVELS, p).Some? ==> HasLeaf(m, root, p)
  }

  /** So none of them lacks present entries. */
  lemma NoEmptyMeans(m: Tables, root: nat, p: Path)
    requires NoEmptyTable(m, root) && 0 < |p| < LEVELS && Locate(m, root, LEVELS, p).Some?
    ensures !NoPresent(m, Locate(m, root, LEVELS, p).value)
  {
    var r: Path :| 0 < |r| <= LEVELS && p <= r && LeafAt(m, root, LEVELS, r).Some?;
    if NoPresent(m, Locate(m, root, LEVELS, p).value) && r != p {
      EmptyBehind(m, root, LEVELS, p, Locate(m, root, LEVELS, p).value, r);
    }
  }

  /** On the way to a leaf every table is there. */
  lemma {:induction false} LeafLocates(m: Tables, root: nat, p: Path, r: Path)
    requires r != [] && |r| <= LEVELS && EntryAt(m, root, LEVELS, r).Some? && p <= r && p != r
    ensures Locate(m, root, LEVELS, p).Some?
    decreases |r|
  {
    var init := r[..|r| - 1];
    if p != init { LeafLocates(m, root, p, init); }
  }

  /** A successful map of a present page keeps the form. */
  lemma MapKeepsNoEmpty(m: Tables, m': Tables, root: nat, q: Path, e: Entry, free: set<nat>, free': set<nat>)
    requires NoEmptyTable(m, root) && |q| == LEVELS && e.flags.present
    requires OnlyLeaf(m, m', root, q) && Leads(m', root, q, e) && Grew(m, m', root, q[..3], free, free')
    ensures NoEmptyTable(m', root)
  {
    hide Locate, LeafAt;
    forall p: Path | 0 < |p| < LEVELS && Locate(m', root, LEVELS, p).Some? ensures HasLeaf(m', root, p) {
      if Locate(m, root, LEVELS, p).Some? {
        var r: Path :| 0 < |r| <= LEVELS && p <= r && LeafAt(m, root, LEVELS, r).Some?;
        assert LeafAt(m', root, LEVELS, r).Some?;
      } else {
        assert p <= q && LeafAt(m', root, LEVELS, q).Some?;
      }
    }
  }

  /** So does a successful unmap. */
  lemma UnmapKeepsNoEmpty(m: Tables, m': Tables, root: nat, q: Path, free: set<nat>, free': set<nat>)
    requires NoEmptyTable(m, root) && |q| == LEVELS && Unmapped(m, m', root, q, free, free')
    requires TreeOfTables(m', root, LEVELS)
    ensures NoEmptyTable(m', root)
  {
    hide Locate, LeafAt, TreeOfTables, Unmapped;
    forall p: Path | 0 < |p| < LEVELS && Locate(m', root, LEVELS, p).Some? ensures HasLeaf(m', root, p) {
      StillLeads(m, m', root, q, free, free', p);
    }
  }

  lemma {:induction false} StillLeads(m: Tables, m': Tables, root: nat, q: Path, free: set<nat>, free': set<nat>,
                                      p: Path)
    requires NoEmptyTable(m, root) && |q| == LEVELS && Unmapped(m, m', root, q, free, free')
    requires TreeOfTables(m', root, LEVELS)
    requires 0 < |p| < LEVELS && Locate(m', root, LEVELS, p).Some?
    ensures HasLeaf(m', root, p)
    decreases LEVELS - |p|
  {
    hide Locate, LeafAt, EntryAt, TreeOfTables, HasLeaf, NoPresent;
    if p <= q {
      assert !Gone(m, m', root, q, p);
      var g := Locate(m', root, LEVELS, p).value;
      TableHere(m', root, p, g);
      var k := SomePresent(m', g);
      LocateNext(m', root, p, g, k);
      OneStep(m', root, p, g, k);
      if Locate(m', root, LEVELS, p + [k]).Some? && |p| + 1 < LEVELS {
        StillLeads(m, m', root, q, free, free', p + [k]);
        LeafBehind(m', root, p, p + [k]);
      } else {
        LeafHere(m', root, p, p + [k]);
      }
    } else {
      OtherLeaf(m, m', root, q, p);
    }
  }

  lemma SomePresent(m: Tables, f: nat) returns (k: nat)
    requires HasTable(m, f) && !NoPresent(m, f)
    ensures k < ENTRIES && m[f][k].flags.present
  {
    k :| 0 <= k < ENTRIES && m[f][k].flags.present;
  }

  lemma OneStep(m: Tables, root: nat, p: Path, g: nat, k: nat)
    requires 0 < |p| < LEVELS && Locate(m, root, LEVELS, p) == Some(g) && HasTable(m, g) && k < ENTRIES
    requires m[g][k].flags.present
    ensures (Locate(m, root, LEVELS, p + [k]).Some? && |p| + 1 < LEVELS) || LeafAt(m, root, LEVELS, p + [k]).Some?
  {
    LocateNext(m, root, p, g, k);
  }

  lemma LeafBehind(m: Tables, root: nat, p: Path, r: Path)
    requires p <= r && HasLeaf(m, root, r)
    ensures HasLeaf(m, root, p)
  {
  }

  lemma LeafHere(m: Tables, root: nat, p: Path, r: Path)
    requires p <= r && 0 < |r| <= LEVELS && LeafAt(m, root, LEVELS, r).Some?
    ensures HasLeaf(m, root, p)
  {
  }

  lemma OtherLeaf(m: Tables, m': Tables, root: nat, q: Path, p: Path)
    requires OnlyLeaf(m, m', root, q) && !(p <= q) && HasLeaf(m, root, p)
    ensures HasLeaf(m', root, p)
  {
    var r: Path :| 0 < |r| <= LEVELS && p <= r && LeafAt(m, root, LEVELS, r).Some?;
    assert LeafAt(m', root, LEVELS, r) == LeafAt(m, root, LEVELS, r);
  }

  /** Mapping a page that was not mapped and unmapping it again restores every location, every
      leaf and the bitmap. */
  lemma MapThenUnmap(m: Tables, m1: Tables, m2: Tables, root: nat, q: Path, e: Entry, free: set<nat>, free1: set<nat>,
                     free2: set<nat>)
    requires Space(m, root, free) && NoEmptyTable(m, root) && |q| == LEVELS && LeafAt(m, root, LEVELS, q).None?
    requires e.flags.present
    requires OnlyLeaf(m, m1, root, q) && Leads(m1, root, q, e) && Grew(m, m1, root, q[..3], free, free1)
    requires TreeOfTables(m1, root, LEVELS)
    requires Unmapped(m1, m2, root, q, free1, free2) && TreeOfTables(m2, root, LEVELS)
    requires forall f <- free :: Managed(f)
    ensures SameLeaves(m, m2, root, LEVELS) && free2 == free
    ensures forall p: Path :: |p| < LEVELS ==> Locate(m2, root, LEVELS, p) == Locate(m, root, LEVELS, p)
  {
    hide Locate, LeafAt, TreeOfTables, NoPresent, HasLeaf;
    MapKeepsNoEmpty(m, m1, root, q, e, free, free1);
    UnmapKeepsNoEmpty(m1, m2, root, q, free1, free2);
    BackAndForth(m, m1, m2, root, q);
    forall p: Path | |p| < LEVELS ensures Locate(m2, root, LEVELS, p) == Locate(m, root, LEVELS, p) {
      if p == [] {
        LocateRoot(m, root);
        LocateRoot(m2, root);
      } else if Locate(m, root, LEVELS, p).Some? {
        KeptByLeaf(m, m2, root, p);
      } else if Locate(m2, root, LEVELS, p).Some? {
        KeptByLeaf(m2, m, root, p);
      }
    }
    RestoredFrames(m, m1, m2, root, q, free, free1, free2);
  }

  lemma BackAndForth(m: Tables, m1: Tables, m2: Tables, root: nat, q: Path)
    requires |q| == LEVELS && OnlyLeaf(m, m1, root, q) && OnlyLeaf(m1, m2, root, q)
    requires LeafAt(m, root, LEVELS, q) == LeafAt(m2, root, LEVELS, q)
    ensures SameLeaves(m, m2, root, LEVELS)
  {
    hide LeafAt;
  }

  /** A table with a leaf behind it is there as long as that leaf is. */
  lemma KeptByLeaf(m: Tables, m': Tables, root: nat, p: Path)
    requires NoEmptyTable(m, root) && SameLeaves(m, m', root, LEVELS) && 0 < |p| < LEVELS
    requires Locate(m, root, LEVELS, p).Some?
    ensures Locate(m', root, LEVELS, p).Some?
  {
    var r: Path :| 0 < |r| <= LEVELS && p <= r && LeafAt(m, root, LEVELS, r).Some?;
    assert LeafAt(m', root, LEVELS, r).Some?;
    if r == p {
      NotBoth(m, root, p);
    } else {
      LeafLocates(m', root, p, r);
    }
  }

  lemma NotBoth(m: Tables, root: nat, p: Path)
    requires 0 < |p| < LEVELS && LeafAt(m, root, LEVELS, p).Some?
    ensures Locate(m, root, LEVELS, p).None?
  {
  }

  lemma RestoredFrames(m: Tables, m1: Tables, m2: Tables, root: nat, q: Path, free: set<nat>, free1: set<nat>,
                       free2: set<nat>)
    requires Space(m, root, free) && |q| == LEVELS && Grew(m, m1, root, q[..3], free, free1)
    requires Unmapped(m1, m2, root, q, free1, free2)
    requires forall p: Path :: |p| < LEVELS ==> Locate(m2, root, LEVELS, p) == Locate(m, root, LEVELS, p)
    requires forall f <- free :: Managed(f)
    ensures free2 == free
  {
    hide Locate, LeafAt, TreeOfTables, NoPresent;
    forall f ensures f in free2 <==> f in free {
      if f in free && f !in free1 {
        var p: Path :| |p| < LEVELS && Locate(m1, root, LEVELS, p) == Some(f);
        assert Locate(m, root, LEVELS, p) != Some(f);
        assert Gone(m1, m2, root, q, p);
      }
      if f in free2 && f !in free1 {
        var p: Path :| Gone(m1, m2, root, q, p) && Locate(m1, root, LEVELS, p) == Some(f);
        assert Locate(m2, root, LEVELS, p).None?;
      }
    }
  }

  // ----- SetFlags

  /** A leaf with other flags; without the present bit it is none any more. */
  function Reflag(leaf: Option<Entry>, flags: Flags): Option<Entry> {
    match leaf
    case None => None
    case Some(e) => if flags.present then Some(Entry(e.frame, flags)) else None
  }

  /** SetFlags: the leaf of a page of 4 KiB keeps its frame and gets new flags. */
  method SetFlags(mem: Memory, root: nat, page: nat, flags: Flags) returns (ok: bool)
    requires mem.Valid() && Space(mem.tables, root, mem.FreeFrames())
    modifies mem`tables
    ensures Space(mem.tables, root, mem.FreeFrames()) && OnlyLeaf(old(mem.tables), mem.tables, root, PathOf(page))
    ensures ok <==> LeafAt(old(mem.tables), root, LEVELS, PathOf(page)).Some?
    ensures LeafAt(mem.tables, root, LEVELS, PathOf(page)) == Reflag(LeafAt(old(mem.tables), root, LEVELS, PathOf(page)), flags)
    ensures ok && flags.present ==>
      && LeafAt(mem.tables, root, LEVELS, PathOf(page)).Some?
      && LeafAt(mem.tables, root, LEVELS, PathOf(page)).value.flags == flags
      && LeafAt(mem.tables, root, LEVELS, PathOf(page)).value.frame
         == LeafAt(old(mem.tables), root, LEVELS, PathOf(page)).value.frame
    ensures !flags.present ==> LeafAt(mem.tables, root, LEVELS, PathOf(page)).None?
    ensures forall p: Path ::
      |p| < LEVELS ==> Locate(mem.tables, root, LEVELS, p) == Locate(old(mem.tables), root, LEVELS, p)
    ensures forall p: Path ::
      0 < |p| < LEVELS ==> EntryAt(mem.tables, root, LEVELS, p) == EntryAt(old(mem.tables), root, LEVELS, p)
  {
    hide Locate, EntryAt, LeafAt, TreeOfTables, Allocated, Space, PathOf, Grew, Memory.FreeFrames, Memory.Valid;
    var q := PathOf(page);
    ghost var m := mem.tables;
    var pdpt, pd, pt;
    ok, pdpt, pd, pt := FindPage(mem, root, q);
    if !ok { return; }
    var e := Entry(mem.tables[pt][q[3]].frame, flags);
    SetPage(m, root, q, pt, e, mem.FreeFrames());
    mem.tables := SetEntry(mem.tables, pt, q[3], e);
  }

  /** The leaves after SetRegionFlags has come from page `first` to page `next`. */
  ghost predicate ReflaggedSoFar(m: Tables, m': Tables, root: nat, flags: Flags, first: nat, next: nat) {
    forall p: Path :: 0 < |p| <= LEVELS ==>
      LeafAt(m', root, LEVELS, p) == if Taken(first, next, p) then Reflag(LeafAt(m, root, LEVELS, p), flags)
                                     else LeafAt(m, root, LEVELS, p)
  }

  lemma OneMoreFlag(m: Tables, m1: Tables, m2: Tables, root: nat, flags: Flags, first: nat, next: nat)
    requires first <= next && ReflaggedSoFar(m, m1, root, flags, first, next) && OnlyLeaf(m1, m2, root, PathOf(next))
    requires LeafAt(m2, root, LEVELS, PathOf(next)) == Reflag(LeafAt(m1, root, LEVELS, PathOf(next)), flags)
    ensures ReflaggedSoFar(m, m2, root, flags, first, next + 1)
  {
    hide LeafAt, PathOf;
    forall p: Path ensures Taken(first, next + 1, p) <==> Taken(first, next, p) || p == PathOf(next) {
      if p == PathOf(next) { assert first <= next < next + 1 && PathOf(next) == p; }
    }
  }

  lemma NoFlagYet(m: Tables, root: nat, flags: Flags, first: nat)
    ensures ReflaggedSoFar(m, m, root, flags, first, first)
  {
  }

  /** SetRegionFlags for the pages from `first` up to `end`: up to the first that is not mapped by
      a page of 4 KiB, every page keeps its frame and gets the new flags. */
  method SetRegionFlags(mem: Memory, root: nat, first: nat, end: nat, flags: Flags) returns (ok: bool, ghost next: nat)
    requires mem.Valid() && Space(mem.tables, root, mem.FreeFrames())
    modifies mem`tables
    ensures Space(mem.tables, root, mem.FreeFrames())
    ensures ReflaggedSoFar(old(mem.tables), mem.tables, root, flags, first, next)
    ensures if ok then next == if first < end then end else first
            else first <= next < end && LeafAt(mem.tables, root, LEVELS, PathOf(next)).None?
  {
    hide Locate, LeafAt, TreeOfTables, Space, PathOf, Reflag, ReflaggedSoFar, OnlyLeaf, Memory.FreeFrames, Memory.Valid;
    ghost var m := mem.tables;
    NoFlagYet(m, root, flags, first);
    next := first;
    var page := first;
    while page < end
      invariant mem.Valid() && Space(mem.tables, root, mem.FreeFrames())
      invariant first <= page == next && (page <= end || page == first)
      invariant ReflaggedSoFar(m, mem.tables, root, flags, first, next)
    {
      ghost var m1 := mem.tables;
      ok := SetFlags(mem, root, page, flags);
      if !ok {
        Unflagged(m, m1, mem.tables, root, flags, first, page);
        return false, next;
      }
      OneMoreFlag(m, m1, mem.tables, root, flags, first, page);
      page := page + 1;
      next := page;
    }
    return true, next;
  }

  lemma Unflagged(m: Tables, m1: Tables, m2: Tables, root: nat, flags: Flags, first: nat, next: nat)
    requires ReflaggedSoFar(m, m1, root, flags, first, next) && OnlyLeaf(m1, m2, root, PathOf(next))
    requires LeafAt(m1, root, LEVELS, PathOf(next)).None?
    requires LeafAt(m2, root, LEVELS, PathOf(next)) == Reflag(LeafAt(m1, root, LEVELS, PathOf(next)), flags)
    ensures ReflaggedSoFar(m, m2, root, flags, first, next) && LeafAt(m2, root, LEVELS, PathOf(next)).None?
  {
    hide LeafAt, PathOf, Taken;
    forall p: Path | 0 < |p| <= LEVELS ensures LeafAt(m2, root, LEVELS, p) == LeafAt(m1, root, LEVELS, p) {}
  }
}
