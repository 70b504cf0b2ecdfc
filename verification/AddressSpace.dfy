/** Copying a user address space (kernel/task/task_kthread_constructor.cpp:14-100) and giving one
    back (kernel/task/task_destructor.cpp:13-68). */
module AddressSpaces {
  import opened Basics
  import opened PageTables
  import opened PhysicalMemories
  import C = CloneRelation

  /** The entries of a root table that belong to the user. */
  const USER_ENTRIES: nat := 256

  lemma Sizes()
    ensures USER_ENTRIES == 256 && ENTRIES == 512
  {
  }

  /** Nothing but free frames has been written, and none has become free. */
  ghost predicate OnlyFree(m: Tables, m': Tables, data: C.Pages, data': C.Pages, free: set<nat>, free': set<nat>) {
    C.Untouched(m, m', data, data', free) && free' <= free
  }

  lemma OnlyFreeTrans(m: Tables, m1: Tables, m2: Tables, data: C.Pages, data1: C.Pages, data2: C.Pages, free: set<nat>,
                      free1: set<nat>, free2: set<nat>)
    requires OnlyFree(m, m1, data, data1, free, free1) && OnlyFree(m1, m2, data1, data2, free1, free2)
    ensures OnlyFree(m, m2, data, data2, free, free2)
  {
  }

  /** What is known before entry i of the source is looked at. */
  ghost predicate CloneLoop(m: Tables, data: C.Pages, src: nat, level: nat, lim: nat, free: set<nat>,
                            m1: Tables, data1: C.Pages, n: nat, free1: set<nat>, i: nat) {
    && 0 < level && i <= lim <= ENTRIES && C.Source(m, data, src, level, lim, free) && HasTable(m, src) && src !in free
    && C.Progress(m, data, src, level, free, m1, data1, n, free1, i) && HasTable(m1, n)
    && forall k :: i <= k < lim ==> !m1[n][k].flags.present
  }

  lemma SourceTable(m: Tables, data: C.Pages, src: nat, level: nat, lim: nat, free: set<nat>)
    requires C.Source(m, data, src, level, lim, free) && 0 < level
    ensures HasTable(m, src) && src !in free
  {
    C.RootLocated(m, src, level, lim);
  }

  lemma CloneStart(m: Tables, data: C.Pages, src: nat, level: nat, lim: nat, free: set<nat>, n: nat, t: seq<Entry>)
    requires C.Source(m, data, src, level, lim, free) && 0 < level && n in free && |t| == ENTRIES && lim <= ENTRIES
    requires forall k :: 0 <= k < lim ==> !t[k].flags.present
    ensures CloneLoop(m, data, src, level, lim, free, m[n := t], data, n, free - {n}, 0)
  {
    SourceTable(m, data, src, level, lim, free);
    C.StartProgress(m, data, src, level, free, n, t);
  }

  /** The source's entry i as it is read in the loop, and what its child is. */
  lemma CloneLook(m: Tables, data: C.Pages, src: nat, level: nat, lim: nat, free: set<nat>,
                  m1: Tables, data1: C.Pages, n: nat, free1: set<nat>, i: nat)
    requires CloneLoop(m, data, src, level, lim, free, m1, data1, n, free1, i) && i < lim
    ensures OnlyFree(m, m1, data, data1, free, free1) && HasTable(m1, src) && HasTable(m, src) && m1[src] == m[src]
    ensures HasTable(m1, n) && n !in free1
    ensures m[src][i].flags.present ==> C.Source(m1, data1, m[src][i].frame, level - 1, ENTRIES, free1)
    ensures m[src][i].flags.present ==> Locate(m, src, level, [i]) == Some(m[src][i].frame)
    ensures m[src][i].flags.present && level == 1 ==> m[src][i].frame in data1 && m[src][i].frame !in free1
  {
    C.OpenProgress(m, data, src, level, free, m1, data1, n, free1, i);
    C.OpenFresh(m1, n, level, i, free, free1);
    C.EntryOfRoot(m, src, level, i);
    if m[src][i].flags.present {
      assert Locate(m, src, level, [i]).Some?;
      C.ChildSource(m, data, src, level, lim, free, i);
      C.SourceKept(m, m1, data, data1, m[src][i].frame, level - 1, ENTRIES, free, free1);
      C.RootLocated(m1, m[src][i].frame, level - 1, ENTRIES);
    }
  }

  lemma CloneSkip(m: Tables, data: C.Pages, src: nat, level: nat, lim: nat, free: set<nat>,
                  m1: Tables, data1: C.Pages, n: nat, free1: set<nat>, i: nat)
    requires CloneLoop(m, data, src, level, lim, free, m1, data1, n, free1, i) && i < lim && !m[src][i].flags.present
    ensures CloneLoop(m, data, src, level, lim, free, m1, data1, n, free1, i + 1)
  {
    hide C.Progress, C.Source;
    C.SkipStep(m, data, src, free, m1, data1, free1, n, level, i);
  }

  lemma CloneNext(m: Tables, data: C.Pages, src: nat, level: nat, lim: nat, free: set<nat>, m1: Tables, data1: C.Pages,
                  free1: set<nat>,
                  m2: Tables, data2: C.Pages, free2: set<nat>, n: nat, i: nat, e: Entry)
    requires CloneLoop(m, data, src, level, lim, free, m1, data1, n, free1, i) && i < lim
    requires m[src][i].flags.present && e.flags == m[src][i].flags
    requires C.Progress(m1, data1, m[src][i].frame, level - 1, free1, m2, data2, e.frame, free2, ENTRIES)
    ensures HasTable(m1, n) && HasTable(m2, n) && m2[n] == m1[n]
    ensures CloneLoop(m, data, src, level, lim, free, SetEntry(m2, n, i, e), data2, n, free2, i + 1)
  {
    CloneLook(m, data, src, level, lim, free, m1, data1, n, free1, i);
    C.OpenProgress(m, data, src, level, free, m1, data1, n, free1, i);
    C.OpenFresh(m1, n, level, i, free, free1);
    hide C.Progress, C.Source;
    C.CloneStep(m, data, src, lim, free, m1, data1, free1, m2, data2, free2, n, level, i, e);
  }

  /** What CloneTable gives back: a copy in fresh frames, or 0 when the frames have run out. */
  ghost predicate ClonedOr0(m: Tables, data: C.Pages, src: nat, level: nat, lim: nat, free: set<nat>, m': Tables,
                            data': C.Pages, n: nat, free': set<nat>) {
    && OnlyFree(m, m', data, data', free, free')
    && (n != 0 ==> C.Progress(m, data, src, level, free, m', data', n, free', lim) && HasTable(m', n))
  }

  lemma CloneDone(m: Tables, data: C.Pages, src: nat, level: nat, lim: nat, free: set<nat>, m1: Tables, data1: C.Pages,
                  n: nat, free1: set<nat>)
    requires CloneLoop(m, data, src, level, lim, free, m1, data1, n, free1, lim)
    ensures ClonedOr0(m, data, src, level, lim, free, m1, data1, n, free1)
  {
  }

  lemma CloneFailed(m: Tables, data: C.Pages, src: nat, level: nat, lim: nat, free: set<nat>, m1: Tables,
                    data1: C.Pages, free1: set<nat>)
    requires OnlyFree(m, m1, data, data1, free, free1)
    ensures ClonedOr0(m, data, src, level, lim, free, m1, data1, 0, free1)
  {
  }

  lemma OpenCloned(m: Tables, data: C.Pages, src: nat, level: nat, lim: nat, free: set<nat>, m1: Tables,
                   data1: C.Pages, n: nat, free1: set<nat>)
    requires ClonedOr0(m, data, src, level, lim, free, m1, data1, n, free1)
    ensures OnlyFree(m, m1, data, data1, free, free1)
    ensures n != 0 ==> C.Progress(m, data, src, level, free, m1, data1, n, free1, lim) && HasTable(m1, n)
  {
  }

  /** The copy of what entry e of a table of this level leads to: a table, or from level 1 a page. */
  method CloneChild(mem: Memory, e: Entry, level: nat) returns (c: nat)
    requires mem.Valid() && 0 < level && C.Source(mem.tables, mem.data, e.frame, level - 1, ENTRIES, mem.FreeFrames())
    requires level == 1 ==> e.frame in mem.data && e.frame !in mem.FreeFrames()
    modifies mem`tables, mem`data, mem.frames.bytes
    ensures mem.Valid()
    ensures OnlyFree(old(mem.tables), mem.tables, old(mem.data), mem.data, old(mem.FreeFrames()), mem.FreeFrames())
    ensures c != 0 ==>
      C.Progress(old(mem.tables), old(mem.data), e.frame, level - 1, old(mem.FreeFrames()),
                 mem.tables, mem.data, c, mem.FreeFrames(), ENTRIES)
    ensures c == 0 ==> mem.FreeFrames() == {}
    decreases level, 0
  {
    hide *;
    ghost var m, data, free := mem.tables, mem.data, mem.FreeFrames();
    if level > 1 {
      c := CloneTable(mem, e.frame, level - 1);
      OpenCloned(m, data, e.frame, level - 1, ENTRIES, free, mem.tables, mem.data, c, mem.FreeFrames());
    } else {
      Unchanged(m, data, free);
      c := mem.AllocFrame();
      if c == 0 { return; }
      C.PageProgress(m, data, e.frame, free, c);
      mem.data := mem.data[c := mem.data[e.frame]];
      C.OpenProgress(m, data, e.frame, 0, free, m, mem.data, c, free - {c}, ENTRIES);
      CloseOnlyFree(m, m, data, mem.data, free, free - {c});
    }
  }

  lemma Unchanged(m: Tables, data: C.Pages, free: set<nat>)
    ensures OnlyFree(m, m, data, data, free, free)
  {
  }

  lemma CloseOnlyFree(m: Tables, m': Tables, data: C.Pages, data': C.Pages, free: set<nat>, free': set<nat>)
    requires C.Untouched(m, m', data, data', free) && free' <= free
    ensures OnlyFree(m, m', data, data', free, free')
  {
  }

  /** CloneTable for a table without large pages below it. */
  method CloneTable(mem: Memory, src: nat, level: nat) returns (n: nat)
    requires mem.Valid() && 0 < level && C.Source(mem.tables, mem.data, src, level, ENTRIES, mem.FreeFrames())
    modifies mem`tables, mem`data, mem.frames.bytes
    ensures mem.Valid()
    ensures ClonedOr0(old(mem.tables), old(mem.data), src, level, ENTRIES, old(mem.FreeFrames()),
                      mem.tables, mem.data, n, mem.FreeFrames())
    ensures n == 0 ==> mem.FreeFrames() == {}
    decreases level, 2
  {
    hide *;
    ghost var m, data, free := mem.tables, mem.data, mem.FreeFrames();
    n := mem.AllocFrame();
    if n == 0 {
      Unchanged(m, data, free);
      CloneFailed(m, data, src, level, ENTRIES, free, m, data, free);
      return;
    }
    EmptyTable();
    CloneStart(m, data, src, level, ENTRIES, free, n, EMPTY_TABLE);
    mem.tables := mem.tables[n := EMPTY_TABLE];
    for i := 0 to ENTRIES
      invariant mem.Valid()
      invariant CloneLoop(m, data, src, level, ENTRIES, free, mem.tables, mem.data, n, mem.FreeFrames(), i)
    {
      var ok := CloneEntry(mem, src, level, ENTRIES, n, i, m, data, free);
      if !ok {
        CloneFailed(m, data, src, level, ENTRIES, free, mem.tables, mem.data, mem.FreeFrames());
        return 0;
      }
    }
    CloneDone(m, data, src, level, ENTRIES, free, mem.tables, mem.data, n, mem.FreeFrames());
  }

  lemma EmptyTable()
    ensures |EMPTY_TABLE| == ENTRIES == 512
    ensures forall k :: 0 <= k < ENTRIES ==> EMPTY_TABLE[k] == Entry(0, Flags(false, false, false, false, 0))
  {
  }

  /** One turn of the loops of CloneTable and CloneUserAddressSpace. */
  method CloneEntry(mem: Memory, src: nat, level: nat, ghost lim: nat, n: nat, i: nat, ghost m: Tables,
                    ghost data: C.Pages, ghost free: set<nat>)
    returns (ok: bool)
    requires mem.Valid() && CloneLoop(m, data, src, level, lim, free, mem.tables, mem.data, n, mem.FreeFrames(), i)
    requires i < lim
    modifies mem`tables, mem`data, mem.frames.bytes
    ensures mem.Valid() && OnlyFree(m, mem.tables, data, mem.data, free, mem.FreeFrames())
    ensures ok ==> CloneLoop(m, data, src, level, lim, free, mem.tables, mem.data, n, mem.FreeFrames(), i + 1)
    ensures !ok ==> mem.FreeFrames() == {}
    ensures ok ==> HasTable(old(mem.tables), n) && HasTable(mem.tables, n)
    ensures ok ==> forall k :: 0 <= k < ENTRIES && k != i ==> mem.tables[n][k] == old(mem.tables)[n][k]
    decreases level, 1
  {
    hide CloneLoop, OnlyFree, C.Progress, C.Source, Locate, Memory.Valid, Memory.FreeFrames;
    ghost var m1, data1, free1 := mem.tables, mem.data, mem.FreeFrames();
    LoopBounds(m, data, src, level, lim, free, m1, data1, n, free1, i);
    CloneLook(m, data, src, level, lim, free, m1, data1, n, free1, i);
    var e := mem.tables[src][i];
    if !e.flags.present {
      CloneSkip(m, data, src, level, lim, free, m1, data1, n, free1, i);
      return true;
    }
    var c := CloneChild(mem, e, level);
    ghost var m2, data2, free2 := mem.tables, mem.data, mem.FreeFrames();
    OnlyFreeTrans(m, m1, m2, data, data1, data2, free, free1, free2);
    if c == 0 { return false; }
    CloneNext(m, data, src, level, lim, free, m1, data1, free1, m2, data2, free2, n, i, Entry(c, e.flags));
    mem.tables := SetEntry(mem.tables, n, i, Entry(c, e.flags));
    LoopFree(m, data, src, level, lim, free, mem.tables, data2, n, free2, i + 1);
    return true;
  }

  lemma LoopBounds(m: Tables, data: C.Pages, src: nat, level: nat, lim: nat, free: set<nat>, m1: Tables,
                   data1: C.Pages, n: nat, free1: set<nat>, i: nat)
    requires CloneLoop(m, data, src, level, lim, free, m1, data1, n, free1, i) && i < lim
    ensures i < ENTRIES && 0 < level && HasTable(m, src)
  {
  }

  lemma LoopFree(m: Tables, data: C.Pages, src: nat, level: nat, lim: nat, free: set<nat>, m1: Tables, data1: C.Pages,
                 n: nat, free1: set<nat>, i: nat)
    requires CloneLoop(m, data, src, level, lim, free, m1, data1, n, free1, i)
    ensures OnlyFree(m, m1, data, data1, free, free1)
  {
  }

  /** What CreateUserAddressSpace makes: the kernel's half over an empty user half. */
  ghost predicate KernelHalf(t: seq<Entry>, kernel: seq<Entry>) {
    && |t| == ENTRIES == |kernel|
    && (forall k :: 0 <= k < USER_ENTRIES ==> t[k] == CLEAR)
    && (forall k :: USER_ENTRIES <= k < ENTRIES ==> t[k] == kernel[k])
  }

  method CreateUserAddressSpace(mem: Memory, kernel: nat) returns (pml4: nat, ghost t: seq<Entry>)
    requires mem.Valid() && HasTable(mem.tables, kernel) && kernel !in mem.FreeFrames()
    modifies mem`tables, mem.frames.bytes
    ensures mem.Valid()
    ensures pml4 == 0 ==> mem.tables == old(mem.tables) && mem.FreeFrames() == old(mem.FreeFrames()) == {}
    ensures pml4 != 0 ==>
      && pml4 in old(mem.FreeFrames()) && mem.FreeFrames() == old(mem.FreeFrames()) - {pml4}
      && KernelHalf(t, old(mem.tables[kernel])) && mem.tables == old(mem.tables)[pml4 := t]
  {
    hide Memory.Valid, Memory.FreeFrames;
    ghost var m := mem.tables;
    t := [];
    pml4 := mem.AllocFrame();
    if pml4 == 0 { return; }
    mem.tables := mem.tables[pml4 := EMPTY_TABLE];
    for i := USER_ENTRIES to ENTRIES
      invariant mem.Valid() && mem.FreeFrames() == old(mem.FreeFrames()) - {pml4}
      invariant pml4 in mem.tables && mem.tables == m[pml4 := mem.tables[pml4]] && |mem.tables[pml4]| == ENTRIES
      invariant forall k ::
        0 <= k < ENTRIES ==> mem.tables[pml4][k] == if USER_ENTRIES <= k < i then m[kernel][k] else CLEAR
    {
      mem.tables := mem.tables[pml4 := mem.tables[pml4][i := mem.tables[kernel][i]]];
    }
    t := mem.tables[pml4];
  }

  lemma UserHalfEmpty(t: seq<Entry>, kernel: seq<Entry>)
    requires KernelHalf(t, kernel)
    ensures |t| == ENTRIES && USER_ENTRIES <= ENTRIES && forall k :: 0 <= k < USER_ENTRIES ==> !t[k].flags.present
  {
  }

  /** The half of the root table n that belongs to the kernel. */
  ghost predicate HasKernelHalf(m: Tables, n: nat, kernel: seq<Entry>) {
    HasTable(m, n) && |kernel| == ENTRIES && forall k :: USER_ENTRIES <= k < ENTRIES ==> m[n][k] == kernel[k]
  }

  /** CloneUserAddressSpace for a user half without large pages: a deep copy of it in fresh
      frames under a root with the kernel's half, or 0 when the frames have run out. */
  method CloneUserAddressSpace(mem: Memory, SourceCR3: nat, kernel: nat) returns (NewCR3: nat)
    requires mem.Valid() && HasTable(mem.tables, kernel) && kernel !in mem.FreeFrames()
    requires C.Source(mem.tables, mem.data, SourceCR3, 4, USER_ENTRIES, mem.FreeFrames())
    modifies mem`tables, mem`data, mem.frames.bytes
    ensures mem.Valid()
    ensures ClonedOr0(old(mem.tables), old(mem.data), SourceCR3, 4, USER_ENTRIES, old(mem.FreeFrames()),
                      mem.tables, mem.data, NewCR3, mem.FreeFrames())
    ensures NewCR3 == 0 ==> mem.FreeFrames() == {}
    ensures NewCR3 != 0 ==> HasKernelHalf(mem.tables, NewCR3, old(mem.tables)[kernel])
  {
    hide *;
    Sizes();
    InTables(mem.tables, kernel);
    ghost var m, data, free := mem.tables, mem.data, mem.FreeFrames();
    ghost var t;
    NewCR3, t := CreateUserAddressSpace(mem, kernel);
    if NewCR3 == 0 {
      Unchanged(m, data, free);
      CloneFailed(m, data, SourceCR3, 4, USER_ENTRIES, free, m, data, free);
      return;
    }
    UserHalfEmpty(t, m[kernel]);
    StartKernelHalf(m, NewCR3, t, m[kernel]);
    CloneStart(m, data, SourceCR3, 4, USER_ENTRIES, free, NewCR3, t);
    for i := 0 to USER_ENTRIES
      invariant mem.Valid()
      invariant CloneLoop(m, data, SourceCR3, 4, USER_ENTRIES, free, mem.tables, mem.data, NewCR3, mem.FreeFrames(), i)
      invariant HasKernelHalf(mem.tables, NewCR3, m[kernel])
    {
      ghost var m1 := mem.tables;
      var ok := CloneEntry(mem, SourceCR3, 4, USER_ENTRIES, NewCR3, i, m, data, free);
      if !ok {
        CloneFailed(m, data, SourceCR3, 4, USER_ENTRIES, free, mem.tables, mem.data, mem.FreeFrames());
        return 0;
      }
      KeepsKernelHalf(m1, mem.tables, NewCR3, i, m[kernel]);
    }
    CloneDone(m, data, SourceCR3, 4, USER_ENTRIES, free, mem.tables, mem.data, NewCR3, mem.FreeFrames());
  }

  lemma InTables(m: Tables, f: nat)
    requires HasTable(m, f)
    ensures f in m
  {
  }

  lemma StartKernelHalf(m: Tables, n: nat, t: seq<Entry>, kernel: seq<Entry>)
    requires KernelHalf(t, kernel)
    ensures HasKernelHalf(m[n := t], n, kernel)
  {
  }

  lemma KeepsKernelHalf(m: Tables, m': Tables, n: nat, i: nat, kernel: seq<Entry>)
    requires HasKernelHalf(m, n, kernel) && i < USER_ENTRIES && HasTable(m', n)
    requires forall k :: 0 <= k < ENTRIES && k != i ==> m'[n][k] == m[n][k]
    ensures HasKernelHalf(m', n, kernel)
  {
  }

  // ----- giving an address space back

  /** Every place on the way is a table. */
  ghost predicate WalkTables(m: Tables, root: nat, level: nat, lim: nat) {
    forall p: Path :: |p| < level && C.InReach(p, lim) && Locate(m, root, level, p).Some? ==>
      HasTable(m, Locate(m, root, level, p).value)
  }

  /** What is given back at the end of a path: a table or a page, or all of a 2 MiB page. */
  ghost predicate Gives(m: Tables, root: nat, level: nat, p: Path, g: nat) {
    || (Locate(m, root, level, p) == Some(g) && Managed(g))
    || (p != [] && |p| + 1 == level && LeafAt(m, root, level, p).Some? && g in LargeFrames(LeafAt(m, root, level, p).value.frame))
  }

  /** Frame g is given back for something behind one of the first `lim` entries. */
  ghost predicate Behind(m: Tables, root: nat, level: nat, lim: nat, g: nat) {
    exists p: Path :: 0 < |p| <= level && p[0] < lim && Gives(m, root, level, p, g)
  }

  /** The same with the root itself. */
  ghost predicate GivenBack(m: Tables, root: nat, level: nat, lim: nat, g: nat) {
    (g == root && Managed(root)) || Behind(m, root, level, lim, g)
  }

  /** Frame g is given back for entry i. */
  ghost predicate EntryGives(m: Tables, root: nat, level: nat, i: nat, g: nat) {
    match Locate(m, root, level, [i])
    case Some(c) => level > 0 && GivenBack(m, c, level - 1, ENTRIES, g)
    case None => level == 2 && LeafAt(m, root, level, [i]).Some? && g in LargeFrames(LeafAt(m, root, level, [i]).value.frame)
  }

  lemma GivesCons(m: Tables, root: nat, level: nat, i: nat, p: Path, g: nat)
    requires 0 < level && |p| < level && p != []
    ensures Gives(m, root, level, [i] + p, g) <==>
      Locate(m, root, level, [i]).Some? && Gives(m, Locate(m, root, level, [i]).value, level - 1, p, g)
  {
    C.LocateCons(m, root, level, i, p);
    hide Locate, EntryAt;
  }

  lemma GivesOne(m: Tables, root: nat, level: nat, i: nat, g: nat)
    requires 0 < level
    ensures Gives(m, root, level, [i], g) <==> match Locate(m, root, level, [i])
      case Some(c) => g == c && Managed(c)
      case None => level == 2 && LeafAt(m, root, level, [i]).Some? && g in LargeFrames(LeafAt(m, root, level, [i]).value.frame)
  {
  }

  /** What is given back for one more entry. */
  lemma BehindNext(m: Tables, root: nat, level: nat, i: nat, g: nat)
    requires 0 < level
    ensures Behind(m, root, level, i + 1, g) <==> Behind(m, root, level, i, g) || EntryGives(m, root, level, i, g)
  {
    hide Gives, Locate, LeafAt;
    GivesOne(m, root, level, i, g);
    if Behind(m, root, level, i + 1, g) && !Behind(m, root, level, i, g) {
      var p: Path :| 0 < |p| <= level && p[0] < i + 1 && Gives(m, root, level, p, g);
      C.Split(p);
      assert p[0] == i;
      if p[1..] == [] { assert p == [i]; } else { BehindChild(m, root, level, i, p[1..], g); }
    }
    if EntryGives(m, root, level, i, g) {
      assert [i][0] < i + 1;
      if Locate(m, root, level, [i]).Some? && !Gives(m, root, level, [i], g) {
        var c := Locate(m, root, level, [i]).value;
        var r: Path :| 0 < |r| <= level - 1 && r[0] < ENTRIES && Gives(m, c, level - 1, r, g);
        GivesCons(m, root, level, i, r, g);
        assert ([i] + r)[0] < i + 1;
      }
    }
  }

  lemma BehindChild(m: Tables, root: nat, level: nat, i: nat, p: Path, g: nat)
    requires 0 < level && 0 < |p| < level && Gives(m, root, level, [i] + p, g)
    ensures Locate(m, root, level, [i]).Some? && Behind(m, Locate(m, root, level, [i]).value, level - 1, ENTRIES, g)
  {
    GivesCons(m, root, level, i, p, g);
    GivesInReach(m, Locate(m, root, level, [i]).value, level - 1, p, g);
  }

  lemma {:induction false} GivesInReach(m: Tables, root: nat, level: nat, p: Path, g: nat)
    requires p != [] && Gives(m, root, level, p, g)
    ensures p[0] < ENTRIES
  {
    EntryInReach(m, root, level, p);
  }

  lemma {:induction false} EntryInReach(m: Tables, root: nat, level: nat, p: Path)
    requires p != [] && EntryAt(m, root, level, p).Some?
    ensures p[0] < ENTRIES
    decreases |p|
  {
    if |p| > 1 { EntryInReach(m, root, level, p[..|p| - 1]); }
  }

  /** A tree whose frames are allocated and used once, without large pages. */
  ghost predicate Releasable(m: Tables, data: C.Pages, root: nat, level: nat, lim: nat, free: set<nat>) {
    C.Source(m, data, root, level, lim, free) && C.Exclusive(m, root, level, lim)
  }

  /** What is free once what lies behind the first i entries has been given back. */
  ghost predicate Released(m: Tables, root: nat, level: nat, free: set<nat>, free': set<nat>, i: nat) {
    forall g: nat :: g in free' <==> g in free || Behind(m, root, level, i, g)
  }

  /** All that was found in the tree is free. */
  ghost predicate AllReleased(m: Tables, root: nat, level: nat, lim: nat, free: set<nat>, free': set<nat>) {
    forall g: nat :: g in free' <==> g in free || GivenBack(m, root, level, lim, g)
  }

  /** The tree behind entry i has not been touched by giving back those before it. */
  lemma ChildReleasable(m: Tables, data: C.Pages, root: nat, level: nat, lim: nat, free: set<nat>, free': set<nat>,
                        i: nat)
    requires Releasable(m, data, root, level, lim, free) && Released(m, root, level, free, free', i)
    requires 0 < level && i < lim && Locate(m, root, level, [i]).Some?
    ensures Releasable(m, data, Locate(m, root, level, [i]).value, level - 1, ENTRIES, free')
  {
    var c := Locate(m, root, level, [i]).value;
    C.ChildSource(m, data, root, level, lim, free, i);
    ChildExclusive(m, root, level, lim, i);
    forall p: Path | |p| <= level - 1 && C.InReach(p, ENTRIES) && Locate(m, c, level - 1, p).Some?
      ensures Locate(m, c, level - 1, p).value !in free'
    {
      NotYetReleased(m, data, root, level, lim, free, free', i, p);
    }
    OnlyFreeSource(m, data, c, level - 1, free, free');
  }

  lemma OnlyFreeSource(m: Tables, data: C.Pages, c: nat, level: nat, free: set<nat>, free': set<nat>)
    requires C.Source(m, data, c, level, ENTRIES, free)
    requires forall p: Path | |p| <= level && C.InReach(p, ENTRIES) && Locate(m, c, level, p).Some? ::
      Locate(m, c, level, p).value !in free'
    ensures C.Source(m, data, c, level, ENTRIES, free')
  {
    hide Locate, EntryAt;
  }

  lemma ChildExclusive(m: Tables, root: nat, level: nat, lim: nat, i: nat)
    requires C.Exclusive(m, root, level, lim) && 0 < level && i < lim && Locate(m, root, level, [i]).Some?
    ensures C.Exclusive(m, Locate(m, root, level, [i]).value, level - 1, ENTRIES)
  {
    var c, below := Locate(m, root, level, [i]).value, level - 1;
    forall p: Path, q: Path | C.Located(m, c, below, ENTRIES, p) && C.Located(m, c, below, ENTRIES, q)
                              && Locate(m, c, below, p) == Locate(m, c, below, q)
      ensures p == q
    {
      C.LocateCons(m, root, level, i, p);
      C.LocateCons(m, root, level, i, q);
      assert C.Located(m, root, level, lim, [i] + p) && C.Located(m, root, level, lim, [i] + q);
      assert ([i] + p)[1..] == p && ([i] + q)[1..] == q;
    }
  }

  /** Without large pages only tables and pages are given back. */
  lemma GivesLocated(m: Tables, data: C.Pages, root: nat, level: nat, lim: nat, free: set<nat>, p: Path, g: nat)
    requires C.Source(m, data, root, level, lim, free) && 0 < |p| <= level && p[0] < lim
    ensures Gives(m, root, level, p, g) <==> Locate(m, root, level, p) == Some(g) && Managed(g)
  {
  }

  lemma NotYetReleased(m: Tables, data: C.Pages, root: nat, level: nat, lim: nat, free: set<nat>, free': set<nat>,
                       i: nat, p: Path)
    requires Releasable(m, data, root, level, lim, free) && Released(m, root, level, free, free', i)
    requires 0 < level && i < lim && Locate(m, root, level, [i]).Some?
    requires |p| <= level - 1 && C.InReach(p, ENTRIES)
    requires Locate(m, Locate(m, root, level, [i]).value, level - 1, p).Some?
    ensures Locate(m, Locate(m, root, level, [i]).value, level - 1, p).value !in free'
  {
    var g := Locate(m, Locate(m, root, level, [i]).value, level - 1, p).value;
    C.LocateCons(m, root, level, i, p);
    hide Locate, EntryAt, Gives;
    var q := [i] + p;
    assert C.InReach(q, lim) && |q| <= level && Locate(m, root, level, q) == Some(g);
    assert C.Located(m, root, level, lim, q);
    forall r: Path | 0 < |r| <= level && r[0] < i ensures !Gives(m, root, level, r, g) {
      GivesLocated(m, data, root, level, lim, free, r, g);
      assert q[0] == i;
      assert Locate(m, root, level, r).Some? ==> C.Located(m, root, level, lim, r);
    }
  }

  /** The nested loops of FreeUserAddressSpace from a table of some level down: all that lies
      behind its entries is given back, and then the table itself. If all frames are allocated
      and used once, none is given back that is already free. */
  method ReleaseTree(mem: Memory, f: nat, level: nat)
    requires mem.Valid() && level <= 4 && WalkTables(mem.tables, f, level, ENTRIES)
    modifies mem.frames.bytes, mem.frames`doubleFree
    ensures mem.Valid() && AllReleased(mem.tables, f, level, ENTRIES, old(mem.FreeFrames()), mem.FreeFrames())
    ensures Releasable(mem.tables, mem.data, f, level, ENTRIES, old(mem.FreeFrames())) ==>
      mem.frames.doubleFree == old(mem.frames.doubleFree)
    decreases level, 1
  {
    hide *;
    ghost var m, data, free := mem.tables, mem.data, mem.FreeFrames();
    Sizes();
    if level > 0 {
      ReleaseEntries(mem, f, level, ENTRIES);
    } else {
      NothingReleased(m, f, level, free, ENTRIES);
    }
    ghost var free1 := mem.FreeFrames();
    if Releasable(m, data, f, level, ENTRIES, free) { RootNext(m, data, f, level, ENTRIES, free, free1); }
    mem.FreeFrame(f);
    Finished(m, f, level, ENTRIES, free, free1);
  }

  /** One of the loops. */
  method ReleaseEntries(mem: Memory, f: nat, level: nat, lim: nat)
    requires mem.Valid() && 0 < level <= 4 && lim <= ENTRIES && WalkTables(mem.tables, f, level, lim)
    modifies mem.frames.bytes, mem.frames`doubleFree
    ensures mem.Valid() && Released(mem.tables, f, level, old(mem.FreeFrames()), mem.FreeFrames(), lim)
    ensures Releasable(mem.tables, mem.data, f, level, lim, old(mem.FreeFrames())) ==>
      mem.frames.doubleFree == old(mem.frames.doubleFree)
    decreases level, 0
  {
    hide *;
    ghost var m, data, free := mem.tables, mem.data, mem.FreeFrames();
    NothingReleased(m, f, level, free, 0);
    WalkRoot(m, f, level, lim);
    for i := 0 to lim
      invariant mem.Valid() && Released(m, f, level, free, mem.FreeFrames(), i)
      invariant Releasable(m, data, f, level, lim, free) ==> mem.frames.doubleFree == old(mem.frames.doubleFree)
    {
      ghost var free1 := mem.FreeFrames();
      ReleaseEntry(mem, f, level, lim, i, free);
      OneMoreReleased(m, f, level, free, free1, mem.FreeFrames(), i);
    }
  }

  /** What is done for one entry. A page of 1 GiB is only reported. */
  method ReleaseEntry(mem: Memory, f: nat, level: nat, ghost lim: nat, i: nat, ghost free: set<nat>)
    requires mem.Valid() && 0 < level <= 4 && i < lim <= ENTRIES && WalkTables(mem.tables, f, level, lim)
    requires HasTable(mem.tables, f)
    requires Released(mem.tables, f, level, free, mem.FreeFrames(), i)
    modifies mem.frames.bytes, mem.frames`doubleFree
    ensures mem.Valid()
    ensures forall g: nat ::
      g in mem.FreeFrames() <==> g in old(mem.FreeFrames()) || EntryGives(mem.tables, f, level, i, g)
    ensures Releasable(mem.tables, mem.data, f, level, lim, free) ==>
      mem.frames.doubleFree == old(mem.frames.doubleFree)
    decreases level, 0, 0
  {
    hide *;
    ghost var m, data, free1 := mem.tables, mem.data, mem.FreeFrames();
    InTable(m, f, i);
    var e := mem.tables[f][i];
    EntryLook(m, f, level, i);
    if e.flags.present {
      if level == 3 && e.flags.ps {
      } else if level == 2 && e.flags.ps {
        mem.FreeLarge(e.frame);
      } else {
        WalkChild(m, f, level, lim, i);
        if Releasable(m, data, f, level, lim, free) { ChildReleasable(m, data, f, level, lim, free, free1, i); }
        ReleaseTree(mem, e.frame, level - 1);
        ChildReleased(m, e.frame, level - 1, free1, mem.FreeFrames());
      }
    }
    if Releasable(m, data, f, level, lim, free) { NoLargePage(m, data, f, level, lim, free, i); }
  }

  /** The cases of an entry, and what is given back in each. */
  lemma EntryLook(m: Tables, f: nat, level: nat, i: nat)
    requires 0 < level <= 4 && HasTable(m, f) && i < ENTRIES
    ensures var e := m[f][i];
      && (!e.flags.present || (level == 3 && e.flags.ps) ==> forall g: nat :: !EntryGives(m, f, level, i, g))
      && (e.flags.present && level == 2 && e.flags.ps ==>
            forall g: nat :: EntryGives(m, f, level, i, g) <==> g in LargeFrames(e.frame))
      && (e.flags.present && !(2 <= level <= 3 && e.flags.ps) ==>
            && Locate(m, f, level, [i]) == Some(e.frame)
            && forall g: nat :: EntryGives(m, f, level, i, g) <==> GivenBack(m, e.frame, level - 1, ENTRIES, g))
  {
    C.EntryOfRoot(m, f, level, i);
    hide Locate, EntryAt, GivenBack;
  }

  lemma NoLargePage(m: Tables, data: C.Pages, f: nat, level: nat, lim: nat, free: set<nat>, i: nat)
    requires Releasable(m, data, f, level, lim, free) && 0 < level && HasTable(m, f) && i < lim <= ENTRIES
    ensures level == 2 || level == 3 ==> !(m[f][i].flags.present && m[f][i].flags.ps)
  {
    C.EntryOfRoot(m, f, level, i);
    hide Locate, EntryAt;
    assert 0 < |[i]| <= level && [i][0] < lim;
  }

  lemma InTable(m: Tables, f: nat, i: nat)
    requires HasTable(m, f) && i < ENTRIES
    ensures f in m && i < |m[f]|
  {
  }

  lemma WalkRoot(m: Tables, f: nat, level: nat, lim: nat)
    requires WalkTables(m, f, level, lim) && 0 < level
    ensures HasTable(m, f)
  {
    C.RootLocated(m, f, level, lim);
  }

  lemma WalkChild(m: Tables, root: nat, level: nat, lim: nat, i: nat)
    requires WalkTables(m, root, level, lim) && 0 < level && i < lim && Locate(m, root, level, [i]).Some?
    ensures WalkTables(m, Locate(m, root, level, [i]).value, level - 1, ENTRIES)
  {
    hide Locate, EntryAt;
    var c := Locate(m, root, level, [i]).value;
    forall p: Path | |p| < level - 1 && C.InReach(p, ENTRIES) && Locate(m, c, level - 1, p).Some?
      ensures HasTable(m, Locate(m, c, level - 1, p).value)
    {
      C.LocateCons(m, root, level, i, p);
      assert C.InReach([i] + p, lim);
    }
  }

  lemma ChildReleased(m: Tables, c: nat, level: nat, free: set<nat>, free': set<nat>)
    requires AllReleased(m, c, level, ENTRIES, free, free')
    ensures forall g: nat :: g in free' <==> g in free || GivenBack(m, c, level, ENTRIES, g)
  {
  }

  lemma NothingReleased(m: Tables, f: nat, level: nat, free: set<nat>, i: nat)
    requires level == 0 || i == 0
    ensures Released(m, f, level, free, free, i)
  {
  }

  lemma OneMoreReleased(m: Tables, f: nat, level: nat, free: set<nat>, free1: set<nat>, free2: set<nat>, i: nat)
    requires 0 < level && Released(m, f, level, free, free1, i)
    requires forall g: nat :: g in free2 <==> g in free1 || EntryGives(m, f, level, i, g)
    ensures Released(m, f, level, free, free2, i + 1)
  {
    hide Behind, EntryGives;
    forall g: nat ensures g in free2 <==> g in free || Behind(m, f, level, i + 1, g) {
      BehindNext(m, f, level, i, g);
    }
  }

  lemma RootNext(m: Tables, data: C.Pages, f: nat, level: nat, lim: nat, free: set<nat>, free1: set<nat>)
    requires Releasable(m, data, f, level, lim, free) && Released(m, f, level, free, free1, lim)
    ensures f !in free1
  {
    C.RootLocated(m, f, level, lim);
    hide Locate, EntryAt, Gives;
    forall r: Path | 0 < |r| <= level && r[0] < lim ensures !Gives(m, f, level, r, f) {
      GivesLocated(m, data, f, level, lim, free, r, f);
      assert Locate(m, f, level, r).Some? ==> C.Located(m, f, level, lim, r);
    }
  }

  lemma Finished(m: Tables, f: nat, level: nat, lim: nat, free: set<nat>, free1: set<nat>)
    requires Released(m, f, level, free, free1, lim)
    ensures AllReleased(m, f, level, lim, free, free1 + if Managed(f) then {f} else {})
  {
  }

  /** FreeUserAddressSpace: the tables, the pages and the 2 MiB pages of the user half and the root
      become free, and nothing else does. A tree whose frames are used once and allocated is
      given back without giving a frame back twice. */
  method FreeUserAddressSpace(mem: Memory, cr3: nat)
    requires mem.Valid() && (cr3 != 0 ==> WalkTables(mem.tables, cr3, 4, USER_ENTRIES))
    modifies mem.frames.bytes, mem.frames`doubleFree
    ensures mem.Valid()
    ensures cr3 == 0 ==>
      mem.FreeFrames() == old(mem.FreeFrames()) && mem.frames.doubleFree == old(mem.frames.doubleFree)
    ensures cr3 != 0 ==> AllReleased(mem.tables, cr3, 4, USER_ENTRIES, old(mem.FreeFrames()), mem.FreeFrames())
    ensures cr3 != 0 && Releasable(mem.tables, mem.data, cr3, 4, USER_ENTRIES, old(mem.FreeFrames())) ==>
      mem.frames.doubleFree == old(mem.frames.doubleFree)
  {
    hide *;
    if cr3 == 0 { return; }
    Sizes();
    ghost var m, data, free := mem.tables, mem.data, mem.FreeFrames();
    ReleaseEntries(mem, cr3, 4, USER_ENTRIES);
    ghost var free1 := mem.FreeFrames();
    if Releasable(m, data, cr3, 4, USER_ENTRIES, free) { RootNext(m, data, cr3, 4, USER_ENTRIES, free, free1); }
    mem.FreeFrame(cr3);
    Finished(m, cr3, 4, USER_ENTRIES, free, free1);
  }

  /** What that means for the pages of the user half: the frame of each, and all frames of a 2 MiB
      page, are free if they lie in the managed 1 GiB from 1 MiB on. */
  lemma PagesGivenBack(m: Tables, root: nat, free: set<nat>, free': set<nat>, q: Path, e: Entry, g: nat)
    requires AllReleased(m, root, 4, USER_ENTRIES, free, free') && q != [] && q[0] < 256
    requires LeafAt(m, root, 4, q) == Some(e)
    ensures |q| == 4 && 256 <= e.frame < 256 + 262144 ==> e.frame in free'
    ensures |q| == 3 && 256 <= e.frame && e.frame + 512 <= 256 + 262144 && e.frame % 512 == 0 ==>
      (e.frame <= g < e.frame + 512 ==> g in free')
  {
    if |q| == 4 && 256 <= e.frame < 256 + 262144 {
      assert Locate(m, root, 4, q) == Some(e.frame);
      assert Gives(m, root, 4, q, e.frame);
    }
    if |q| == 3 && 256 <= e.frame && e.frame + 512 <= 256 + 262144 && e.frame % 512 == 0 && e.frame <= g < e.frame + 512 {
      assert e.frame / 512 * 512 == e.frame;
      assert Gives(m, root, 4, q, g);
    }
  }

  /** And no other frame: one that has become free is managed, and it is the root, a table or a page
      that the user half leads to, or it lies in a 2 MiB page of it. */
  lemma NothingElseGivenBack(m: Tables, root: nat, free: set<nat>, free': set<nat>, g: nat)
    requires AllReleased(m, root, 4, USER_ENTRIES, free, free') && g in free' && g !in free
    ensures 256 <= g < 256 + 262144
    ensures g == root || exists p: Path ::
      && 0 < |p| <= 4 && p[0] < 256
      && (|| Locate(m, root, 4, p) == Some(g)
          || (|p| == 3 && LeafAt(m, root, 4, p).Some? && g / 512 == LeafAt(m, root, 4, p).value.frame / 512))
  {
    hide Locate, LeafAt;
    if !(g == root && Managed(root)) {
      var p: Path :| 0 < |p| <= 4 && p[0] < 256 && Gives(m, root, 4, p, g);
    }
  }

  // ----- both together

  /** A fresh copy can be given back, frame by frame. */
  lemma CloneReleasable(m: Tables, data: C.Pages, src: nat, free: set<nat>, m': Tables, data': C.Pages, n: nat,
                        free': set<nat>)
    requires C.Source(m, data, src, 4, USER_ENTRIES, free)
    requires n != 0 && ClonedOr0(m, data, src, 4, USER_ENTRIES, free, m', data', n, free')
    ensures Releasable(m', data', n, 4, USER_ENTRIES, free') && WalkTables(m', n, 4, USER_ENTRIES)
  {
    C.CopyIsSource(m, data, src, 4, free, m', data', n, free', USER_ENTRIES);
  }

  /** What is given back of a tree without large pages in managed frames are its own frames. */
  lemma GivenIsOwned(m: Tables, data: C.Pages, root: nat, level: nat, lim: nat, free: set<nat>, g: nat)
    requires C.Source(m, data, root, level, lim, free) && C.Owns(m, root, level, lim, root)
    requires forall f: nat :: C.Owns(m, root, level, lim, f) ==> Managed(f)
    ensures GivenBack(m, root, level, lim, g) <==> C.Owns(m, root, level, lim, g)
  {
    hide Locate, EntryAt, Gives, Managed;
    forall p: Path | 0 < |p| <= level && p[0] < lim
      ensures Gives(m, root, level, p, g) <==> Locate(m, root, level, p) == Some(g) && Managed(g)
    {
      GivesLocated(m, data, root, level, lim, free, p, g);
    }
    if C.Owns(m, root, level, lim, g) {
      var p: Path :| |p| <= level && C.InReach(p, lim) && Locate(m, root, level, p) == Some(g);
      if p == [] { RootOnly(m, root, level); } else { assert p[0] < lim; }
    }
    if Behind(m, root, level, lim, g) {
      var p: Path :| 0 < |p| <= level && p[0] < lim && Gives(m, root, level, p, g);
      assert C.InReach(p, lim);
    }
  }

  lemma RootOnly(m: Tables, root: nat, level: nat)
    ensures Locate(m, root, level, []) == Some(root)
  {
  }

  /** Giving a fresh copy back restores the bitmap exactly. */
  lemma CloneThenFree(m: Tables, data: C.Pages, src: nat, free: set<nat>, m': Tables, data': C.Pages, n: nat,
                      free': set<nat>, free'': set<nat>)
    requires C.Source(m, data, src, 4, USER_ENTRIES, free) && forall f <- free :: Managed(f)
    requires n != 0 && ClonedOr0(m, data, src, 4, USER_ENTRIES, free, m', data', n, free')
    requires AllReleased(m', n, 4, USER_ENTRIES, free', free'')
    ensures free'' == free
  {
    CloneReleasable(m, data, src, free, m', data', n, free');
    C.RootLocated(m', n, 4, USER_ENTRIES);
    hide C.Owns, C.Copies, C.Exclusive, C.Untouched, C.Source, GivenBack, Managed;
    forall g: nat ensures g in free'' <==> g in free {
      GivenIsOwned(m', data', n, 4, USER_ENTRIES, free', g);
    }
  }

  /** A fork and an exit: the copy is made, and given back. Without enough frames for the copy
      none is left. */
  method CloneAndFree(mem: Memory, SourceCR3: nat, kernel: nat) returns (ok: bool)
    requires mem.Valid() && HasTable(mem.tables, kernel) && kernel !in mem.FreeFrames()
    requires C.Source(mem.tables, mem.data, SourceCR3, 4, USER_ENTRIES, mem.FreeFrames())
    modifies mem`tables, mem`data, mem.frames.bytes, mem.frames`doubleFree
    ensures mem.Valid() && mem.FreeFrames() == if ok then old(mem.FreeFrames()) else {}
    ensures mem.frames.doubleFree == old(mem.frames.doubleFree)
  {
    hide *;
    ghost var m, data, free := mem.tables, mem.data, mem.FreeFrames();
    forall f <- free ensures Managed(f) { mem.FreeIs(f); }
    var cr3 := CloneUserAddressSpace(mem, SourceCR3, kernel);
    ok := cr3 != 0;
    if ok {
      ghost var m1, data1, free1 := mem.tables, mem.data, mem.FreeFrames();
      CloneReleasable(m, data, SourceCR3, free, m1, data1, cr3, free1);
      FreeUserAddressSpace(mem, cr3);
      CloneThenFree(m, data, SourceCR3, free, m1, data1, cr3, free1, mem.FreeFrames());
    }
  }
}
