/** The walks from a virtual to a physical address: GetPhysicalAddress of
    kernel/mm/mappage.cpp:217-261 and vaddr_to_phys_page of kernel/mm/usercopy.cpp:22-67. */
module Translation {
  import opened Basics
  import opened PageTables
  import opened Paging

  const SIZE_4K: nat := 0x1000
  const SIZE_2M: nat := 0x20_0000
  const SIZE_1G: nat := 0x4000_0000
  const SIZE_512G: nat := 0x80_0000_0000

  /** An entry as memory holds it. */
  function Read(m: Tables, f: nat, i: nat): Entry {
    if HasTable(m, f) && i < ENTRIES then m[f][i] else CLEAR
  }

  function GetPhysicalAddress(m: Tables, pml4: nat, v: nat): nat {
    var pml4e := Read(m, pml4, v / SIZE_512G % 512);
    if !pml4e.flags.present then 0
    else
      var pdpte := Read(m, pml4e.frame, v / SIZE_1G % 512);
      if !pdpte.flags.present then 0
      else if pdpte.flags.ps then pdpte.frame * PAGE_SIZE + v % SIZE_1G
      else
        var pde := Read(m, pdpte.frame, v / SIZE_2M % 512);
        if !pde.flags.present then 0
        else if pde.flags.ps then pde.frame * PAGE_SIZE + v % SIZE_2M
        else
          var pte := Read(m, pde.frame, v / SIZE_4K % 512);
          if !pte.flags.present then 0 else pte.frame * PAGE_SIZE + v % SIZE_4K
  }

  /** The same by the leaves of the tree: the leaf on the path of v, be it of level 3, 2 or 1,
      and the offset of v in a page of that size. */
  function Translate(m: Tables, root: nat, v: nat): Option<nat> {
    var q := PathOf(v / PAGE_SIZE);
    match LeafAt(m, root, LEVELS, q[..2])
    case Some(e) => Some(e.frame * PAGE_SIZE + v % SIZE_1G)
    case None =>
      match LeafAt(m, root, LEVELS, q[..3])
      case Some(e) => Some(e.frame * PAGE_SIZE + v % SIZE_2M)
      case None =>
        match LeafAt(m, root, LEVELS, q)
        case Some(e) => Some(e.frame * PAGE_SIZE + v % SIZE_4K)
        case None => None
  }

  lemma Indices(v: nat)
    ensures var q := PathOf(v / PAGE_SIZE);
      q[0] == v / SIZE_512G % 512 && q[1] == v / SIZE_1G % 512 && q[2] == v / SIZE_2M % 512 && q[3] == v / SIZE_4K % 512
  {
    assert v / PAGE_SIZE / 0x800_0000 == v / SIZE_512G;
    assert v / PAGE_SIZE / 0x4_0000 == v / SIZE_1G;
    assert v / PAGE_SIZE / 0x200 == v / SIZE_2M;
  }

  /** One step of the walk. */
  lemma Step(m: Tables, root: nat, q: Path, k: nat, f: nat)
    requires |q| == LEVELS && k < LEVELS && q[k] < ENTRIES && Locate(m, root, LEVELS, q[..k]) == Some(f)
    ensures var e := Read(m, f, q[k]);
      && Locate(m, root, LEVELS, q[..k + 1]) == (if Below(e, LEVELS - k) then Some(e.frame) else None)
      && LeafAt(m, root, LEVELS, q[..k + 1])
         == if e.flags.present && (k + 1 == LEVELS || !Below(e, LEVELS - k)) then Some(e) else None
  {
    assert q[..k + 1][..k] == q[..k];
  }

  /** Where the walk has stopped no leaf follows. */
  lemma Stopped(m: Tables, root: nat, q: Path, k: nat, j: nat)
    requires |q| == LEVELS && 0 < k < j <= LEVELS && Locate(m, root, LEVELS, q[..k]).None?
    ensures LeafAt(m, root, LEVELS, q[..j]).None?
  {
    Dead(m, root, q[..k], q[..j]);
  }

  /** GetPhysicalAddress is the translation, with 0 for none. */
  lemma GetIsTranslate(m: Tables, root: nat, v: nat)
    ensures GetPhysicalAddress(m, root, v) == match Translate(m, root, v) case Some(a) => a case None => 0
  {
    hide Locate, LeafAt, PathOf, EntryAt;
    var q := PathOf(v / PAGE_SIZE);
    Indices(v);
    LocateRoot(m, root);
    assert q[..0] == [] && q[..4] == q;
    Step(m, root, q, 0, root);
    var e4 := Read(m, root, q[0]);
    if !Below(e4, 4) {
      Stopped(m, root, q, 1, 2);
      Stopped(m, root, q, 1, 3);
      Stopped(m, root, q, 1, 4);
    } else {
      Step(m, root, q, 1, e4.frame);
      var e3 := Read(m, e4.frame, q[1]);
      if !Below(e3, 3) {
        Stopped(m, root, q, 2, 3);
        Stopped(m, root, q, 2, 4);
      } else {
        Step(m, root, q, 2, e3.frame);
        var e2 := Read(m, e3.frame, q[2]);
        if !Below(e2, 2) {
          Stopped(m, root, q, 3, 4);
        } else {
          Step(m, root, q, 3, e2.frame);
        }
      }
    }
  }

  /** A page of 4 KiB is found as such. */
  lemma SmallPage(m: Tables, root: nat, v: nat)
    requires LeafAt(m, root, LEVELS, PathOf(v / PAGE_SIZE)).Some?
    ensures Translate(m, root, v) == Some(LeafAt(m, root, LEVELS, PathOf(v / PAGE_SIZE)).value.frame * PAGE_SIZE + v % PAGE_SIZE)
  {
    LargeLeaves(m, root, PathOf(v / PAGE_SIZE));
  }

  /** After MapPages, every byte of the pages it has come to has the matching physical address. */
  lemma MappedTranslates(m: Tables, m': Tables, root: nat, first: nat, frame: nat, flags: Flags, next: nat, v: nat)
    requires MappedSoFar(m, m', root, first, frame, flags, next) && flags.present
    requires first <= v / PAGE_SIZE < next <= first + 0x10_0000_0000
    ensures GetPhysicalAddress(m', root, v) == (frame + (v / PAGE_SIZE - first)) * PAGE_SIZE + v % PAGE_SIZE
  {
    AllLast(first, v / PAGE_SIZE, next);
    SmallPage(m', root, v);
    GetIsTranslate(m', root, v);
  }

  /** And every address elsewhere is translated as before. */
  lemma OthersTranslate(m: Tables, m': Tables, root: nat, first: nat, frame: nat, flags: Flags, next: nat, v: nat)
    requires MappedSoFar(m, m', root, first, frame, flags, next) && !Taken(first, next, PathOf(v / PAGE_SIZE))
    ensures GetPhysicalAddress(m', root, v) == GetPhysicalAddress(m, root, v)
  {
    hide LeafAt, PathOf;
    GetIsTranslate(m, root, v);
    GetIsTranslate(m', root, v);
    var q := PathOf(v / PAGE_SIZE);
    assert !Taken(first, next, q[..2]) && !Taken(first, next, q[..3]) by { assert |q[..2]| == 2 && |q[..3]| == 3; }
  }

  /** UnmapPage takes away the translation of one page only. */
  lemma UnmappedTranslates(m: Tables, m': Tables, root: nat, page: nat, v: nat, free: set<nat>, free': set<nat>)
    requires Unmapped(m, m', root, PathOf(page), free, free') && LeafAt(m, root, LEVELS, PathOf(page)).Some?
    ensures GetPhysicalAddress(m', root, v) == if PathOf(v / PAGE_SIZE) == PathOf(page) then 0
                                               else GetPhysicalAddress(m, root, v)
  {
    var q := PathOf(v / PAGE_SIZE);
    if q == PathOf(page) { LargeLeaves(m, root, q); }
    hide LeafAt, PathOf, Locate;
    GetIsTranslate(m, root, v);
    GetIsTranslate(m', root, v);
    assert |q[..2]| == 2 && |q[..3]| == 3;
  }

  lemma LargeLeaves(m: Tables, root: nat, q: Path)
    requires |q| == LEVELS && LeafAt(m, root, LEVELS, q).Some?
    ensures LeafAt(m, root, LEVELS, q[..2]).None? && LeafAt(m, root, LEVELS, q[..3]).None?
  {
    LeafLocates(m, root, q[..2], q);
    LeafLocates(m, root, q[..3], q);
    if LeafAt(m, root, LEVELS, q[..2]).Some? { NotBoth(m, root, q[..2]); }
    if LeafAt(m, root, LEVELS, q[..3]).Some? { NotBoth(m, root, q[..3]); }
  }

  // ----- large pages

  /** What the processor translates v to: the low address bits of the entry of a large page are
      not part of its address (bit 12 is a memory type bit, the others are reserved). */
  function HardwareTranslate(m: Tables, root: nat, v: nat): Option<nat> {
    var q := PathOf(v / PAGE_SIZE);
    match LeafAt(m, root, LEVELS, q[..2])
    case Some(e) => Some(e.frame * PAGE_SIZE / SIZE_1G * SIZE_1G + v % SIZE_1G)
    case None =>
      match LeafAt(m, root, LEVELS, q[..3])
      case Some(e) => Some(e.frame * PAGE_SIZE / SIZE_2M * SIZE_2M + v % SIZE_2M)
      case None =>
        match LeafAt(m, root, LEVELS, q)
        case Some(e) => Some(e.frame * PAGE_SIZE + v % SIZE_4K)
        case None => None
  }

  /** GetPhysicalAddress masks the same bits at every level, so for a large page it is right
      exactly when the entry has none of those bits set. */
  lemma RightForLargePages(m: Tables, root: nat, v: nat)
    ensures var q := PathOf(v / PAGE_SIZE);
      Translate(m, root, v) == HardwareTranslate(m, root, v) <==>
        match LeafAt(m, root, LEVELS, q[..2])
        case Some(e) => e.frame * PAGE_SIZE % SIZE_1G == 0
        case None =>
          match LeafAt(m, root, LEVELS, q[..3])
          case Some(e) => e.frame * PAGE_SIZE % SIZE_2M == 0
          case None => true
  {
    hide LeafAt, PathOf;
    var q := PathOf(v / PAGE_SIZE);
    if LeafAt(m, root, LEVELS, q[..2]).Some? {
      Aligned(LeafAt(m, root, LEVELS, q[..2]).value.frame * PAGE_SIZE, SIZE_1G);
    } else if LeafAt(m, root, LEVELS, q[..3]).Some? {
      Aligned(LeafAt(m, root, LEVELS, q[..3]).value.frame * PAGE_SIZE, SIZE_2M);
    }
  }

  lemma Aligned(a: nat, size: nat)
    requires size > 0
    ensures a / size * size == a <==> a % size == 0
  {
  }

  /** A large page at 2 MiB whose entry has bit 12 set is an input on which it is wrong. */
  lemma WrongWithBit12(m: Tables)
    requires HasTable(m, 1) && HasTable(m, 2)
    requires m[1][0] == Entry(2, Flags(true, true, true, false, 0)) && m[2][0] == Entry(3, Flags(true, true, true, false, 0))
    requires HasTable(m, 3) && m[3][0] == Entry(0x201, Flags(true, true, true, true, 0))
    ensures GetPhysicalAddress(m, 1, 0) == 0x20_1000 && HardwareTranslate(m, 1, 0) == Some(0x20_0000)
  {
    hide Locate, LeafAt, EntryAt;
    var q := PathOf(0);
    LocateRoot(m, 1);
    assert q[..0] == [];
    Step(m, 1, q, 0, 1);
    Step(m, 1, q, 1, 2);
    Step(m, 1, q, 2, 3);
  }
}
