/** CopyFromUser and CopyToUser of kernel/mm/usercopy.cpp: copies through the page tables of a
    user, in chunks that end where a page ends. */
module UserCopy {
  import opened Basics
  import opened PageTables
  import opened Paging
  import opened Translation

  /** The physical address of a byte and the size of the page it lies in. */
  datatype Hit = Hit(phys: nat, size: nat)

  predicate UserEntry(e: Entry) {
    e.flags.present && e.flags.user
  }

  /** vaddr_to_phys_page: every entry on the way must be present and open to the user. */
  function VaddrToPhysPage(m: Tables, pml4: nat, v: nat): Option<Hit> {
    var pml4e := Read(m, pml4, v / SIZE_512G % 512);
    if !UserEntry(pml4e) then None
    else
      var pdpte := Read(m, pml4e.frame, v / SIZE_1G % 512);
      if !UserEntry(pdpte) then None
      else if pdpte.flags.ps then Some(Hit(pdpte.frame * PAGE_SIZE + v % SIZE_1G, SIZE_1G))
      else
        var pde := Read(m, pdpte.frame, v / SIZE_2M % 512);
        if !UserEntry(pde) then None
        else if pde.flags.ps then Some(Hit(pde.frame * PAGE_SIZE + v % SIZE_2M, SIZE_2M))
        else
          var pte := Read(m, pde.frame, v / SIZE_4K % 512);
          if !UserEntry(pte) then None else Some(Hit(pte.frame * PAGE_SIZE + v % SIZE_4K, SIZE_4K))
  }

  /** Where it succeeds it agrees with GetPhysicalAddress. */
  lemma WalkersAgree(m: Tables, pml4: nat, v: nat)
    requires VaddrToPhysPage(m, pml4, v).Some?
    ensures VaddrToPhysPage(m, pml4, v).value.phys == GetPhysicalAddress(m, pml4, v)
  {
  }

  /** What the architecture asks for: a page, of whatever size, on the way of v, and the user bit
      set in every entry up to it. */
  ghost predicate UserMay(m: Tables, root: nat, v: nat) {
    exists k :: 0 < k <= LEVELS && LeafAt(m, root, LEVELS, PathOf(v / PAGE_SIZE)[..k]).Some? && UserBits(m, root, v, k)
  }

  ghost predicate UserBits(m: Tables, root: nat, v: nat, k: nat)
    requires k <= LEVELS
  {
    forall j :: 0 < j <= k ==>
      var e := EntryAt(m, root, LEVELS, PathOf(v / PAGE_SIZE)[..j]); e.Some? && e.value.flags.user
  }

  /** The walker succeeds exactly then. */
  lemma UserReaches(m: Tables, root: nat, v: nat)
    ensures VaddrToPhysPage(m, root, v).Some? <==> UserMay(m, root, v)
  {
    if VaddrToPhysPage(m, root, v).Some? { UserFound(m, root, v); }
    if UserMay(m, root, v) {
      var k :| 0 < k <= LEVELS && LeafAt(m, root, LEVELS, PathOf(v / PAGE_SIZE)[..k]).Some? && UserBits(m, root, v, k);
      UserFinds(m, root, v, k);
    }
  }

  /** One step of the walk, with the entry that it reads. */
  lemma UserStep(m: Tables, root: nat, q: Path, k: nat, f: nat)
    requires |q| == LEVELS && k < LEVELS && q[k] < ENTRIES && Locate(m, root, LEVELS, q[..k]) == Some(f)
    ensures var e := Read(m, f, q[k]);
      && Locate(m, root, LEVELS, q[..k + 1]) == (if Below(e, LEVELS - k) then Some(e.frame) else None)
      && (e.flags.present ==> EntryAt(m, root, LEVELS, q[..k + 1]) == Some(e))
      && (EntryAt(m, root, LEVELS, q[..k + 1]).Some? ==> EntryAt(m, root, LEVELS, q[..k + 1]) == Some(e))
    ensures var e := Read(m, f, q[k]);
      LeafAt(m, root, LEVELS, q[..k + 1]) == if e.flags.present && (k + 1 == LEVELS || !Below(e, LEVELS - k)) then Some(e)
                                             else None
  {
    assert q[..k + 1][..k] == q[..k];
  }

  lemma UserFound(m: Tables, root: nat, v: nat)
    requires VaddrToPhysPage(m, root, v).Some?
    ensures UserMay(m, root, v)
  {
    hide Locate, LeafAt, PathOf, EntryAt;
    var q := PathOf(v / PAGE_SIZE);
    Indices(v);
    LocateRoot(m, root);
    assert q[..0] == [];
    UserStep(m, root, q, 0, root);
    var e4 := Read(m, root, q[0]);
    UserStep(m, root, q, 1, e4.frame);
    var e3 := Read(m, e4.frame, q[1]);
    if e3.flags.ps {
      assert UserBits(m, root, v, 2);
    } else {
      UserStep(m, root, q, 2, e3.frame);
      var e2 := Read(m, e3.frame, q[2]);
      if e2.flags.ps {
        assert UserBits(m, root, v, 3);
      } else {
        UserStep(m, root, q, 3, e2.frame);
        assert UserBits(m, root, v, 4);
      }
    }
  }

  lemma UserFinds(m: Tables, root: nat, v: nat, k: nat)
    requires 0 < k <= LEVELS && LeafAt(m, root, LEVELS, PathOf(v / PAGE_SIZE)[..k]).Some? && UserBits(m, root, v, k)
    ensures VaddrToPhysPage(m, root, v).Some?
  {
    var q := PathOf(v / PAGE_SIZE);
    forall j | 0 <= j < k ensures Locate(m, root, LEVELS, q[..j]).Some? { LeafLocates(m, root, q[..j], q[..k]); }
    hide Locate, LeafAt, PathOf, EntryAt;
    Indices(v);
    LocateRoot(m, root);
    assert q[..0] == [];
    UserStep(m, root, q, 0, root);
    var e4 := Read(m, root, q[0]);
    if k > 1 {
      UserStep(m, root, q, 1, e4.frame);
      var e3 := Read(m, e4.frame, q[1]);
      if k > 2 {
        UserStep(m, root, q, 2, e3.frame);
        if k > 3 { UserStep(m, root, q, 3, Read(m, e3.frame, q[2]).frame); }
      }
    }
  }

  /** To the end of its page a byte is followed by the next physical bytes. */
  lemma WithinPage(m: Tables, pml4: nat, v: nat, j: nat)
    requires VaddrToPhysPage(m, pml4, v).Some?
    requires v % VaddrToPhysPage(m, pml4, v).value.size + j < VaddrToPhysPage(m, pml4, v).value.size
    ensures var h := VaddrToPhysPage(m, pml4, v).value; VaddrToPhysPage(m, pml4, v + j) == Some(Hit(h.phys + j, h.size))
  {
    var h := VaddrToPhysPage(m, pml4, v).value;
    SamePage(v, j, h.size, SIZE_512G);
    SamePage(v, j, h.size, SIZE_1G);
    if h.size <= SIZE_2M { SamePage(v, j, h.size, SIZE_2M); }
    if h.size <= SIZE_4K { SamePage(v, j, h.size, SIZE_4K); }
  }

  lemma SamePage(v: nat, j: nat, size: nat, outer: nat)
    requires size == SIZE_4K || size == SIZE_2M || size == SIZE_1G
    requires outer == SIZE_4K || outer == SIZE_2M || outer == SIZE_1G || outer == SIZE_512G
    requires v % size + j < size <= outer
    ensures (v + j) / outer == v / outer && (v + j) % outer == v % outer + j
  {
  }

  lemma ReadIsEntry(m: Tables, root: nat, q: Path, k: nat)
    requires |q| == LEVELS && k < LEVELS && q[k] < ENTRIES && EntryAt(m, root, LEVELS, q[..k + 1]).Some?
    ensures Locate(m, root, LEVELS, q[..k]).Some?
    ensures Read(m, Locate(m, root, LEVELS, q[..k]).value, q[k]) == EntryAt(m, root, LEVELS, q[..k + 1]).value
  {
    assert q[..k + 1][..k] == q[..k];
  }

  /** MapPages makes a page reachable for the user if the page's own flags allow it and the
      directories that were there before are open to the user: new ones are, and none is closed. */
  lemma MappedForUser(m: Tables, m': Tables, root: nat, frame: nat, flags: Flags, v: nat)
    requires var q := PathOf(v / PAGE_SIZE);
      && Directories(m, m', root, q, 3) && Leads(m', root, q, Entry(frame, flags)) && flags.present && flags.user
      && forall k :: 0 < k < LEVELS && Locate(m, root, LEVELS, q[..k]).Some? ==> EntryAt(m, root, LEVELS, q[..k]).value.flags.user
    ensures VaddrToPhysPage(m', root, v) == Some(Hit(frame * PAGE_SIZE + v % PAGE_SIZE, SIZE_4K))
  {
    hide Directories, PathOf, Locate, EntryAt, VaddrToPhysPage, Leads;
    var q := PathOf(v / PAGE_SIZE);
    LeadsAlong(m', root, q, Entry(frame, flags));
    OpenDirectory(m, m', root, q, 1);
    OpenDirectory(m, m', root, q, 2);
    OpenDirectory(m, m', root, q, 3);
    OpenWalk(m', root, q, v, Entry(frame, flags));
  }

  /** The way to a page goes through its directories. */
  lemma LeadsAlong(m: Tables, root: nat, q: Path, e: Entry)
    requires |q| == LEVELS && Leads(m, root, q, e) && e.flags.present
    ensures forall k :: 0 < k < LEVELS ==> Locate(m, root, LEVELS, q[..k]).Some?
    ensures EntryAt(m, root, LEVELS, q[..4]) == Some(e)
  {
    assert q[..4] == q;
    LeafLocates(m, root, q[..1], q);
    LeafLocates(m, root, q[..2], q);
    LeafLocates(m, root, q[..3], q);
  }

  /** The k-th directory entry on the way is open to the user. */
  ghost predicate OpenAt(m: Tables, root: nat, q: Path, k: nat)
    requires 0 < k <= |q|
  {
    EntryAt(m, root, LEVELS, q[..k]).Some?
    && var e := EntryAt(m, root, LEVELS, q[..k]).value;
      UserEntry(e) && (k > 1 ==> !e.flags.ps) && Locate(m, root, LEVELS, q[..k]) == Some(e.frame)
  }

  /** A walk through directories that are open to the user. */
  lemma OpenWalk(m: Tables, root: nat, q: Path, v: nat, e: Entry)
    requires q == PathOf(v / PAGE_SIZE) && EntryAt(m, root, LEVELS, q[..4]) == Some(e) && UserEntry(e)
    requires forall k :: 0 < k < LEVELS ==> OpenAt(m, root, q, k)
    ensures VaddrToPhysPage(m, root, v) == Some(Hit(e.frame * PAGE_SIZE + v % PAGE_SIZE, SIZE_4K))
  {
    Indices(v);
    LocateRoot(m, root);
    hide PathOf, Locate, EntryAt;
    assert q[..0] == [];
    assert OpenAt(m, root, q, 1) && OpenAt(m, root, q, 2) && OpenAt(m, root, q, 3);
    ReadIsEntry(m, root, q, 0);
    ReadIsEntry(m, root, q, 1);
    ReadIsEntry(m, root, q, 2);
    ReadIsEntry(m, root, q, 3);
  }

  lemma OpenDirectory(m: Tables, m': Tables, root: nat, q: Path, k: nat)
    requires |q| == LEVELS && 0 < k < LEVELS && Directories(m, m', root, q, 3) && Locate(m', root, LEVELS, q[..k]).Some?
    requires Locate(m, root, LEVELS, q[..k]).Some? ==> EntryAt(m, root, LEVELS, q[..k]).value.flags.user
    ensures OpenAt(m', root, q, k)
  {
  }

  // ----- one byte at a time

  type Ram = map<nat, Byte>

  /** A byte of physical memory; an address without memory behind it reads as zero. */
  function Peek(ram: Ram, a: nat): Byte {
    if a in ram then ram[a] else 0
  }

  /** The plain loop of CopyToUser: byte after byte in ascending order, up to the first that the
      user cannot reach. */
  function StoreBytes(ram: Ram, m: Tables, pml4: nat, dst: nat, data: seq<Byte>): (bool, Ram)
    decreases |data|
  {
    if data == [] then (true, ram)
    else match VaddrToPhysPage(m, pml4, dst)
      case None => (false, ram)
      case Some(h) => StoreBytes(ram[h.phys := data[0]], m, pml4, dst + 1, data[1..])
  }

  /** The plain loop of CopyFromUser. */
  function LoadBytes(ram: Ram, m: Tables, pml4: nat, src: nat, len: nat): (bool, seq<Byte>)
    decreases len
  {
    if len == 0 then (true, [])
    else match VaddrToPhysPage(m, pml4, src)
      case None => (false, [])
      case Some(h) => var rest := LoadBytes(ram, m, pml4, src + 1, len - 1); (rest.0, [Peek(ram, h.phys)] + rest.1)
  }

  /** The plain loops succeed exactly when the user can reach every byte. */
  lemma {:induction false} StoreSucceeds(ram: Ram, m: Tables, pml4: nat, dst: nat, data: seq<Byte>)
    ensures StoreBytes(ram, m, pml4, dst, data).0 <==> forall v :: dst <= v < dst + |data| ==> UserMay(m, pml4, v)
    decreases |data|
  {
    hide VaddrToPhysPage, UserMay;
    UserReaches(m, pml4, dst);
    if data != [] && VaddrToPhysPage(m, pml4, dst).Some? {
      StoreSucceeds(ram[VaddrToPhysPage(m, pml4, dst).value.phys := data[0]], m, pml4, dst + 1, data[1..]);
    }
  }

  lemma {:induction false} LoadSucceeds(ram: Ram, m: Tables, pml4: nat, src: nat, len: nat)
    ensures LoadBytes(ram, m, pml4, src, len).0 <==> forall v :: src <= v < src + len ==> UserMay(m, pml4, v)
    ensures |LoadBytes(ram, m, pml4, src, len).1| <= len
    ensures LoadBytes(ram, m, pml4, src, len).0 ==> |LoadBytes(ram, m, pml4, src, len).1| == len
    decreases len
  {
    hide VaddrToPhysPage, UserMay;
    UserReaches(m, pml4, src);
    if len > 0 && VaddrToPhysPage(m, pml4, src).Some? { LoadSucceeds(ram, m, pml4, src + 1, len - 1); }
  }

  // ----- which bytes arrive

  /** Nothing else is at this address of both memories. */
  predicate SameAt(ram: Ram, ram': Ram, a: nat) {
    (a in ram' <==> a in ram) && (a in ram ==> ram'[a] == ram[a])
  }

  /** None of the bytes from one user address up to another goes to this address. */
  ghost predicate NotSentTo(m: Tables, pml4: nat, from: nat, end: nat, a: nat) {
    forall v: nat :: from <= v < end ==> GetPhysicalAddress(m, pml4, v) != a
  }

  /** Of the bytes sent to one physical address the last is found there afterwards, and an address
      to which none is sent keeps its byte. */
  lemma {:induction false} StoreArrives(ram: Ram, m: Tables, pml4: nat, dst: nat, data: seq<Byte>)
    requires forall v :: dst <= v < dst + |data| ==> UserMay(m, pml4, v)
    ensures forall a: nat :: NotSentTo(m, pml4, dst, dst + |data|, a) ==>
      SameAt(ram, StoreBytes(ram, m, pml4, dst, data).1, a)
    ensures forall v: nat :: dst <= v < dst + |data| ==>
      var ram', a := StoreBytes(ram, m, pml4, dst, data).1, GetPhysicalAddress(m, pml4, v);
      NotSentTo(m, pml4, v + 1, dst + |data|, a) ==> a in ram' && ram'[a] == data[v - dst]
    decreases |data|
  {
    hide VaddrToPhysPage, UserMay, GetPhysicalAddress;
    if data != [] {
      UserReaches(m, pml4, dst);
      WalkersAgree(m, pml4, dst);
      var a := GetPhysicalAddress(m, pml4, dst);
      StoreArrives(ram[a := data[0]], m, pml4, dst + 1, data[1..]);
      var ram1, ram' := ram[a := data[0]], StoreBytes(ram, m, pml4, dst, data).1;
      assert ram' == StoreBytes(ram1, m, pml4, dst + 1, data[1..]).1;
      hide StoreBytes;
      forall b: nat | NotSentTo(m, pml4, dst, dst + |data|, b) ensures SameAt(ram, ram', b) {
        assert SameAt(ram1, ram', b);
      }
      forall v: nat | dst <= v < dst + |data| && NotSentTo(m, pml4, v + 1, dst + |data|, GetPhysicalAddress(m, pml4, v))
        ensures GetPhysicalAddress(m, pml4, v) in ram' && ram'[GetPhysicalAddress(m, pml4, v)] == data[v - dst]
      {
        if v == dst { assert SameAt(ram1, ram', a); } else { assert data[v - dst] == data[1..][v - (dst + 1)]; }
      }
    }
  }

  /** A store that fails has stored the bytes before the first that the user cannot reach. */
  lemma {:induction false} StoreStops(ram: Ram, m: Tables, pml4: nat, dst: nat, data: seq<Byte>, n: nat)
    requires n < |data| && (forall v :: dst <= v < dst + n ==> UserMay(m, pml4, v)) && !UserMay(m, pml4, dst + n)
    ensures StoreBytes(ram, m, pml4, dst, data) == (false, StoreBytes(ram, m, pml4, dst, data[..n]).1)
    decreases n
  {
    hide VaddrToPhysPage, UserMay;
    UserReaches(m, pml4, dst);
    if n > 0 {
      StoreStops(ram[VaddrToPhysPage(m, pml4, dst).value.phys := data[0]], m, pml4, dst + 1, data[1..], n - 1);
      assert data[..n][1..] == data[1..][..n - 1];
    }
  }

  /** Every byte loaded is the one at its physical address, or 0 without memory behind that. */
  lemma {:induction false} LoadFetches(ram: Ram, m: Tables, pml4: nat, src: nat, len: nat)
    requires forall v :: src <= v < src + len ==> UserMay(m, pml4, v)
    ensures var r := LoadBytes(ram, m, pml4, src, len).1;
      |r| == len && forall v :: src <= v < src + len ==>
        r[v - src] == if GetPhysicalAddress(m, pml4, v) in ram then ram[GetPhysicalAddress(m, pml4, v)] else 0
    decreases len
  {
    hide VaddrToPhysPage, UserMay, GetPhysicalAddress;
    if len > 0 {
      UserReaches(m, pml4, src);
      WalkersAgree(m, pml4, src);
      LoadFetches(ram, m, pml4, src + 1, len - 1);
    }
  }

  lemma {:induction false} LoadStops(ram: Ram, m: Tables, pml4: nat, src: nat, len: nat, n: nat)
    requires n < len && (forall v :: src <= v < src + n ==> UserMay(m, pml4, v)) && !UserMay(m, pml4, src + n)
    ensures LoadBytes(ram, m, pml4, src, len) == (false, LoadBytes(ram, m, pml4, src, n).1)
    decreases n
  {
    hide VaddrToPhysPage, UserMay;
    UserReaches(m, pml4, src);
    if n > 0 { LoadStops(ram, m, pml4, src + 1, len - 1, n - 1); }
  }

  /** What has been stored is loaded again, if no two of the bytes share an address. */
  lemma StoreThenLoad(ram: Ram, m: Tables, pml4: nat, v: nat, data: seq<Byte>)
    requires forall u :: v <= u < v + |data| ==> UserMay(m, pml4, u)
    requires forall u: nat :: v <= u < v + |data| ==>
      NotSentTo(m, pml4, u + 1, v + |data|, GetPhysicalAddress(m, pml4, u))
    ensures StoreBytes(ram, m, pml4, v, data).0
    ensures LoadBytes(StoreBytes(ram, m, pml4, v, data).1, m, pml4, v, |data|) == (true, data)
  {
    hide VaddrToPhysPage, UserMay, GetPhysicalAddress, StoreBytes, LoadBytes;
    var ram' := StoreBytes(ram, m, pml4, v, data).1;
    StoreSucceeds(ram, m, pml4, v, data);
    StoreArrives(ram, m, pml4, v, data);
    LoadSucceeds(ram', m, pml4, v, |data|);
    LoadFetches(ram', m, pml4, v, |data|);
    var r := LoadBytes(ram', m, pml4, v, |data|).1;
    forall i | 0 <= i < |data| ensures r[i] == data[i] {
      assert r[v + i - v] == ram'[GetPhysicalAddress(m, pml4, v + i)];
    }
    assert r == data;
  }

  // ----- a chunk at a time

  /** Bytes put at consecutive physical addresses. */
  function Blit(ram: Ram, phys: nat, data: seq<Byte>): Ram
    decreases |data|
  {
    if data == [] then ram else Blit(ram[phys := data[0]], phys + 1, data[1..])
  }

  function Peeks(ram: Ram, phys: nat, n: nat): (r: seq<Byte>)
    ensures |r| == n
    decreases n
  {
    if n == 0 then [] else [Peek(ram, phys)] + Peeks(ram, phys + 1, n - 1)
  }

  /** A chunk within one page and then the rest is the plain loop. */
  lemma {:induction false} ChunkThenRest(ram: Ram, m: Tables, pml4: nat, dst: nat, chunk: seq<Byte>, rest: seq<Byte>)
    requires chunk != [] && InOnePage(m, pml4, dst, |chunk|)
    ensures StoreBytes(ram, m, pml4, dst, chunk + rest)
         == StoreBytes(Blit(ram, VaddrToPhysPage(m, pml4, dst).value.phys, chunk), m, pml4, dst + |chunk|, rest)
    decreases |chunk|
  {
    hide VaddrToPhysPage;
    var h := VaddrToPhysPage(m, pml4, dst).value;
    assert (chunk + rest)[1..] == chunk[1..] + rest;
    if |chunk| > 1 {
      WithinPage(m, pml4, dst, 1);
      HitSize(m, pml4, dst);
      SamePage(dst, 1, h.size, h.size);
      ChunkThenRest(ram[h.phys := chunk[0]], m, pml4, dst + 1, chunk[1..], rest);
    } else {
      assert chunk[1..] == [] && chunk[1..] + rest == rest;
    }
  }

  /** The user can reach n bytes from v on, all in one page. */
  predicate InOnePage(m: Tables, pml4: nat, v: nat, n: nat) {
    match VaddrToPhysPage(m, pml4, v)
    case None => false
    case Some(h) => h.size > 0 && v % h.size + n <= h.size
  }

  lemma HitSize(m: Tables, pml4: nat, v: nat)
    requires VaddrToPhysPage(m, pml4, v).Some?
    ensures var size := VaddrToPhysPage(m, pml4, v).value.size; size == SIZE_4K || size == SIZE_2M || size == SIZE_1G
  {
  }

  lemma {:induction false} LoadChunk(ram: Ram, m: Tables, pml4: nat, src: nat, chunk: nat, rest: nat)
    requires chunk > 0 && InOnePage(m, pml4, src, chunk)
    ensures LoadBytes(ram, m, pml4, src, chunk + rest) ==
      After(Peeks(ram, VaddrToPhysPage(m, pml4, src).value.phys, chunk), LoadBytes(ram, m, pml4, src + chunk, rest))
    decreases chunk
  {
    hide VaddrToPhysPage;
    var h := VaddrToPhysPage(m, pml4, src).value;
    var r := LoadBytes(ram, m, pml4, src + chunk, rest);
    if chunk > 1 {
      WithinPage(m, pml4, src, 1);
      HitSize(m, pml4, src);
      SamePage(src, 1, h.size, h.size);
      LoadChunk(ram, m, pml4, src + 1, chunk - 1, rest);
    } else {
      assert Peeks(ram, h.phys + 1, 0) + r.1 == r.1;
    }
    Regroup(Peek(ram, h.phys), Peeks(ram, h.phys + 1, chunk - 1), r.1);
  }

  /** A load that begins with bytes already there. */
  function After(got: seq<Byte>, r: (bool, seq<Byte>)): (bool, seq<Byte>) {
    (r.0, got + r.1)
  }

  lemma Regroup(x: Byte, a: seq<Byte>, b: seq<Byte>)
    ensures [x] + (a + b) == [x] + a + b
  {
  }

  lemma AfterAfter(a: seq<Byte>, b: seq<Byte>, r: (bool, seq<Byte>))
    ensures After(a, After(b, r)) == After(a + b, r) && After([], r) == r
  {
    assert a + (b + r.1) == a + b + r.1 && [] + r.1 == r.1;
  }

  // ----- the code

  class Machine {
    var ram: Ram

    constructor (ram: Ram)
      ensures this.ram == ram
    {
      this.ram := ram;
    }

    /** String::Memcpy from a kernel buffer to physical memory. */
    method MemcpyTo(phys: nat, src: array<Byte>, from: nat, n: nat)
      requires from + n <= src.Length
      modifies this
      ensures ram == Blit(old(ram), phys, src[from..from + n])
    {
      ghost var all := src[from..from + n];
      for i := 0 to n
        invariant Blit(ram, phys + i, all[i..]) == Blit(old(ram), phys, all)
      {
        assert all[i..][1..] == all[i + 1..];
        ram := ram[phys + i := src[from + i]];
      }
    }

    /** How far the copy goes in one chunk: to the end of the page or of the copy. */
    static method ChunkSize(m: Tables, pml4: nat, v: nat, h: Hit, remaining: nat) returns (chunk: nat)
      requires VaddrToPhysPage(m, pml4, v) == Some(h) && remaining > 0
      ensures 0 < chunk <= remaining && InOnePage(m, pml4, v, chunk)
    {
      HitSize(m, pml4, v);
      hide VaddrToPhysPage;
      var page_start := v - v % h.size;
      var offset_in_page := v - page_start;
      var avail := h.size - offset_in_page;
      chunk := if avail < remaining then avail else remaining;
    }

    /** CopyToUser with all pointers there: the plain loop, also when user pages share a frame
        and when it fails on the way. */
    method CopyToUser(m: Tables, pml4: nat, dstUser: nat, src: array?<Byte>, len: nat) returns (ok: bool)
      requires src != null ==> len <= src.Length
      modifies this
      ensures len == 0 ==> ok && ram == old(ram)
      ensures len > 0 && (pml4 == 0 || dstUser == 0 || src == null) ==> !ok && ram == old(ram)
      ensures len > 0 && pml4 != 0 && dstUser != 0 && src != null ==>
        (ok, ram) == StoreBytes(old(ram), m, pml4, dstUser, src[..len])
      ensures len > 0 && pml4 != 0 && dstUser != 0 && src != null ==>
        (ok <==> forall v :: dstUser <= v < dstUser + len ==> UserMay(m, pml4, v))
    {
      if len == 0 { return true; }
      if pml4 == 0 || dstUser == 0 || src == null { return false; }
      hide *;
      StoreSucceeds(ram, m, pml4, dstUser, src[..len]);
      ok := StoreAll(m, pml4, dstUser, src, len);
    }

    /** The loop of CopyToUser. */
    method StoreAll(m: Tables, pml4: nat, dst: nat, src: array<Byte>, len: nat) returns (ok: bool)
      requires len <= src.Length
      modifies this
      ensures (ok, ram) == StoreBytes(old(ram), m, pml4, dst, src[..len])
    {
      hide *;
      ghost var data := src[..len];
      var done := 0;
      while done < len
        invariant done <= len
        invariant StoreBytes(ram, m, pml4, dst + done, data[done..]) == StoreBytes(old(ram), m, pml4, dst, data)
      {
        assert data[done..] == src[done..len];
        var chunk := StoreChunk(m, pml4, dst + done, src, done, len);
        if chunk == 0 { return false; }
        done := done + chunk;
        assert data[done..] == src[done..len];
      }
      StoreStops(ram, m, pml4, dst + done, data[done..]);
      return true;
    }

    /** One turn of the loop of CopyToUser; 0 when the user cannot reach the next byte. */
    method StoreChunk(m: Tables, pml4: nat, v: nat, src: array<Byte>, done: nat, len: nat) returns (chunk: nat)
      requires done < len <= src.Length
      modifies this
      ensures chunk <= len - done
      ensures chunk == 0 ==> ram == old(ram) && StoreBytes(ram, m, pml4, v, src[done..len]) == (false, ram)
      ensures chunk > 0 ==>
        StoreBytes(old(ram), m, pml4, v, src[done..len]) == StoreBytes(ram, m, pml4, v + chunk, src[done + chunk..len])
    {
      hide *;
      var hit := VaddrToPhysPage(m, pml4, v);
      if hit.None? {
        StoreStops(ram, m, pml4, v, src[done..len]);
        return 0;
      }
      chunk := ChunkSize(m, pml4, v, hit.value, len - done);
      ghost var piece, rest := src[done..done + chunk], src[done + chunk..len];
      assert src[done..len] == piece + rest;
      ChunkThenRest(ram, m, pml4, v, piece, rest);
      MemcpyTo(hit.value.phys, src, done, chunk);
    }

    lemma StoreStops(r: Ram, m: Tables, pml4: nat, dst: nat, data: seq<Byte>)
      requires data == [] || VaddrToPhysPage(m, pml4, dst).None?
      ensures StoreBytes(r, m, pml4, dst, data) == (data == [], r)
    {
    }

    /** String::Memcpy from physical memory to a kernel buffer. */
    method MemcpyFrom(dst: array<Byte>, at: nat, phys: nat, n: nat)
      requires at + n <= dst.Length
      modifies dst
      ensures dst[..] == old(dst[..at]) + Peeks(ram, phys, n) + old(dst[at + n..])
    {
      for i := 0 to n
        invariant forall j ::
          0 <= j < dst.Length ==> dst[j] == if at <= j < at + i then Peek(ram, phys + (j - at)) else old(dst[j])
      {
        dst[at + i] := Peek(ram, phys + i);
      }
      PeeksAt(ram, phys, n);
      assert dst[..] == old(dst[..at]) + Peeks(ram, phys, n) + old(dst[at + n..]);
    }

    lemma {:induction false} PeeksAt(r: Ram, phys: nat, n: nat)
      ensures forall j :: 0 <= j < n ==> Peeks(r, phys, n)[j] == Peek(r, phys + j)
      decreases n
    {
      if n > 0 { PeeksAt(r, phys + 1, n - 1); }
    }

    /** CopyFromUser: the plain loop. */
    method CopyFromUser(m: Tables, pml4: nat, dst: array?<Byte>, srcUser: nat, len: nat) returns (ok: bool)
      requires dst != null ==> len <= dst.Length
      modifies if dst == null then {} else {dst}
      ensures len == 0 ==> ok && (dst != null ==> dst[..] == old(dst[..]))
      ensures len > 0 && (pml4 == 0 || dst == null || srcUser == 0) ==> !ok && (dst != null ==> dst[..] == old(dst[..]))
      ensures len > 0 && pml4 != 0 && dst != null && srcUser != 0 ==>
        var r := LoadBytes(ram, m, pml4, srcUser, len);
        ok == r.0 && |r.1| <= len && dst[..] == r.1 + old(dst[..])[|r.1|..]
      ensures len > 0 && pml4 != 0 && dst != null && srcUser != 0 ==>
        (ok <==> forall v :: srcUser <= v < srcUser + len ==> UserMay(m, pml4, v))
    {
      if len == 0 { return true; }
      if pml4 == 0 || dst == null || srcUser == 0 { return false; }
      hide *;
      LoadSucceeds(ram, m, pml4, srcUser, len);
      ok := LoadAll(m, pml4, dst, srcUser, len);
    }

    /** The loop of CopyFromUser. */
    method LoadAll(m: Tables, pml4: nat, dst: array<Byte>, src: nat, len: nat) returns (ok: bool)
      requires len <= dst.Length && |LoadBytes(ram, m, pml4, src, len).1| <= len
      modifies dst
      ensures var r := LoadBytes(ram, m, pml4, src, len);
        ok == r.0 && dst[..] == r.1 + old(dst[..])[|r.1|..]
    {
      hide *;
      ghost var was, all := dst[..], LoadBytes(ram, m, pml4, src, len);
      ghost var got: seq<Byte> := [];
      AfterAfter([], [], all);
      NotFilled(was);
      var done := 0;
      while done < len
        invariant done == |got| <= len && Filled(dst[..], got, was)
        invariant all == After(got, LoadBytes(ram, m, pml4, src + done, len - done))
      {
        ghost var rest, now := LoadBytes(ram, m, pml4, src + done, len - done), dst[..];
        var chunk;
        ghost var piece;
        chunk, piece := FetchChunk(m, pml4, src + done, dst, done, len);
        if chunk == 0 {
          OpenAfter(got, rest);
          OpenFilled(dst[..], got, was);
          return false;
        }
        AfterAfter(got, piece, LoadBytes(ram, m, pml4, src + done + chunk, len - done - chunk));
        Pieces(now, dst[..], got, piece, was);
        got := got + piece;
        done := done + chunk;
      }
      LoadStops(ram, m, pml4, src + done, 0);
      OpenAfter(got, LoadBytes(ram, m, pml4, src + done, 0));
      OpenFilled(dst[..], got, was);
      return true;
    }

    lemma OpenAfter(got: seq<Byte>, r: (bool, seq<Byte>))
      ensures After(got, r) == (r.0, got + r.1) && got + [] == got
    {
    }

    /** One turn of the loop of CopyFromUser; 0 when the user cannot reach the next byte. */
    method FetchChunk(m: Tables, pml4: nat, v: nat, dst: array<Byte>, done: nat, len: nat)
      returns (chunk: nat, ghost piece: seq<Byte>)
      requires done < len <= dst.Length
      modifies dst
      ensures chunk == |piece| <= len - done
      ensures chunk == 0 ==> dst[..] == old(dst[..]) && LoadBytes(ram, m, pml4, v, len - done) == (false, [])
      ensures chunk > 0 ==>
        && dst[..] == old(dst[..])[..done] + piece + old(dst[..])[done + chunk..]
        && LoadBytes(ram, m, pml4, v, len - done) == After(piece, LoadBytes(ram, m, pml4, v + chunk, len - done - chunk))
    {
      hide *;
      var hit := VaddrToPhysPage(m, pml4, v);
      if hit.None? {
        LoadStops(ram, m, pml4, v, len - done);
        return 0, [];
      }
      chunk := ChunkSize(m, pml4, v, hit.value, len - done);
      LoadChunk(ram, m, pml4, v, chunk, len - done - chunk);
      piece := Peeks(ram, hit.value.phys, chunk);
      MemcpyFrom(dst, done, hit.value.phys, chunk);
    }

    lemma LoadStops(r: Ram, m: Tables, pml4: nat, src: nat, len: nat)
      ensures len == 0 || VaddrToPhysPage(m, pml4, src).None? ==> LoadBytes(r, m, pml4, src, len) == (len == 0, [])
    {
    }

    /** The buffer holds what has been copied and then what it held before. */
    ghost predicate Filled(now: seq<Byte>, got: seq<Byte>, was: seq<Byte>) {
      |got| <= |was| && now == got + was[|got|..]
    }

    lemma NotFilled(was: seq<Byte>)
      ensures Filled(was, [], was)
    {
    }

    lemma OpenFilled(now: seq<Byte>, got: seq<Byte>, was: seq<Byte>)
      requires Filled(now, got, was)
      ensures |got| <= |was| && now == got + was[|got|..]
    {
    }

    lemma Pieces(before: seq<Byte>, now: seq<Byte>, got: seq<Byte>, piece: seq<Byte>, was: seq<Byte>)
      requires Filled(before, got, was) && |got| + |piece| <= |was|
      requires now == before[..|got|] + piece + before[|got| + |piece|..]
      ensures Filled(now, got + piece, was)
    {
      assert before[..|got|] == got && before[|got| + |piece|..] == was[|got| + |piece|..];
    }
  }
}
