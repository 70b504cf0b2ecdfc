/** The physical frame allocator of kernel/mm/physicalalloc.cpp: one bit for each frame of a
    managed range, set while the frame is in use. */
module FrameBitmaps {
  import opened Basics
  import opened FirstFit

  const PHYS_BASE: nat := 0x0010_0000
  const PHYS_FRAMES: nat := 262144
  const BITMAP_BYTES: nat := (PHYS_FRAMES + 7) / 8

  function Bit(b: bv8, k: nat): bool
    requires k < 8
  {
    (b >> k) & 1 == 1
  }

  function SetBit(b: bv8, k: nat): bv8
    requires k < 8
  {
    b | (1 << k)
  }

  function ClearBit(b: bv8, k: nat): bv8
    requires k < 8
  {
    b & !(1 << k)
  }

  /** Setting or clearing a bit of a byte changes that bit and no other. */
  lemma OneBit(b: bv8, k: nat, j: nat)
    requires k < 8 && j < 8
    ensures Bit(SetBit(b, k), j) == (j == k || Bit(b, j))
    ensures Bit(ClearBit(b, k), j) == (j != k && Bit(b, j))
  {
    ShiftOne(k);
    ShiftOne(j);
    LowBit(b, j);
    LowBit(SetBit(b, k), j);
    LowBit(ClearBit(b, k), j);
  }

  function Mask(k: nat): bv8
    requires k < 8
  {
    if k == 0 then 1 else if k == 1 then 2 else if k == 2 then 4 else if k == 3 then 8
    else if k == 4 then 16 else if k == 5 then 32 else if k == 6 then 64 else 128
  }

  lemma ShiftOne(k: nat)
    requires k < 8
    ensures (1 as bv8) << k == Mask(k)
  {
  }

  lemma LowBit(b: bv8, k: nat)
    requires k < 8
    ensures Bit(b, k) == (b & Mask(k) != 0)
  {
  }

  /** What an address in the managed range stands for. */
  function FrameIndex(addr: nat): nat
    requires addr >= PHYS_BASE
  {
    (addr - PHYS_BASE) / PAGE_SIZE
  }

  function FrameAddress(index: nat): (addr: nat)
    ensures addr >= PHYS_BASE && FrameIndex(addr) == index && addr != 0
  {
    PHYS_BASE + index * PAGE_SIZE
  }

  class FrameBitmap {
    const bytes: array<bv8>

    /** Whether a frame has been given back that was free already. */
    ghost var doubleFree: bool

    constructor ()
      ensures Valid() && fresh(bytes) && Free() == {} && !doubleFree
    {
      doubleFree := false;
      bytes := new bv8[BITMAP_BYTES](_ => 0xFF);
      new;
      assert Bit(0xFF, 0) && Bit(0xFF, 1) && Bit(0xFF, 2) && Bit(0xFF, 3);
      assert Bit(0xFF, 4) && Bit(0xFF, 5) && Bit(0xFF, 6) && Bit(0xFF, 7);
    }

    ghost predicate Valid() {
      bytes.Length == BITMAP_BYTES
    }

    predicate Used(i: nat)
      requires Valid() && i < PHYS_FRAMES
      reads bytes
    {
      Bit(bytes[i / 8], i % 8)
    }

    /** The frames that are not in use. */
    ghost function Free(): set<nat>
      requires Valid()
      reads bytes
    {
      set i | 0 <= i < PHYS_FRAMES && !Used(i)
    }

    method Set(i: nat)
      requires Valid() && i < PHYS_FRAMES
      modifies bytes
      ensures Free() == old(Free()) - {i}
    {
      bytes[i / 8] := SetBit(bytes[i / 8], i % 8);
      OthersStay(i);
      forall j | 0 <= j < PHYS_FRAMES ensures Used(j) == (j == i || old(Used(j))) {
        if j / 8 == i / 8 { OneBit(old(bytes[i / 8]), i % 8, j % 8); }
      }
    }

    method Clear(i: nat)
      requires Valid() && i < PHYS_FRAMES
      modifies bytes, `doubleFree
      ensures Free() == old(Free()) + {i}
      ensures doubleFree == (old(doubleFree) || i in old(Free()))
    {
      doubleFree := doubleFree || i in Free();
      bytes[i / 8] := ClearBit(bytes[i / 8], i % 8);
      OthersStay(i);
      forall j | 0 <= j < PHYS_FRAMES ensures Used(j) == (j != i && old(Used(j))) {
        if j / 8 == i / 8 { OneBit(old(bytes[i / 8]), i % 8, j % 8); }
      }
    }

    lemma OthersStay(i: nat)
      ensures forall j: nat :: j / 8 == i / 8 && j % 8 == i % 8 ==> j == i
    {
    }

    lemma InFree(i: nat)
      requires Valid()
      ensures i in Free() <==> i < PHYS_FRAMES && !Used(i)
    {
    }

    /** The loops that mark a run. */
    method SetRun(start: nat, end: nat)
      requires Valid() && start <= end <= PHYS_FRAMES
      modifies bytes
      ensures Free() == old(Free()) - Range(start, end - start)
    {
      for j := start to end
        invariant Free() == old(Free()) - Range(start, j - start)
      {
        Set(j);
      }
    }

    method ClearRun(start: nat, end: nat)
      requires Valid() && start <= end <= PHYS_FRAMES
      modifies bytes, `doubleFree
      ensures Free() == old(Free()) + Range(start, end - start)
      ensures doubleFree == (old(doubleFree) || !(Range(start, end - start) !! old(Free())))
    {
      for j := start to end
        invariant Free() == old(Free()) + Range(start, j - start)
        invariant doubleFree == (old(doubleFree) || !(Range(start, j - start) !! old(Free())))
      {
        Clear(j);
      }
    }

    /** PhysicalAllocPages: 0 when no run of `count` free frames exists, otherwise the address
        of the lowest such run, which is in use from then on. */
    method AllocPages(count: nat) returns (addr: nat)
      requires Valid()
      modifies bytes
      ensures addr == 0 ==> Free() == old(Free()) && (count == 0 || NoRun(Free(), count))
      ensures addr != 0 ==>
        && addr >= PHYS_BASE && addr == FrameAddress(FrameIndex(addr))
        && LowestRun(old(Free()), FrameIndex(addr), count) && count > 0 && FrameIndex(addr) + count <= PHYS_FRAMES
        && Free() == old(Free()) - Range(FrameIndex(addr), count)
    {
      hide Free, Used, Valid;
      if count == 0 || count > PHYS_FRAMES {
        Beyond(count);
        return 0;
      }
      ghost var free := Free();
      var run := 0;
      for i := 0 to PHYS_FRAMES
        invariant Free() == free && run <= i && run < count
        invariant FreeRun(free, i - run, run)
        invariant run == i || i - run - 1 !in free
        invariant forall s :: 0 <= s && s + count <= i ==> !FreeRun(free, s, count)
      {
        InFree(i);
        if !Used(i) {
          run := run + 1;
          if run == count {
            var start := i + 1 - count;
            assert forall s :: 0 <= s < start ==> !FreeRun(free, s, count);
            SetRun(start, i + 1);
            addr := PHYS_BASE + start * PAGE_SIZE;
            assert addr == FrameAddress(start);
            return;
          }
        } else {
          run := 0;
        }
        NotYet(free, i + 1, run, count);
      }
      Nowhere(free, count);
      return 0;
    }

    lemma NotYet(free: set<nat>, i: nat, run: nat, count: nat)
      requires run < count && run <= i && (run == i || i - run - 1 !in free)
      requires forall s :: 0 <= s && s + count <= i - 1 ==> !FreeRun(free, s, count)
      ensures forall s :: 0 <= s && s + count <= i ==> !FreeRun(free, s, count)
    {
    }

    lemma Beyond(count: nat)
      requires Valid()
      ensures count > PHYS_FRAMES ==> NoRun(Free(), count)
    {
      if count > PHYS_FRAMES {
        forall s: nat ensures !FreeRun(Free(), s, count) {
          assert s <= s + PHYS_FRAMES < s + count;
          assert s + PHYS_FRAMES !in Free();
        }
      }
    }

    lemma Nowhere(free: set<nat>, count: nat)
      requires Valid() && Free() == free && 0 < count
      requires forall s :: 0 <= s && s + count <= PHYS_FRAMES ==> !FreeRun(free, s, count)
      ensures NoRun(free, count)
    {
      forall s: nat ensures !FreeRun(free, s, count) {
        if s + count > PHYS_FRAMES {
          assert s <= s + count - 1 < s + count;
          assert s + count - 1 !in Free();
        }
      }
    }

    /** PhysicalFreePages: a run that reaches beyond the managed range is refused as a whole, and
        addresses below it belong to the pool of low frames, which is not modelled. */
    method FreePages(addr: nat, count: nat)
      requires Valid()
      modifies bytes, `doubleFree
      ensures addr < PHYS_BASE || count == 0 || FrameIndex(addr) + count > PHYS_FRAMES ==>
        Free() == old(Free()) && doubleFree == old(doubleFree)
      ensures addr >= PHYS_BASE && count != 0 && FrameIndex(addr) + count <= PHYS_FRAMES ==>
        && Free() == old(Free()) + Range(FrameIndex(addr), count)
        && doubleFree == (old(doubleFree) || !(Range(FrameIndex(addr), count) !! old(Free())))
    {
      if addr == 0 || count == 0 { return; }
      if addr < PHYS_BASE { return; }
      var idx := (addr - PHYS_BASE) / PAGE_SIZE;
      if idx + count > PHYS_FRAMES { return; }
      ClearRun(idx, idx + count);
    }

    /** PhysicalReserve, as far as it concerns the managed range. Of a run that begins below it
        the rest is reserved; address 0 is refused, and so is a run that reaches beyond the range. */
    method Reserve(addr: nat, count: nat)
      requires Valid()
      modifies bytes
      ensures addr == 0 || FirstAbove(addr) + CountAbove(addr, count) > PHYS_FRAMES ==> Free() == old(Free())
      ensures addr != 0 && FirstAbove(addr) + CountAbove(addr, count) <= PHYS_FRAMES ==>
        Free() == old(Free()) - Range(FirstAbove(addr), CountAbove(addr, count))
    {
      if addr == 0 || count == 0 { return; }
      var from, n := addr, count;
      if addr < PHYS_BASE {
        var end := addr + count * PAGE_SIZE;
        if end <= PHYS_BASE { return; }
        from, n := PHYS_BASE, count - (PHYS_BASE - addr) / PAGE_SIZE;
      }
      var idx := (from - PHYS_BASE) / PAGE_SIZE;
      if idx + n > PHYS_FRAMES { return; }
      SetRun(idx, idx + n);
    }
  }

  /** The first managed frame of a run of frames that begins at an address. */
  function FirstAbove(addr: nat): nat {
    if addr < PHYS_BASE then 0 else FrameIndex(addr)
  }

  /** How many frames of the run come to lie in the managed range. */
  function CountAbove(addr: nat, count: nat): nat {
    if addr >= PHYS_BASE then count
    else if addr + count * PAGE_SIZE <= PHYS_BASE then 0
    else count - (PHYS_BASE - addr) / PAGE_SIZE
  }

  /** For the address of a frame these are the frames whose addresses the run covers. */
  lemma ReservedAbove(addr: nat, count: nat, i: nat)
    requires addr % PAGE_SIZE == 0
    ensures i in Range(FirstAbove(addr), CountAbove(addr, count)) <==>
      addr <= FrameAddress(i) < addr + count * PAGE_SIZE
  {
    var k := addr / PAGE_SIZE;
    assert addr == k * PAGE_SIZE && PHYS_BASE == 256 * PAGE_SIZE;
    assert FrameAddress(i) == (256 + i) * PAGE_SIZE && addr + count * PAGE_SIZE == (k + count) * PAGE_SIZE;
    if k < 256 {
      assert PHYS_BASE - addr == (256 - k) * PAGE_SIZE;
    } else {
      assert addr - PHYS_BASE == (k - 256) * PAGE_SIZE;
    }
  }
}
