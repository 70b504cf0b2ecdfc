/** Physical memory as paging uses it: frames reached by number through the direct map, and the
    frame bitmap that hands them out. A frame holds a table or the bytes of a page. */
module PhysicalMemories {
  import opened Basics
  import opened FirstFit
  import opened FrameBitmaps
  import opened PageTables

  /** The first frame of the managed range. */
  const FIRST_FRAME: nat := 256

  predicate Managed(f: nat) {
    FIRST_FRAME <= f < FIRST_FRAME + PHYS_FRAMES
  }

  /** What the bitmap takes back of a large page: all of it or, if it does not lie within the
      managed range, nothing. */
  ghost function LargeFrames(frame: nat): set<nat> {
    var n := frame / 512 * 512;
    if n >= FIRST_FRAME && n - FIRST_FRAME + 512 <= PHYS_FRAMES then Range(n, 512) else {}
  }

  class Memory {
    const frames: FrameBitmap
    var tables: Tables
    var data: map<nat, seq<Byte>>

    constructor ()
      ensures Valid() && FreeFrames() == {} && !frames.doubleFree
    {
      frames := new FrameBitmap();
      tables, data := map[], map[];
    }

    ghost predicate Valid() {
      frames.Valid()
    }

    /** The frames, by number, that the bitmap has free. */
    ghost function FreeFrames(): set<nat>
      requires Valid()
      reads frames.bytes
    {
      set i <- frames.Free() :: FIRST_FRAME + i
    }

    lemma FreeIs(f: nat)
      requires Valid()
      ensures f in FreeFrames() <==> Managed(f) && (f - FIRST_FRAME) in frames.Free()
    {
      if Managed(f) { frames.InFree(f - FIRST_FRAME); }
      if f in FreeFrames() {
        var i :| i in frames.Free() && f == FIRST_FRAME + i;
        frames.InFree(i);
      }
    }

    lemma Shifted(free: set<nat>, i: nat)
      ensures (set k <- free - {i} :: FIRST_FRAME + k) == (set k <- free :: FIRST_FRAME + k) - {FIRST_FRAME + i}
    {
      var a, b := set k <- free - {i} :: FIRST_FRAME + k, set k <- free :: FIRST_FRAME + k;
      forall f | f in b && f != FIRST_FRAME + i ensures f in a {
        var k :| k in free && f == FIRST_FRAME + k;
        assert k in free - {i};
      }
    }

    /** One frame from the bitmap, the lowest that is free, or 0. */
    method AllocFrame() returns (f: nat)
      requires Valid()
      modifies frames.bytes
      ensures f == 0 ==> FreeFrames() == {} == old(FreeFrames())
      ensures f != 0 ==> Managed(f) && f in old(FreeFrames()) && FreeFrames() == old(FreeFrames()) - {f}
      ensures f != 0 ==> forall g <- old(FreeFrames()) :: f <= g
    {
      hide FrameBitmap.Free, FrameBitmap.Valid;
      ghost var free := frames.Free();
      var addr := frames.AllocPages(1);
      if addr == 0 {
        assert forall i <- free :: FreeRun(free, i, 1);
        return 0;
      }
      f := addr / PAGE_SIZE;
      ghost var i := FrameIndex(addr);
      assert f == FIRST_FRAME + i;
      assert Range(i, 1) == {i};
      assert i in free;
      FreeIs(f);
      Shifted(free, i);
      forall k | k in free ensures i <= k { assert FreeRun(free, k, 1); }
    }

    /** One frame back to the bitmap; a frame outside the managed range stays as it is. */
    method FreeFrame(f: nat)
      requires Valid()
      modifies frames.bytes, frames`doubleFree
      ensures FreeFrames() == old(FreeFrames()) + if Managed(f) then {f} else {}
      ensures frames.doubleFree == (old(frames.doubleFree) || f in old(FreeFrames()))
    {
      hide FrameBitmap.Free, FrameBitmap.Valid;
      FreeIs(f);
      frames.FreePages(f * PAGE_SIZE, 1);
      if Managed(f) {
        assert FrameIndex(f * PAGE_SIZE) == f - FIRST_FRAME;
        assert Range(f - FIRST_FRAME, 1) == {f - FIRST_FRAME};
      }
    }

    /** The 512 frames of a large page of 2 MiB back to the bitmap. */
    method FreeLarge(frame: nat)
      requires Valid()
      modifies frames.bytes, frames`doubleFree
      ensures FreeFrames() == old(FreeFrames()) + LargeFrames(frame)
      ensures frames.doubleFree == (old(frames.doubleFree) || !(LargeFrames(frame) !! old(FreeFrames())))
    {
      hide FrameBitmap.Free, FrameBitmap.Valid;
      ghost var free, n := frames.Free(), frame / 512 * 512;
      frames.FreePages(frame / 512 * 512 * PAGE_SIZE, 512);
      LargeIndex(n);
      if n >= FIRST_FRAME { ShiftedRun(free, n - FIRST_FRAME, 512); }
    }

    lemma LargeIndex(n: nat)
      ensures n < FIRST_FRAME <==> n * PAGE_SIZE < PHYS_BASE
      ensures n >= FIRST_FRAME ==> FrameIndex(n * PAGE_SIZE) == n - FIRST_FRAME
    {
    }

    lemma ShiftedRun(free: set<nat>, i: nat, count: nat)
      ensures (set k <- free + Range(i, count) :: FIRST_FRAME + k)
           == (set k <- free :: FIRST_FRAME + k) + Range(FIRST_FRAME + i, count)
      ensures Range(FIRST_FRAME + i, count) !! (set k <- free :: FIRST_FRAME + k) <==> Range(i, count) !! free
    {
      forall k | k in Range(i, count) && k in free ensures FIRST_FRAME + k in Range(FIRST_FRAME + i, count) {}
      var a := set k <- free + Range(i, count) :: FIRST_FRAME + k;
      var b := (set k <- free :: FIRST_FRAME + k) + Range(FIRST_FRAME + i, count);
      forall f | f in b ensures f in a {
        if f in Range(FIRST_FRAME + i, count) {
          var k := f - FIRST_FRAME;
          assert k in free + Range(i, count);
        } else {
          var k :| k in free && f == FIRST_FRAME + k;
          assert k in free + Range(i, count);
        }
      }
    }
  }
}
