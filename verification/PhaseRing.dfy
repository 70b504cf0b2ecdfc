/** Rings whose entries carry a phase or cycle bit: NVMe completions
    (kernel/driver/nvme/nvme.cpp:86-136) and the xHCI event ring
    (kernel/driver/xhci/xhci_isr.cpp:212-247, 540-546), where hardware writes and the driver
    reads, and the xHCI transfer rings with a Link TRB (kernel/driver/xhci/xhci_device.cpp:209-277,
    kernel/driver/xhci/xhci_endpoint.cpp:176-216), where the driver writes and hardware reads.

    Entries are written round the ring; those of one lap carry one phase, those of the next
    lap the other. The reader keeps no count of what was written: the phase alone tells it
    whether the slot at hand has been written since it was last read. */
module PhaseRings {
  import opened Basics

  /** One slot: the phase bit and the rest. */
  datatype Slot<T> = Slot(phase: bool, data: T)

  /** The phase of a lap. Memory is zero before the first lap, so that begins with 1. */
  predicate PhaseOf(lap: nat) {
    lap % 2 == 0
  }

  /** What slot k of a ring of n holds when the writer has completed `lap` laps and stands at
      position pos of the next. */
  ghost predicate Holds<T>(slot: Slot<T>, written: seq<T>, n: nat, lap: nat, pos: nat, k: nat)
    requires |written| == lap * n + pos && k < n
  {
    if k < pos then
      slot == Slot(PhaseOf(lap), written[Index(lap, n, k, |written|)])
    else if lap > 0 then
      slot == Slot(PhaseOf(lap - 1), written[Index(lap - 1, n, k, |written|)])
    else
      slot.phase == false
  }

  /** The entry at position k of a lap. */
  ghost function Index(lap: nat, n: nat, k: nat, limit: nat): (i: nat)
    requires lap * n + k < limit
    ensures i == lap * n + k < limit
  {
    lap * n + k
  }

  /** The writer is ahead of the reader, by a whole ring at most. */
  predicate Ahead(wlap: nat, wpos: nat, rlap: nat, rpos: nat) {
    (wlap == rlap && rpos <= wpos) || (wlap == rlap + 1 && wpos <= rpos)
  }

  lemma AheadByCount(n: nat, wlap: nat, wpos: nat, rlap: nat, rpos: nat)
    requires wpos < n && rpos < n
    ensures Ahead(wlap, wpos, rlap, rpos) <==> rlap * n + rpos <= wlap * n + wpos <= rlap * n + rpos + n
  {
    OneLap(wlap, n);
    OneLap(rlap, n);
    if wlap > rlap + 1 {
      OneLap(rlap + 1, n);
      Laps(rlap + 2, wlap, n);
    } else if wlap < rlap {
      Laps(wlap + 1, rlap, n);
    }
  }

  lemma OneLap(a: nat, n: nat)
    ensures (a + 1) * n == a * n + n
  {
  }

  lemma Laps(a: nat, b: nat, n: nat)
    requires a <= b
    ensures a * n <= b * n
  {
  }

  /** The writer's step round the ring. */
  lemma NextWrite(n: nat, wlap: nat, wpos: nat, rlap: nat, rpos: nat)
    requires wpos < n && rpos <= n && Ahead(wlap, wpos, rlap, rpos) && wlap * n + wpos < rlap * n + rpos + n
    ensures Ahead(wlap, wpos + 1, rlap, rpos) && (wpos + 1 == n && rpos < n ==> Ahead(wlap + 1, 0, rlap, rpos))
  {
    OneLap(rlap, n);
  }

  /** The parity argument: the phase of the slot at hand tells whether the next entry has been
      written, and if so the slot holds that entry. */
  lemma PhaseDecides<T>(slot: Slot<T>, written: seq<T>, n: nat, wlap: nat, wpos: nat, rlap: nat, rpos: nat)
    requires |written| == wlap * n + wpos && rpos < n && Holds(slot, written, n, wlap, wpos, rpos)
    requires Ahead(wlap, wpos, rlap, rpos)
    ensures slot.phase == PhaseOf(rlap) <==> rlap * n + rpos < |written|
    ensures rlap * n + rpos < |written| ==> slot.data == written[rlap * n + rpos]
  {
    assert wlap == rlap + 1 ==> wlap * n == rlap * n + n;
  }

  /** What one more entry does to the slots. */
  lemma HoldsNext<T>(slot: Slot<T>, slot': Slot<T>, written: seq<T>, x: T, n: nat, lap: nat, pos: nat, k: nat)
    requires |written| == lap * n + pos && pos < n && k < n && Holds(slot, written, n, lap, pos, k)
    requires slot' == if k == pos then Slot(PhaseOf(lap), x) else slot
    ensures pos + 1 < n ==> Holds(slot', written + [x], n, lap, pos + 1, k)
    ensures pos + 1 <= n && (lap + 1) * n == lap * n + n
    ensures pos + 1 == n ==> Holds(slot', written + [x], n, lap + 1, 0, k)
    ensures |written + [x]| == lap * n + (pos + 1) && Holds(slot', written + [x], n, lap, pos + 1, k)
  {
    assert (lap + 1) * n == lap * n + n;
  }

  lemma Parity(lap: nat)
    ensures PhaseOf(lap + 1) == !PhaseOf(lap)
  {
  }

  lemma NextDelivered<T>(delivered: seq<T>, written: seq<T>)
    requires delivered <= written && |delivered| < |written|
    ensures delivered + [written[|delivered|]] <= written
  {
  }

  /** A ring that hardware writes and the driver reads. */
  class CompletionRing<T> {
    const slots: array<Slot<T>>
    /** The driver's side. */
    var Head: nat
    var PTag: bool
    /** Hardware's side. */
    var wlap: nat
    var wpos: nat
    /** The laps of the driver, and what has gone through the ring. */
    ghost var rlap: nat
    ghost var written: seq<T>
    ghost var delivered: seq<T>

    constructor (n: nat, blank: T)
      requires n > 0
      ensures Valid() && fresh(slots) && slots.Length == n && written == delivered == []
    {
      slots := new Slot<T>[n](_ => Slot(false, blank));
      Head, PTag := 0, true;
      written, wlap, wpos, rlap, delivered := [], 0, 0, 0, [];
    }

    /** The driver has been given exactly the first entries that were written, in order. */
    ghost predicate Valid()
      reads this`Head, this`PTag, this`written, this`wlap, this`wpos, this`rlap, this`delivered, slots
    {
      && Head < slots.Length && wpos < slots.Length && PTag == PhaseOf(rlap)
      && |written| == wlap * slots.Length + wpos && |delivered| == rlap * slots.Length + Head
      && Ahead(wlap, wpos, rlap, Head)
      && (forall k :: 0 <= k < slots.Length ==> Holds(slots[k], written, slots.Length, wlap, wpos, k))
      && delivered <= written
    }

    /** Hardware posts an entry while at most n - 1 are outstanding. */
    method Post(x: T)
      requires Valid() && |written| - |delivered| < slots.Length
      modifies this`written, this`wlap, this`wpos, slots
      ensures Valid() && written == old(written) + [x]
    {
      hide Holds, PhaseOf, Ahead;
      var n := slots.Length;
      ghost var before := slots[..];
      NextWrite(n, wlap, wpos, rlap, Head);
      OneLap(wlap, n);
      slots[wpos] := Slot(PhaseOf(wlap), x);
      forall k | 0 <= k < n
        ensures wpos + 1 < n ==> Holds(slots[k], written + [x], n, wlap, wpos + 1, k)
        ensures wpos + 1 == n ==> Holds(slots[k], written + [x], n, wlap + 1, 0, k)
      {
        HoldsNext(before[k], slots[k], written, x, n, wlap, wpos, k);
      }
      written := written + [x];
      wpos := wpos + 1;
      if wpos == n {
        wlap, wpos := wlap + 1, 0;
      }
    }

    /** One turn of the driver's loop: the next entry if there is one. */
    method Poll() returns (r: Option<T>)
      requires Valid()
      modifies this`Head, this`PTag, this`rlap, this`delivered
      ensures Valid()
      ensures r.None? ==> delivered == old(delivered) == written
      ensures r.Some? ==>
        delivered == old(delivered) + [r.value] && |old(delivered)| < |written| && r.value == written[|old(delivered)|]
    {
      hide Holds, PhaseOf, Ahead;
      Parity(rlap);
      var slot := slots[Head];
      PhaseDecides(slot, written, slots.Length, wlap, wpos, rlap, Head);
      AheadByCount(slots.Length, wlap, wpos, rlap, Head);
      if slot.phase != PTag {
        return None;
      }
      r := Some(slot.data);
      NextDelivered(delivered, written);
      delivered := delivered + [slot.data];
      NextHead(slots.Length, wlap, wpos, rlap, Head);
      Head := (Head + 1) % slots.Length;
      if Head == 0 {
        PTag := !PTag;
        rlap := rlap + 1;
      }
    }

    /** ProcessPendingEvents: everything that has been written and not yet read, once and in
        order. */
    method Drain() returns (events: seq<T>)
      requires Valid()
      modifies this`Head, this`PTag, this`rlap, this`delivered
      ensures Valid() && delivered == written && written == old(delivered) + events
    {
      events := [];
      var more := true;
      while more
        invariant Valid() && delivered == old(delivered) + events && (!more ==> delivered == written)
        decreases |written| - |delivered|, more
      {
        var r := Poll();
        match r
        case None => more := false;
        case Some(x) => events := events + [x];
      }
    }
  }

  // ----- NVMe

  const CQ_ENTRIES: nat := 32

  datatype Completion = Completion(CommandID: nat, StatusCode: nat)

  /** The recorded outcome of every command after some completions: the last one counts. */
  function Recorded(status: map<nat, bool>, done: seq<Completion>): map<nat, bool> {
    if done == [] then status
    else Recorded(status, done[..|done| - 1])[done[|done| - 1].CommandID := done[|done| - 1].StatusCode == 0]
  }

  /** A command reads back the outcome of its own last completion, whatever else completed. */
  lemma {:induction false} OwnOutcome(status: map<nat, bool>, done: seq<Completion>, i: nat)
    requires i < |done| && forall j :: i < j < |done| ==> done[j].CommandID != done[i].CommandID
    ensures var r := Recorded(status, done); done[i].CommandID in r && r[done[i].CommandID] == (done[i].StatusCode == 0)
  {
    var n := |done| - 1;
    if i < n {
      assert done[n].CommandID != done[i].CommandID;
      OwnOutcome(status, done[..n], i);
    }
  }

  /** And one that has none among them keeps the outcome it had. */
  lemma {:induction false} NoOutcome(status: map<nat, bool>, done: seq<Completion>, id: nat)
    requires forall j :: 0 <= j < |done| ==> done[j].CommandID != id
    ensures var r := Recorded(status, done); (id in r <==> id in status) && (id in status ==> r[id] == status[id])
    decreases |done|
  {
    if done != [] {
      var n := |done| - 1;
      assert done[n].CommandID != id;
      NoOutcome(status, done[..n], id);
    }
  }

  class NVMeController {
    var CommandStatus: map<nat, bool>

    constructor ()
      ensures CommandStatus == map[]
    {
      CommandStatus := map[];
    }

    method ProcessCompletionQueue(cq: CompletionRing<Completion>) returns (ProcessedCount: nat)
      requires cq.Valid() && cq.slots.Length == CQ_ENTRIES
      modifies this, cq`Head, cq`PTag, cq`rlap, cq`delivered
      ensures cq.Valid() && cq.delivered == cq.written && |cq.written| == |old(cq.delivered)| + ProcessedCount
      ensures CommandStatus == Recorded(old(CommandStatus), cq.written[|old(cq.delivered)|..])
    {
      ProcessedCount := 0;
      ghost var done: seq<Completion> := [];
      var more := true;
      while more
        invariant cq.Valid() && cq.delivered == old(cq.delivered) + done && (!more ==> cq.delivered == cq.written)
        invariant ProcessedCount == |done| && CommandStatus == Recorded(old(CommandStatus), done)
        decreases |cq.written| - |cq.delivered|, more
      {
        var r := cq.Poll();
        match r
        case None => more := false;
        case Some(cpl) =>
          ProcessedCount := ProcessedCount + 1;
          CommandStatus := CommandStatus[cpl.CommandID := cpl.StatusCode == 0];
          assert (done + [cpl])[..|done|] == done;
          done := done + [cpl];
      }
      assert cq.written[|old(cq.delivered)|..] == done;
    }
  }

  /** The reader's step round the ring. */
  lemma NextHead(n: nat, wlap: nat, wpos: nat, rlap: nat, head: nat)
    requires head < n && wpos < n && Ahead(wlap, wpos, rlap, head) && rlap * n + head < wlap * n + wpos
    ensures (head + 1) % n == if head + 1 == n then 0 else head + 1
    ensures head + 1 < n ==> Ahead(wlap, wpos, rlap, head + 1)
    ensures head + 1 == n ==> Ahead(wlap, wpos, rlap + 1, 0) && (rlap + 1) * n == rlap * n + head + 1
  {
    if head + 1 == n { assert (head + 1) % n == 0; } else { assert (head + 1) % n == head + 1; }
    assert (rlap + 1) * n == rlap * n + n;
  }

  // ----- transfer rings

  /** Closing a lap by the Link TRB changes nothing about the entries. */
  lemma HoldsWrapped<T>(slot: Slot<T>, written: seq<T>, n: nat, lap: nat, k: nat)
    requires |written| == lap * n + n && k < n && Holds(slot, written, n, lap, n, k)
    ensures (lap + 1) * n == lap * n + n && Holds(slot, written, n, lap + 1, 0, k)
  {
    assert (lap + 1) * n == lap * n + n;
  }

  /** How far apart the two ends of a transfer ring are, when either may still have to follow
      the Link TRB. */
  lemma AheadOnRing(m: nat, wlap: nat, wpos: nat, rlap: nat, rpos: nat)
    requires wpos <= m && rpos <= m && m > 0 && Ahead(wlap, wpos, rlap, rpos)
    ensures rlap * m + rpos <= wlap * m + wpos <= rlap * m + rpos + m
    ensures wlap == rlap + 1 && rpos == wpos ==> wlap * m + wpos == rlap * m + rpos + m
    ensures wlap == rlap + 1 ==> wlap * m == rlap * m + m
  {
    assert wlap == rlap + 1 ==> wlap * m == rlap * m + m;
  }

  /** Closing a lap while the ring is not full: hardware is in the lap that ends. */
  lemma AheadWrapped(m: nat, wlap: nat, rlap: nat, rpos: nat)
    requires rpos <= m && Ahead(wlap, m, rlap, rpos) && wlap * m + m < rlap * m + rpos + m
    ensures Ahead(wlap + 1, 0, rlap, rpos)
  {
    OneLap(rlap, m);
  }

  /** A ring that the driver writes and hardware reads. The last slot is the Link TRB, which the
      driver writes only when the next entry no longer fits: it ends a lap with the lap's own
      cycle bit and tells hardware to go back to the start and toggle its cycle state. */
  class TransferRing<T> {
    const table: array<Slot<T>>
    /** The driver's side. */
    var EnqueueIdx: nat
    var CycleState: bool
    /** Hardware's side. */
    var dequeue: nat
    var ccs: bool
    ghost var wlap: nat
    ghost var rlap: nat
    ghost var written: seq<T>
    ghost var delivered: seq<T>

    constructor (entryCount: nat, blank: T)
      requires entryCount >= 2
      ensures Valid() && fresh(table) && table.Length == entryCount && written == delivered == []
    {
      table := new Slot<T>[entryCount](_ => Slot(false, blank));
      EnqueueIdx, CycleState, dequeue, ccs := 0, true, 0, true;
      wlap, rlap, written, delivered := 0, 0, [], [];
    }

    /** The number of entries that the ring holds. */
    function Capacity(): nat
      requires table.Length >= 2
    {
      table.Length - 1
    }

    ghost predicate Valid()
      reads this`EnqueueIdx, this`CycleState, this`dequeue, this`ccs, this`wlap, this`rlap, this`written, this`delivered
      reads table
    {
      && table.Length >= 2
      && var m := Capacity();
      && EnqueueIdx <= m && dequeue <= m && CycleState == PhaseOf(wlap) && ccs == PhaseOf(rlap)
      && |written| == wlap * m + EnqueueIdx && |delivered| == rlap * m + dequeue
      && Ahead(wlap, EnqueueIdx, rlap, dequeue)
      && (forall k :: 0 <= k < m ==> Holds(table[k], written, m, wlap, EnqueueIdx, k))
      && table[m].phase == (wlap > 0 && PhaseOf(wlap - 1))
      && delivered <= written
    }

    ghost predicate Room()
      requires table.Length >= 2
      reads this`written, this`delivered
    {
      |written| - |delivered| < Capacity()
    }

    /** Hardware finds an entry, or a Link TRB to follow, where it is. */
    predicate Sees()
      requires dequeue < table.Length
      reads this`dequeue, this`ccs, table
    {
      table[dequeue].phase == ccs
    }

    /** The Link TRB at the end of a full lap. */
    method Wrap()
      requires Valid() && EnqueueIdx == Capacity()
      modifies this`EnqueueIdx, this`CycleState, this`wlap, table
      ensures EnqueueIdx == 0 && CycleState == !old(CycleState) && wlap == old(wlap) + 1
      ensures table[..] == old(table[..])[Capacity() := Slot(old(CycleState), old(table[..])[Capacity()].data)]
      ensures Room() ==> Valid()
    {
      hide Holds, PhaseOf, Ahead;
      var m := Capacity();
      if Room() { AheadWrapped(m, wlap, rlap, dequeue); }
      OneLap(wlap, m);
      Parity(wlap);
      forall k | 0 <= k < m ensures Holds(table[k], written, m, wlap + 1, 0, k) {
        HoldsWrapped(table[k], written, m, wlap, k);
      }
      table[m] := Slot(CycleState, table[m].data);
      EnqueueIdx := 0;
      CycleState := !CycleState;
      wlap := wlap + 1;
    }

    /** The two ends of a full ring stand in the same place, or at its two ends. */
    lemma FullRing()
      requires Valid() && !Room()
      ensures ccs == PhaseOf(rlap) && CycleState == PhaseOf(wlap)
      ensures if wlap == rlap then EnqueueIdx == Capacity() && dequeue == 0
              else wlap == rlap + 1 && EnqueueIdx == dequeue
    {
      AheadOnRing(Capacity(), wlap, EnqueueIdx, rlap, dequeue);
    }

    /** PushEP0TRB, QueueBulkTransfer and QueueInterruptTransfer. They do not look whether there
        is room, and without room hardware finds nothing any more where it is, although it has
        not taken any of the entries of the ring. */
    method Push(x: T)
      requires Valid()
      modifies this`EnqueueIdx, this`CycleState, this`wlap, this`written, table
      ensures written == old(written) + [x]
      ensures if old(Room()) then Valid() else !Sees()
    {
      hide Valid, Room;
      Bounds();
      if !Room() { FullRing(); }
      Parity(wlap);
      Parity(rlap);
      ghost var room := Room();
      if EnqueueIdx == table.Length - 1 {
        Wrap();
      }
      Write(x, room);
    }

    lemma Bounds()
      requires Valid()
      ensures table.Length >= 2 && EnqueueIdx <= Capacity() && dequeue <= Capacity()
    {
    }

    /** The entry is written where the driver stands, short of the Link TRB. */
    method Write(x: T, ghost room: bool)
      requires table.Length >= 2 && EnqueueIdx < Capacity() && (room ==> Valid() && Room())
      modifies this`EnqueueIdx, this`written, table
      ensures written == old(written) + [x] && EnqueueIdx == old(EnqueueIdx) + 1
      ensures table[..] == old(table[..])[old(EnqueueIdx) := Slot(CycleState, x)]
      ensures room ==> Valid()
    {
      hide Holds, PhaseOf, Ahead;
      ghost var m, before := Capacity(), table[..];
      if room { NextWrite(m, wlap, EnqueueIdx, rlap, dequeue); }
      table[EnqueueIdx] := Slot(CycleState, x);
      forall k | room && 0 <= k < m ensures Holds(table[k], written + [x], m, wlap, EnqueueIdx + 1, k) {
        HoldsNext(before[k], table[k], written, x, m, wlap, EnqueueIdx, k);
      }
      written := written + [x];
      EnqueueIdx := EnqueueIdx + 1;
    }

    /** Hardware follows the Link TRB if that carries its cycle state. */
    method FollowLink() returns (there: bool)
      requires Valid() && dequeue == Capacity()
      modifies this`dequeue, this`ccs, this`rlap
      ensures Valid() && (there ==> dequeue == 0) && (!there ==> delivered == written)
    {
      hide Holds;
      LinkTells();
      there := Sees();
      if there {
        OneLap(rlap, Capacity());
        dequeue, ccs, rlap := 0, !ccs, rlap + 1;
      }
    }

    /** The Link TRB carries hardware's cycle state just when the driver has closed the lap. */
    lemma LinkTells()
      requires Valid() && dequeue == Capacity()
      ensures Sees() <==> wlap == rlap + 1
      ensures Sees() ==> Ahead(wlap, EnqueueIdx, rlap + 1, 0)
      ensures !Sees() ==> delivered == written
    {
      hide Holds;
      AheadOnRing(Capacity(), wlap, EnqueueIdx, rlap, dequeue);
    }

    /** Hardware takes the entry at hand if that carries its cycle state, following the Link TRB
        first if it has come to the end (section 4.9.2 of the xHCI specification). */
    method Fetch() returns (r: Option<T>)
      requires Valid()
      modifies this`dequeue, this`ccs, this`rlap, this`delivered
      ensures Valid()
      ensures r.None? ==> delivered == old(delivered) == written
      ensures r.Some? ==>
        delivered == old(delivered) + [r.value] && |old(delivered)| < |written| && r.value == written[|old(delivered)|]
    {
      if dequeue == Capacity() {
        var there := FollowLink();
        if !there { return None; }
      }
      r := Take();
    }

    method Take() returns (r: Option<T>)
      requires Valid() && dequeue < Capacity()
      modifies this`dequeue, this`delivered
      ensures Valid()
      ensures r.None? ==> delivered == old(delivered) == written
      ensures r.Some? ==>
        delivered == old(delivered) + [r.value] && |old(delivered)| < |written| && r.value == written[|old(delivered)|]
    {
      hide Holds, PhaseOf;
      var m, slot := Capacity(), table[dequeue];
      AheadOnRing(m, wlap, EnqueueIdx, rlap, dequeue);
      PhaseDecides(slot, written, m, wlap, EnqueueIdx, rlap, dequeue);
      if slot.phase != ccs { return None; }
      r := Some(slot.data);
      NextDelivered(delivered, written);
      delivered := delivered + [slot.data];
      dequeue := dequeue + 1;
    }
  }
}
