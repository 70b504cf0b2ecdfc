/** The virtual page allocator of kernel/mm/virtualalloc.cpp: a linked free list over a fixed
    pool of list nodes. */
module VirtualPools {
  import opened Basics
  import opened FirstFit
  import opened FreeRegions

  const MAX_VMA_NODES: nat := 4096

  class VMARegion {
    var StartPage: nat
    var Count: nat
    var Next: VMARegion?

    constructor ()
    {
      StartPage, Count, Next := 0, 0, null;
    }
  }

  ghost function At(s: seq<VMARegion>, i: int): VMARegion? {
    if 0 <= i < |s| then s[i] else null
  }

  ghost predicate Linked(head: VMARegion?, s: seq<VMARegion>)
    reads s`Next
  {
    head == At(s, 0) && forall i :: 0 <= i < |s| ==> s[i].Next == At(s, i + 1)
  }

  ghost function RunsOf(s: seq<VMARegion>): (r: seq<Run>)
    reads s`StartPage, s`Count
    ensures |r| == |s| && forall i :: 0 <= i < |s| ==> r[i] == Run(s[i].StartPage, s[i].Count)
  {
    if s == [] then [] else [Run(s[0].StartPage, s[0].Count)] + RunsOf(s[1..])
  }

  /** The links that make a list of s with position i left out. */
  lemma LinkedPast(head: VMARegion?, s: seq<VMARegion>, i: nat)
    requires i < |s| && head == (if i == 0 then At(s, 1) else At(s, 0))
    requires forall j :: 0 <= j < |s| && j != i ==> s[j].Next == At(s, if j == i - 1 then i + 1 else j + 1)
    ensures Linked(head, s[..i] + s[i + 1..])
  {
    var r := s[..i] + s[i + 1..];
    assert forall j :: 0 <= j < |r| ==> r[j] == s[if j < i then j else j + 1];
  }

  lemma RestLinked(s: seq<VMARegion>)
    requires Linked(At(s, 0), s) && NoDuplicates(s) && s != []
    ensures Linked(s[0].Next, s[1..]) && NoDuplicates(s[1..]) && s[0] !in s[1..]
  {
  }

  /** The links that make a list of s with x put in at position k. */
  lemma LinkedThrough(head: VMARegion?, s: seq<VMARegion>, k: nat, x: VMARegion)
    requires k <= |s| && head == (if k == 0 then x else At(s, 0)) && x.Next == At(s, k)
    requires forall j :: 0 <= j < |s| ==> s[j].Next == if j == k - 1 then x else At(s, j + 1)
    ensures Linked(head, s[..k] + [x] + s[k..])
  {
    var r := s[..k] + [x] + s[k..];
    forall j | 0 <= j < |r| ensures r[j].Next == At(r, j + 1) {
      if j < k { assert r[j] == s[j]; } else if j > k { assert r[j] == s[j - 1]; }
      assert j + 1 < k ==> r[j + 1] == s[j + 1];
      assert k < j + 1 < |r| ==> r[j + 1] == s[j];
    }
  }

  lemma LinkedFirst(x: VMARegion, s: seq<VMARegion>)
    requires x.Next == At(s, 0) && forall j :: 0 <= j < |s| ==> s[j].Next == At(s, j + 1)
    ensures Linked(x, [x] + s)
  {
  }

  lemma Links(head: VMARegion?, s: seq<VMARegion>)
    requires Linked(head, s)
    ensures head == At(s, 0) && forall i :: 0 <= i < |s| ==> s[i] in s && s[i].Next == At(s, i + 1)
  {
  }

  lemma UniquePast(s: seq<VMARegion>, i: nat)
    requires NoDuplicates(s) && i < |s|
    ensures NoDuplicates(s[..i] + s[i + 1..]) && s[i] !in s[..i] + s[i + 1..]
    ensures forall x :: x in s <==> x == s[i] || x in s[..i] + s[i + 1..]
  {
    var r := s[..i] + s[i + 1..];
    assert forall j :: 0 <= j < |r| ==> r[j] == s[if j < i then j else j + 1];
    assert forall j :: 0 <= j < |s| && j != i ==> s[j] == r[if j < i then j else j - 1];
  }

  lemma UniqueThrough(s: seq<VMARegion>, k: nat, x: VMARegion)
    requires NoDuplicates(s) && k <= |s| && x !in s
    ensures NoDuplicates(s[..k] + [x] + s[k..]) && forall y :: y in s[..k] + [x] + s[k..] <==> y == x || y in s
  {
    assert s == s[..k] + s[k..];
  }

  function Swallowed(r: seq<Run>, i: nat): seq<Run>
    requires 0 < i < |r|
  {
    r[..i - 1] + [Run(r[i - 1].start, r[i - 1].count + r[i].count)] + r[i + 1..]
  }

  /** Growing the region before, and then swallowing the one after if it is touched. */
  lemma GiveByGrowing(r: seq<Run>, k: nat, x: Run)
    requires 0 < k <= |r| && r[k - 1].End() == x.start
    ensures var g := r[k - 1 := Run(r[k - 1].start, r[k - 1].count + x.count)];
      Give(r, k, x) == if k < |r| && g[k - 1].End() == r[k].start then Swallowed(g, k) else g
  {
  }

  /** Adding a region, and then swallowing the one after if it is touched. */
  lemma GiveByAdding(r: seq<Run>, k: nat, x: Run)
    requires k <= |r| && (k > 0 ==> r[k - 1].End() != x.start)
    ensures var g := r[..k] + [x] + r[k..];
      Give(r, k, x) == if k < |r| && x.End() == r[k].start then Swallowed(g, k + 1) else g
  {
  }

  lemma PoolSize()
    ensures MAX_VMA_NODES == 4096 && PAGE_SIZE == 4096
  {
  }

  lemma LeftOut<T>(s: seq<T>, i: nat)
    requires i < |s|
    ensures var r := s[..i] + s[i + 1..];
      |r| == |s| - 1 && forall j :: 0 <= j < |r| ==> r[j] == s[if j < i then j else j + 1]
  {
  }

  lemma Inserted<T>(s: seq<T>, k: nat, x: T)
    requires k <= |s|
    ensures var r := s[..k] + [x] + s[k..];
      |r| == |s| + 1 && forall j :: 0 <= j < |r| ==> r[j] == if j < k then s[j] else if j == k then x else s[j - 1]
  {
  }

  lemma EndOf(x: Run)
    ensures x.End() == x.start + x.count
  {
  }

  /** A freed run can be lost only if it touches no region before it. */
  ghost predicate Touched(r: seq<Run>, page: nat) {
    exists i :: 0 <= i < |r| && r[i].End() == page
  }

  class VirtualPool {
    var free_nodes_list: VMARegion?
    var free_vma_list: VMARegion?
    ghost var regions: seq<VMARegion>
    ghost var spares: seq<VMARegion>
    ghost var nodes: set<VMARegion>

    /** The two lists share the nodes of the pool. */
    ghost predicate Shape()
      reads this`free_nodes_list, this`free_vma_list, this`regions, this`spares, this`nodes, regions`Next, spares`Next
    {
      && Linked(free_vma_list, regions) && Linked(free_nodes_list, spares)
      && NoDuplicates(regions) && NoDuplicates(spares) && (forall x <- regions :: x !in spares)
      && |regions| + |spares| == MAX_VMA_NODES
      && (forall x <- regions :: x in nodes) && (forall x <- spares :: x in nodes)
    }

    ghost predicate Valid()
      reads this`free_nodes_list, this`free_vma_list, this`regions, this`spares, this`nodes, regions`Next, spares`Next
      reads regions`StartPage, regions`Count
    {
      Shape() && Coalesced(Runs()) && 0 !in Free()
    }

    ghost function Runs(): seq<Run>
      reads this`regions, regions`StartPage, regions`Count
    {
      RunsOf(regions)
    }

    /** The pages that are free. */
    ghost function Free(): set<nat>
      reads this`regions, regions`StartPage, regions`Count
    {
      Pages(Runs())
    }

    lemma OpenShape()
      requires Shape()
      ensures Linked(free_vma_list, regions) && Linked(free_nodes_list, spares)
      ensures NoDuplicates(regions) && NoDuplicates(spares) && forall x <- regions :: x !in spares
      ensures |regions| + |spares| == MAX_VMA_NODES
      ensures (forall x <- regions :: x in nodes) && (forall x <- spares :: x in nodes)
    {
    }

    lemma CloseShape()
      requires Linked(free_vma_list, regions) && Linked(free_nodes_list, spares)
      requires NoDuplicates(regions) && NoDuplicates(spares) && forall x <- regions :: x !in spares
      requires |regions| + |spares| == MAX_VMA_NODES
      requires (forall x <- regions :: x in nodes) && (forall x <- spares :: x in nodes)
      ensures Shape()
    {
    }

    /** AllocNode: the first spare node, if there is one. */
    method AllocNode() returns (node: VMARegion?)
      requires Linked(free_nodes_list, spares) && NoDuplicates(spares)
      modifies this`free_nodes_list, this`spares, (if free_nodes_list == null then {} else {free_nodes_list})`Next
      ensures old(spares) == [] ==> node == null && spares == []
      ensures old(spares) != [] ==>
        node == old(spares)[0] && spares == old(spares)[1..] && node !in spares && node.Next == null
      ensures Linked(free_nodes_list, spares) && NoDuplicates(spares)
    {
      hide *;
      Links(free_nodes_list, spares);
      AtIs(spares, 0);
      if free_nodes_list == null { return null; }
      ghost var r := spares;
      RestLinked(r);
      node := free_nodes_list;
      free_nodes_list := free_nodes_list.Next;
      node.Next := null;
      spares := r[1..];
    }

    /** FreeNode: the node becomes the first spare one. */
    method FreeNode(node: VMARegion)
      requires Linked(free_nodes_list, spares) && NoDuplicates(spares) && node !in spares
      modifies this`free_nodes_list, this`spares, node`Next
      ensures Linked(free_nodes_list, spares) && NoDuplicates(spares) && spares == [node] + old(spares)
    {
      hide Linked;
      Links(free_nodes_list, spares);
      UniqueThrough(spares, 0, node);
      node.Next := free_nodes_list;
      free_nodes_list := node;
      LinkedFirst(node, spares);
      assert spares[..0] + [node] + spares[0..] == [node] + spares;
      spares := [node] + spares;
    }

    /** The list linked past position i. */
    method LinkPast(prev: VMARegion?, curr: VMARegion, ghost i: nat)
      requires Linked(free_vma_list, regions) && NoDuplicates(regions) && i < |regions| && curr == regions[i]
      requires prev == At(regions, i - 1)
      modifies this`free_vma_list, this`regions, (if prev == null then {} else {prev})`Next
      ensures Linked(free_vma_list, regions) && NoDuplicates(regions)
      ensures regions == old(regions)[..i] + old(regions)[i + 1..]
      ensures forall x :: x in old(regions) <==> x == curr || x in regions
      ensures curr !in regions
    {
      hide Linked;
      Links(free_vma_list, regions);
      UniquePast(regions, i);
      ghost var s := regions;
      if prev != null {
        prev.Next := curr.Next;
      } else {
        free_vma_list := curr.Next;
      }
      LinkedPast(free_vma_list, s, i);
      regions := s[..i] + s[i + 1..];
    }

    /** The list linked through a new node at position k. */
    method LinkThrough(prev: VMARegion?, curr: VMARegion?, node: VMARegion, ghost k: nat)
      requires Linked(free_vma_list, regions) && NoDuplicates(regions) && k <= |regions| && curr == At(regions, k)
      requires prev == At(regions, k - 1)
      requires node !in regions
      modifies this`free_vma_list, this`regions, node`Next, (if prev == null then {} else {prev})`Next
      ensures Linked(free_vma_list, regions) && NoDuplicates(regions)
      ensures regions == old(regions)[..k] + [node] + old(regions)[k..]
      ensures forall x :: x in regions <==> x == node || x in old(regions)
    {
      hide Linked;
      Links(free_vma_list, regions);
      UniqueThrough(regions, k, node);
      ghost var s := regions;
      node.Next := curr;
      if prev != null {
        prev.Next := node;
      } else {
        free_vma_list := node;
      }
      LinkedThrough(free_vma_list, s, k, node);
      regions := s[..k] + [node] + s[k..];
    }

    /** A region leaves the free list and its node goes back to the pool. */
    method Drop(prev: VMARegion?, curr: VMARegion, ghost i: nat)
      requires Shape() && i < |regions| && curr == regions[i] && prev == At(regions, i - 1)
      modifies this`free_nodes_list, this`free_vma_list, this`regions, this`spares, regions`Next
      ensures Shape() && regions == old(regions)[..i] + old(regions)[i + 1..] && spares == [curr] + old(spares)
    {
      hide *;
      OpenShape();
      Links(free_vma_list, regions);
      AtIs(regions, i - 1);
      ghost var head, s := free_nodes_list, spares;
      LinkPast(prev, curr, i);
      assert Linked(head, s) == old(Linked(head, s));
      FreeNode(curr);
      CloseShape();
    }

    lemma AtIs(s: seq<VMARegion>, i: int)
      ensures At(s, i) == if 0 <= i < |s| then s[i] else null
    {
    }

    /** A new region in the free list. */
    method Add(prev: VMARegion?, curr: VMARegion?, node: VMARegion, start: nat, count: nat, ghost k: nat)
      requires Linked(free_vma_list, regions) && Linked(free_nodes_list, spares)
      requires NoDuplicates(regions) && NoDuplicates(spares) && (forall x <- regions :: x !in spares)
      requires |regions| + |spares| + 1 == MAX_VMA_NODES && node !in regions && node !in spares
      requires node in nodes && (forall x <- regions :: x in nodes) && (forall x <- spares :: x in nodes)
      requires k <= |regions| && curr == At(regions, k) && prev == At(regions, k - 1)
      modifies this`free_vma_list, this`regions, regions`Next, node`Next, node`StartPage, node`Count
      ensures Shape() && regions == old(regions)[..k] + [node] + old(regions)[k..]
      ensures node.StartPage == start && node.Count == count
    {
      hide *;
      AtIs(regions, k - 1);
      Links(free_vma_list, regions);
      Links(free_nodes_list, spares);
      node.StartPage := start;
      node.Count := count;
      ghost var head, s := free_nodes_list, spares;
      LinkThrough(prev, curr, node, k);
      assert Linked(head, s) == old(Linked(head, s));
      CloseShape();
    }

    lemma OpenValid()
      requires Valid()
      ensures Shape() && Coalesced(Runs()) && 0 !in Free() && Free() == Pages(Runs()) && Runs() == RunsOf(regions)
      ensures free_vma_list == At(regions, 0)
      ensures forall i :: 0 <= i < |regions| ==> regions[i].Next == At(regions, i + 1)
      ensures |regions| + |spares| == MAX_VMA_NODES && forall x <- regions :: x !in spares
    {
    }

    lemma CloseValid(r: seq<Run>)
      requires Shape() && Coalesced(r) && |r| == |regions| && 0 !in Pages(r)
      requires forall i :: 0 <= i < |r| ==> r[i] == Run(regions[i].StartPage, regions[i].Count)
      ensures Valid() && Runs() == r && Free() == Pages(r)
    {
      assert Runs() == r;
    }

    /** Taking pages from the front of a region, which goes when it is used up. */
    method TakeFrom(prev: VMARegion?, curr: VMARegion, count: nat, ghost i: nat)
      requires Valid() && i < |regions| && curr == regions[i] && prev == At(regions, i - 1) && curr.Count >= count > 0
      modifies this`free_nodes_list, this`free_vma_list, this`regions, this`spares
      modifies regions`Next, regions`StartPage, regions`Count
      ensures Valid()
      ensures i < |old(Runs())| && old(Runs())[i].count >= count && Runs() == Take(old(Runs()), i, count)
      ensures Free() == old(Free()) - Range(old(curr.StartPage), count)
    {
      hide *;
      OpenValid();
      ghost var r, s := Runs(), regions;
      NodesDiffer(s, i);
      TakeFits(r, i, count);
      TakeIs(r, i, count);
      if curr.Count == count {
        Drop(prev, curr, i);
        LeftOut(s, i);
      } else {
        curr.StartPage := curr.StartPage + count;
        curr.Count := curr.Count - count;
      }
      CloseValid(Take(r, i, count));
    }

    lemma NodesDiffer(s: seq<VMARegion>, i: nat)
      requires Shape() && s == regions && i < |s|
      ensures forall j :: 0 <= j < |s| && j != i ==> s[j] != s[i]
    {
    }

    /** VirtualAllocPages: the lowest start whose whole run is free, or null when there is none.
        The result is an address. */
    method VirtualAllocPages(count: nat) returns (addr: nat)
      requires Valid()
      modifies this`free_nodes_list, this`free_vma_list, this`regions, this`spares
      modifies regions`Next, regions`StartPage, regions`Count
      ensures Valid()
      ensures addr == 0 ==> Free() == old(Free()) && (count == 0 || NoRun(Free(), count))
      ensures addr != 0 ==>
        && addr % PAGE_SIZE == 0 && LowestRun(old(Free()), addr / PAGE_SIZE, count) && count > 0
        && Free() == old(Free()) - Range(addr / PAGE_SIZE, count)
    {
      hide *;
      OpenValid();
      if count == 0 { return 0; }
      ghost var r := Runs();
      var curr, prev := free_vma_list, null;
      ghost var i := 0;
      AtIs(regions, 0);
      AtIs(regions, -1);
      while curr != null
        invariant Valid() == old(Valid()) && regions == old(regions) && Runs() == r && spares == old(spares)
        invariant 0 <= i <= |regions| && curr == At(regions, i) && prev == At(regions, i - 1)
        invariant forall j :: 0 <= j < i ==> r[j].count < count
        decreases |regions| - i
      {
        OpenValid();
        AtIs(regions, i);
        AtIs(regions, i + 1);
        if curr.Count >= count {
          FirstRegionLowest(r, i, count);
          TakeFits(r, i, count);
          NotZero(r, i, count);
          addr := curr.StartPage * PAGE_SIZE;
          PageOf(curr.StartPage);
          TakeFrom(prev, curr, count, i);
          return;
        }
        prev := curr;
        curr := curr.Next;
        i := i + 1;
      }
      OpenValid();
      AtIs(regions, i);
      NoRegionNoRun(r, count);
      return 0;
    }

    lemma NotZero(r: seq<Run>, i: nat, count: nat)
      requires i < |r| && 0 !in Pages(r) && LowestRun(Pages(r), r[i].start, count) && count > 0
      ensures r[i].start > 0
    {
      assert r[i].start in Pages(r);
    }

    lemma PageOf(page: nat)
      ensures page * PAGE_SIZE / PAGE_SIZE == page && page * PAGE_SIZE % PAGE_SIZE == 0
      ensures (page > 0 ==> page * PAGE_SIZE > 0)
    {
    }

    lemma RunsAre()
      ensures Runs() == RunsOf(regions) && |Runs()| == |regions|
      ensures forall j :: 0 <= j < |regions| ==> Runs()[j] == Run(regions[j].StartPage, regions[j].Count)
    {
    }

    /** The region at position i joins the one before it. */
    method Swallow(node: VMARegion, curr: VMARegion, ghost i: nat)
      requires Shape() && 0 < i < |regions| && node == regions[i - 1] && curr == regions[i]
      modifies this`free_nodes_list, this`free_vma_list, this`regions, this`spares, regions`Next, node`Count
      ensures Shape() && i < |old(Runs())| && Runs() == Swallowed(old(Runs()), i)
    {
      hide *;
      ghost var r, s := Runs(), regions;
      RunsAre();
      NodesDiffer(s, i - 1);
      AtIs(regions, i - 1);
      node.Count := node.Count + curr.Count;
      Drop(node, curr, i);
      assert forall j :: 0 <= j < |regions| ==> regions[j] == s[if j < i then j else j + 1];
      RunsAre();
      SwallowedIs(r, i);
      forall j | 0 <= j < |r| - 1 ensures Runs()[j] == Swallowed(r, i)[j] {
        assert regions[j] == s[if j < i then j else j + 1];
      }
    }

    lemma SwallowedIs(r: seq<Run>, i: nat)
      requires 0 < i < |r|
      ensures var w := Swallowed(r, i);
        && |w| == |r| - 1 && w[i - 1] == Run(r[i - 1].start, r[i - 1].count + r[i].count)
        && (forall j :: 0 <= j < i - 1 ==> w[j] == r[j]) && forall j :: i <= j < |w| ==> w[j] == r[j + 1]
    {
    }

    lemma CloseRuns()
      requires Shape() && Coalesced(Runs()) && 0 !in Pages(Runs())
      ensures Valid() && Free() == Pages(Runs())
    {
    }

    /** The region before a freed run grows by it, and swallows the region after it if they
        now touch. */
    method GrowPrev(prev: VMARegion, curr: VMARegion?, start: nat, count: nat, ghost k: nat)
      requires Valid() && 0 < k <= |regions| && prev == regions[k - 1] && curr == At(regions, k) && count > 0
      requires Place(Runs(), k, Run(start, count)) && Free() !! Range(start, count) && 0 < start
      requires prev.StartPage + prev.Count == start
      modifies this`free_nodes_list, this`free_vma_list, this`regions, this`spares, regions`Next, regions`Count
      ensures Valid() && Runs() == Give(old(Runs()), k, Run(start, count))
      ensures Free() == old(Free()) + Range(start, count)
    {
      hide *;
      OpenValid();
      AtIs(regions, k);
      RunsAre();
      ghost var r, x := Runs(), Run(start, count);
      NodesDiffer(regions, k - 1);
      GiveFits(r, k, x);
      EndOf(r[k - 1]);
      GiveByGrowing(r, k, x);
      PagePositive(r, x);
      prev.Count := prev.Count + count;
      RunsAre();
      assert Runs() == r[k - 1 := Run(r[k - 1].start, r[k - 1].count + count)];
      EndOf(Runs()[k - 1]);
      if curr != null && prev.StartPage + prev.Count == curr.StartPage {
        Swallow(prev, curr, k);
      }
      CloseRuns();
    }

    lemma PagePositive(r: seq<Run>, x: Run)
      requires 0 !in Pages(r) && 0 < x.start
      ensures 0 !in Pages(r) + Range(x.start, x.count)
    {
    }

    /** A freed run that does not touch the region before it takes a node of its own, and
        swallows the region after it if the two touch. Without a node it is lost. */
    method AddRegion(prev: VMARegion?, curr: VMARegion?, start: nat, count: nat, ghost k: nat)
      requires Valid() && k <= |regions| && prev == At(regions, k - 1) && curr == At(regions, k) && count > 0
      requires Place(Runs(), k, Run(start, count)) && Free() !! Range(start, count) && 0 < start
      requires prev != null ==> prev.StartPage + prev.Count != start
      modifies this`free_nodes_list, this`free_vma_list, this`regions, this`spares
      modifies regions`Next, regions`Count, spares`Next, spares`StartPage, spares`Count
      ensures Valid()
      ensures old(spares) == [] ==> Runs() == old(Runs()) && Free() == old(Free())
      ensures old(spares) != [] ==>
        Runs() == Give(old(Runs()), k, Run(start, count)) && Free() == old(Free()) + Range(start, count)
    {
      hide *;
      OpenValid();
      AtIs(regions, k);
      AtIs(regions, k - 1);
      RunsAre();
      ghost var r, x := Runs(), Run(start, count);
      if k > 0 { EndOf(r[k - 1]); }
      EndOf(x);
      GiveFits(r, k, x);
      GiveByAdding(r, k, x);
      PagePositive(r, x);
      var node := AddNode(prev, curr, start, count, k);
      if node == null {
        CloseRuns();
        return;
      }
      if curr != null && node.StartPage + node.Count == curr.StartPage {
        Swallow(node, curr, k + 1);
      }
      CloseRuns();
    }

    /** AllocNode and, if there was a node, the new region in the list. */
    method AddNode(prev: VMARegion?, curr: VMARegion?, start: nat, count: nat, ghost k: nat) returns (node: VMARegion?)
      requires Shape() && k <= |regions| && prev == At(regions, k - 1) && curr == At(regions, k)
      modifies this`free_nodes_list, this`free_vma_list, this`regions, this`spares
      modifies regions`Next, spares`Next, spares`StartPage, spares`Count
      ensures Shape()
      ensures old(spares) == [] ==> node == null && regions == old(regions)
      ensures old(spares) != [] ==> node != null && node.StartPage == start && node.Count == count
      ensures old(spares) != [] ==> regions == old(regions)[..k] + [node] + old(regions)[k..] && node in old(spares)
      ensures old(spares) != [] ==> Runs() == old(Runs())[..k] + [Run(start, count)] + old(Runs())[k..]
      ensures old(spares) != [] ==>
        && |regions| == |old(regions)| + 1 && regions[k] == node
        && (curr != null ==> k < |old(regions)| && regions[k + 1] == curr)
      ensures curr != null ==> curr.StartPage == old(curr.StartPage)
      ensures old(spares) == [] ==> Runs() == old(Runs())
    {
      hide *;
      OpenShape();
      RunsAre();
      Links(free_nodes_list, spares);
      Links(free_vma_list, regions);
      AtIs(spares, 0);
      AtIs(regions, k);
      ghost var r, s := Runs(), regions;
      node := AllocNode();
      if node == null {
        CloseShape();
        return;
      }
      Add(prev, curr, node, start, count, k);
      RunsWithNode(r, s, k, node);
    }

    lemma RunsWithNode(r: seq<Run>, s: seq<VMARegion>, k: nat, node: VMARegion)
      requires |r| == |s| && k <= |s| && regions == s[..k] + [node] + s[k..]
      requires forall j :: 0 <= j < |s| ==> r[j] == Run(s[j].StartPage, s[j].Count)
      ensures Runs() == r[..k] + [Run(node.StartPage, node.Count)] + r[k..]
      ensures |regions| == |s| + 1 && regions[k] == node && (k < |s| ==> regions[k + 1] == s[k])
    {
      hide *;
      RunsAre();
      Inserted(s, k, node);
      Inserted(r, k, Run(node.StartPage, node.Count));
    }

    /** Of the regions before the place of a run, only the last can touch it. */
    lemma OnlyLastTouches(r: seq<Run>, k: nat, x: Run)
      requires Coalesced(r) && Place(r, k, x)
      ensures Touched(r, x.start) <==> k > 0 && r[k - 1].start + r[k - 1].count == x.start
    {
      if k > 0 && r[k - 1].start + r[k - 1].count == x.start { assert r[k - 1].End() == x.start; }
      if Touched(r, x.start) {
        var i :| 0 <= i < |r| && r[i].End() == x.start;
        assert r[i].count > 0;
        assert i < k;
        if i < k - 1 { assert r[i].End() < r[k - 1].start; }
      }
    }

    /** VirtualFreePages for pages that were allocated. Exactly they become free, except that
        the whole run is lost when all nodes of the pool are in the free list and no region
        ends where it starts. */
    method VirtualFreePages(addr: nat, count: nat)
      requires Valid() && (addr == 0 || addr >= PAGE_SIZE) && Free() !! Range(addr / PAGE_SIZE, count)
      modifies this`free_nodes_list, this`free_vma_list, this`regions, this`spares
      modifies regions`Next, regions`Count, spares`Next, spares`StartPage, spares`Count
      ensures Valid()
      ensures addr == 0 || count == 0 ==> Free() == old(Free())
      ensures addr != 0 && count != 0 ==>
        Free() == if |old(regions)| == MAX_VMA_NODES && !Touched(old(Runs()), addr / PAGE_SIZE) then old(Free())
                  else old(Free()) + Range(addr / PAGE_SIZE, count)
    {
      hide *;
      if addr == 0 || count == 0 { return; }
      PoolSize();
      var start_page := addr / PAGE_SIZE;
      AtLeastOne(addr);
      var prev, curr;
      ghost var k;
      prev, curr, k := FindPlace(start_page, count);
      RunsAre();
      if prev != null && prev.StartPage + prev.Count == start_page {
        GrowPrev(prev, curr, start_page, count, k);
      } else {
        AddRegion(prev, curr, start_page, count, k);
      }
    }

    /** The loop that looks for the place of a freed run. */
    method FindPlace(start_page: nat, ghost count: nat) returns (prev: VMARegion?, curr: VMARegion?, ghost k: nat)
      requires Valid()
      ensures Place(Runs(), k, Run(start_page, count)) && k <= |regions| && curr == At(regions, k)
      ensures prev == At(regions, k - 1)
      ensures prev != null ==> k > 0 && prev == regions[k - 1]
      ensures Touched(Runs(), start_page) <==> prev != null && prev.StartPage + prev.Count == start_page
      ensures |regions| == MAX_VMA_NODES <==> spares == []
    {
      hide *;
      OpenValid();
      RunsAre();
      ghost var r, x := Runs(), Run(start_page, count);
      curr, prev, k := free_vma_list, null, 0;
      AtIs(regions, 0);
      AtIs(regions, -1);
      while curr != null && curr.StartPage < start_page
        invariant 0 <= k <= |regions| && curr == At(regions, k) && prev == At(regions, k - 1)
        invariant forall j :: 0 <= j < k ==> r[j].start < start_page
        decreases |regions| - k
      {
        AtIs(regions, k);
        prev := curr;
        curr := curr.Next;
        k := k + 1;
        assert regions[k - 1].Next == At(regions, k - 1 + 1);
        AtIs(regions, k - 1);
      }
      AtIs(regions, k);
      AtIs(regions, k - 1);
      PlaceFound(r, k, x);
      OnlyLastTouches(r, k, x);
    }

    lemma AtLeastOne(addr: nat)
      requires addr >= PAGE_SIZE
      ensures addr / PAGE_SIZE > 0
    {
    }

    lemma PlaceFound(r: seq<Run>, k: nat, x: Run)
      requires Coalesced(r) && k <= |r| && (forall j :: 0 <= j < k ==> r[j].start < x.start)
      requires (k < |r| ==> x.start <= r[k].start)
      ensures Place(r, k, x)
    {
      forall i | k <= i < |r| ensures x.start <= r[i].start {
        if k < i { assert r[k].End() < r[i].start; }
      }
    }

    /** The pool as Virtual sets it up: all nodes in one list, and then the first of them taken
        for the one region that holds all pages. */
    constructor (base: nat, total: nat)
      requires base >= PAGE_SIZE && total > 0
      ensures Valid() && Free() == Range(base / PAGE_SIZE, total) && |regions| == 1 && fresh(nodes)
    {
      free_nodes_list, free_vma_list, regions, spares, nodes := null, null, [], [], {};
      new;
      hide *;
      NothingLinked();
      for i := 0 to MAX_VMA_NODES
        invariant Linked(free_nodes_list, spares) && NoDuplicates(spares) && |spares| == i && fresh(spares)
        invariant fresh(nodes) && forall x <- spares :: x in nodes
        invariant free_vma_list == null && regions == []
      {
        var node := new VMARegion();
        FreeNode(node);
        nodes := nodes + {node};
      }
      CloseShape();
      AtIs([], 0);
      AtIs([], -1);
      PoolSize();
      RunsAre();
      var node := AddNode(null, null, base / PAGE_SIZE, total, 0);
      assert Runs() == [Run(base / PAGE_SIZE, total)];
      OneRegion(Run(base / PAGE_SIZE, total));
      AtLeastOne(base);
      CloseRuns();
    }

    lemma NothingLinked()
      ensures Linked(null, []) && NoDuplicates<VMARegion>([])
    {
    }

    lemma OneRegion(x: Run)
      requires x.count > 0 && x.start > 0
      ensures Coalesced([x]) && Pages([x]) == Range(x.start, x.count) && 0 !in Pages([x])
    {
      assert [x][1..] == [];
    }
  }
  // ----- a free that is lost

  /** Every other page from `first` on, n of them. */
  ghost function Scattered(first: nat, n: nat): (r: seq<Run>)
    ensures |r| == n && forall i :: 0 <= i < n ==> r[i] == Run(first + 2 * i, 1)
  {
    seq(n, i requires 0 <= i < n => Run(first + 2 * i, 1))
  }

  lemma ScatteredFits(first: nat, n: nat)
    requires first > 0
    ensures Coalesced(Scattered(first, n)) && !Touched(Scattered(first, n), first + 2 * n)
    ensures first + 2 * n !in Pages(Scattered(first, n))
    ensures Pages(Scattered(first, n + 1)) == Pages(Scattered(first, n)) + Range(first + 2 * n, 1)
  {
    InPages(Scattered(first, n), first + 2 * n);
    PagesAround(Scattered(first, n), Run(first + 2 * n, 1), []);
    assert Scattered(first, n + 1) == Scattered(first, n) + [Run(first + 2 * n, 1)] + [];
  }

  /** The regions of a pool in which just these pages are free. */
  lemma ScatteredRegions(pool: VirtualPool, first: nat, n: nat)
    requires pool.Valid() && pool.Free() == Pages(Scattered(first, n)) && first > 0
    ensures pool.Runs() == Scattered(first, n) && |pool.regions| == n
  {
    hide *;
    pool.OpenValid();
    pool.RunsAre();
    ScatteredFits(first, n);
    ListIsUnique(pool.Runs(), Scattered(first, n));
  }

  lemma WholeRun(free: set<nat>, first: nat, n: nat, s: nat)
    requires free == Range(first, n) && n > 0
    ensures !NoRun(free, n) && (LowestRun(free, s, n) ==> s == first)
  {
    assert FreeRun(free, first, n);
    if LowestRun(free, s, n) { assert s in free; }
  }

  lemma AddressOfPage(base: nat, i: nat)
    requires base % PAGE_SIZE == 0 && base >= PAGE_SIZE
    ensures (base + i * PAGE_SIZE) / PAGE_SIZE == base / PAGE_SIZE + i && base / PAGE_SIZE > 0
    ensures base + i * PAGE_SIZE >= PAGE_SIZE > 0 && (base + i * PAGE_SIZE) % PAGE_SIZE == 0
  {
  }

  /** All pages of a new pool are allocated, and then every other one is freed, until the free
      list holds all nodes. The next page to be freed after that is lost. */
  method LoseFree(base: nat) returns (pool: VirtualPool, addr: nat)
    requires base >= PAGE_SIZE && base % PAGE_SIZE == 0
    ensures fresh(pool) && pool.Valid()
    ensures addr % PAGE_SIZE == 0 && addr / PAGE_SIZE == base / PAGE_SIZE + 2 * MAX_VMA_NODES
    ensures pool.Free() == Pages(Scattered(base / PAGE_SIZE, MAX_VMA_NODES)) && addr / PAGE_SIZE !in pool.Free()
  {
    hide *;
    PoolSize();
    pool := new VirtualPool(base, 2 * MAX_VMA_NODES + 1);
    ghost var first := base / PAGE_SIZE;
    AddressOfPage(base, 0);
    UseUp(pool, first, 2 * MAX_VMA_NODES + 1);
    NothingScattered(first);
    for i := 0 to MAX_VMA_NODES
      invariant fresh(pool) && fresh(pool.nodes) && pool.Valid() && pool.Free() == Pages(Scattered(first, i))
    {
      FreeScattered(pool, base, i);
    }
    FreeScattered(pool, base, MAX_VMA_NODES);
    addr := base + 2 * MAX_VMA_NODES * PAGE_SIZE;
    AddressOfPage(base, 2 * MAX_VMA_NODES);
    ScatteredFits(first, MAX_VMA_NODES);
  }

  /** All of a pool is allocated. */
  method UseUp(pool: VirtualPool, ghost first: nat, n: nat)
    requires pool.Valid() && pool.Free() == Range(first, n) && n > 0
    modifies pool`free_nodes_list, pool`free_vma_list, pool`regions, pool`spares
    modifies pool.nodes`Next, pool.nodes`StartPage, pool.nodes`Count
    ensures pool.Valid() && pool.Free() == {}
  {
    hide *;
    PoolSize();
    pool.OpenValid();
    pool.OpenShape();
    var addr := pool.VirtualAllocPages(n);
    WholeRun(Range(first, n), first, n, addr / PAGE_SIZE);
  }

  lemma NothingScattered(first: nat)
    ensures Pages(Scattered(first, 0)) == {}
  {
  }

  /** The next page in the row, as long as there is a node for it. */
  method FreeScattered(pool: VirtualPool, base: nat, i: nat)
    requires base >= PAGE_SIZE && base % PAGE_SIZE == 0
    requires pool.Valid() && pool.Free() == Pages(Scattered(base / PAGE_SIZE, i)) && i <= MAX_VMA_NODES
    modifies pool`free_nodes_list, pool`free_vma_list, pool`regions, pool`spares
    modifies pool.nodes`Next, pool.nodes`StartPage, pool.nodes`Count
    ensures pool.Valid()
    ensures pool.Free() == Pages(Scattered(base / PAGE_SIZE, if i < MAX_VMA_NODES then i + 1 else i))
  {
    hide *;
    PoolSize();
    ghost var first := base / PAGE_SIZE;
    AddressOfPage(base, 2 * i);
    ScatteredRegions(pool, first, i);
    ScatteredFits(first, i);
    OneApart(pool.Free(), first + 2 * i);
    pool.OpenValid();
    pool.OpenShape();
    pool.VirtualFreePages(base + 2 * i * PAGE_SIZE, 1);
  }

  lemma OneApart(free: set<nat>, p: nat)
    requires p !in free
    ensures free !! Range(p, 1)
  {
  }
}
