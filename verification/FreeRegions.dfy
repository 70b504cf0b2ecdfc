/** The free list of kernel/mm/virtualalloc.cpp as a value: disjoint runs of pages in
    ascending order, never two that touch. */
module FreeRegions {
  import opened FirstFit

  datatype Run = Run(start: nat, count: nat) {
    function End(): nat { start + count }
  }

  ghost predicate Coalesced(r: seq<Run>) {
    && (forall i :: 0 <= i < |r| ==> r[i].count > 0)
    && (forall i, j :: 0 <= i < j < |r| ==> r[i].End() < r[j].start)
  }

  /** What the regions before and after a region are to it. */
  lemma CoalescedParts(a: seq<Run>, m: Run, b: seq<Run>)
    requires Coalesced(a + [m] + b)
    ensures Coalesced(a) && Coalesced(b) && m.count > 0
    ensures forall i :: 0 <= i < |a| ==> a[i].End() < m.start
    ensures forall i :: 0 <= i < |b| ==> m.End() < b[i].start
  {
    var s := a + [m] + b;
    assert forall i :: 0 <= i < |a| ==> s[i] == a[i];
    assert forall i :: 0 <= i < |b| ==> b[i] == s[|a| + 1 + i];
    assert s[|a|] == m;
  }

  lemma CoalescedAround(a: seq<Run>, m: Run, b: seq<Run>)
    requires Coalesced(a) && Coalesced(b) && m.count > 0
    requires forall i :: 0 <= i < |a| ==> a[i].End() < m.start
    requires forall i :: 0 <= i < |b| ==> m.End() < b[i].start
    ensures Coalesced(a + [m] + b)
  {
  }

  ghost function Pages(r: seq<Run>): set<nat> {
    if r == [] then {} else Range(r[0].start, r[0].count) + Pages(r[1..])
  }

  ghost predicate Holds(r: seq<Run>, p: nat) {
    exists i :: 0 <= i < |r| && In(p, r[i].start, r[i].count)
  }

  lemma {:induction false} InPages(r: seq<Run>, p: nat)
    ensures p in Pages(r) <==> Holds(r, p)
  {
    if r != [] {
      InPages(r[1..], p);
      if Holds(r[1..], p) {
        var i :| 0 <= i < |r[1..]| && In(p, r[1..][i].start, r[1..][i].count);
        assert In(p, r[i + 1].start, r[i + 1].count);
      }
      if Holds(r, p) {
        var i :| 0 <= i < |r| && In(p, r[i].start, r[i].count);
        assert i > 0 ==> In(p, r[1..][i - 1].start, r[1..][i - 1].count);
      }
    }
  }

  lemma {:induction false} PagesConcat(a: seq<Run>, b: seq<Run>)
    ensures Pages(a + b) == Pages(a) + Pages(b)
  {
    if a == [] {
      assert a + b == b;
    } else {
      PagesConcat(a[1..], b);
      assert (a + b)[1..] == a[1..] + b;
    }
  }

  lemma PagesAround(a: seq<Run>, x: Run, b: seq<Run>)
    ensures Pages(a + [x] + b) == Pages(a) + Range(x.start, x.count) + Pages(b)
  {
    PagesConcat(a + [x], b);
    PagesConcat(a, [x]);
    assert [x][1..] == [];
  }

  /** All pages lie between the first start and the last end. */
  lemma PagesBounds(r: seq<Run>, lo: nat, hi: nat)
    requires forall i :: 0 <= i < |r| ==> lo <= r[i].start && r[i].End() <= hi
    ensures forall p <- Pages(r) :: lo <= p < hi
  {
    forall p <- Pages(r) ensures lo <= p < hi { InPages(r, p); }
  }

  lemma AfterRegion(r: seq<Run>, i: nat)
    requires Coalesced(r) && i < |r|
    ensures r[i].End() !in Pages(r)
  {
    InPages(r, r[i].End());
  }

  /** The first page of a list, and its other pages. */
  lemma FirstPage(r: seq<Run>)
    requires Coalesced(r) && r != []
    ensures var a, b := r[0].start, r[0].start + r[0].count;
      && a in Pages(r) && b !in Pages(r) && (forall p <- Pages(r) :: a <= p) && forall p | a <= p < b :: p in Pages(r)
    ensures Coalesced(r[1..]) && Pages(r[1..]) == Pages(r) - Range(r[0].start, r[0].count)
  {
    AfterRegion(r, 0);
    assert forall i :: 0 <= i < |r[1..]| ==> r[1..][i] == r[i + 1];
    forall p <- Pages(r[1..]) ensures r[0].End() < p { InPages(r[1..], p); }
  }

  /** The pages determine the list: there is one way only to keep them coalesced. */
  lemma {:induction false} ListIsUnique(r: seq<Run>, s: seq<Run>)
    requires Coalesced(r) && Coalesced(s) && Pages(r) == Pages(s)
    ensures r == s
  {
    hide Coalesced;
    if r != [] { FirstPage(r); }
    if s != [] { FirstPage(s); }
    if r != [] && s != [] {
      hide Pages;
      assert r[0] == s[0];
      ListIsUnique(r[1..], s[1..]);
      assert r == [r[0]] + r[1..] && s == [s[0]] + s[1..];
    }
  }

  /** A free run lies inside one region. */
  lemma RunInRegion(r: seq<Run>, s: nat, n: nat) returns (i: nat)
    requires Coalesced(r) && n > 0 && FreeRun(Pages(r), s, n)
    ensures i < |r| && r[i].start <= s && s + n <= r[i].End()
  {
    assert s in Pages(r);
    InPages(r, s);
    i :| 0 <= i < |r| && In(s, r[i].start, r[i].count);
    var e := r[i].End();
    AfterRegion(r, i);
    if e < s + n {
      assert s <= e < s + n;
    }
  }

  /** The first region that is large enough starts with the lowest free run. */
  lemma FirstRegionLowest(r: seq<Run>, i: nat, n: nat)
    requires Coalesced(r) && n > 0 && i < |r| && r[i].count >= n
    requires forall j :: 0 <= j < i ==> r[j].count < n
    ensures LowestRun(Pages(r), r[i].start, n)
  {
    forall p | r[i].start <= p < r[i].start + n ensures p in Pages(r) {
      assert In(p, r[i].start, r[i].count);
      InPages(r, p);
    }
    forall s | 0 <= s < r[i].start ensures !FreeRun(Pages(r), s, n) {
      if FreeRun(Pages(r), s, n) {
        var j := RunInRegion(r, s, n);
      }
    }
  }

  lemma NoRegionNoRun(r: seq<Run>, n: nat)
    requires Coalesced(r) && n > 0 && forall j :: 0 <= j < |r| ==> r[j].count < n
    ensures NoRun(Pages(r), n)
  {
    forall s: nat ensures !FreeRun(Pages(r), s, n) {
      if FreeRun(Pages(r), s, n) { var j := RunInRegion(r, s, n); }
    }
  }

  // ----- taking

  /** The list after n pages have been taken from the front of region i. */
  function Take(r: seq<Run>, i: nat, n: nat): seq<Run>
    requires i < |r| && r[i].count >= n
  {
    if r[i].count == n then r[..i] + r[i + 1..] else r[i := Run(r[i].start + n, r[i].count - n)]
  }

  lemma TakeFits(r: seq<Run>, i: nat, n: nat)
    requires Coalesced(r) && n > 0 && i < |r| && r[i].count >= n
    ensures Coalesced(Take(r, i, n))
    ensures Pages(Take(r, i, n)) == Pages(r) - Range(r[i].start, n)
  {
    hide *;
    TakeIs(r, i, n);
    TakeAt(r, Take(r, i, n), r[..i], r[i], r[i + 1..], n);
  }

  lemma TakeAt(r: seq<Run>, r': seq<Run>, a: seq<Run>, x: Run, b: seq<Run>, n: nat)
    requires Coalesced(r) && r == a + [x] + b && x.count >= n
    requires r' == if x.count == n then a + b else a + [Run(x.start + n, x.count - n)] + b
    ensures Coalesced(r') && Pages(r') == Pages(r) - Range(x.start, n)
  {
    hide *;
    CoalescedParts(a, x, b);
    TakePages(a, x, b, n);
    TakeOrder(a, x, b, n);
  }

  lemma TakeIs(r: seq<Run>, i: nat, n: nat)
    requires i < |r| && r[i].count >= n
    ensures r == r[..i] + [r[i]] + r[i + 1..]
    ensures Take(r, i, n) == if r[i].count == n then r[..i] + r[i + 1..]
                             else r[..i] + [Run(r[i].start + n, r[i].count - n)] + r[i + 1..]
  {
  }

  lemma TakeOrder(a: seq<Run>, x: Run, b: seq<Run>, n: nat)
    requires x.count >= n && Coalesced(a) && Coalesced(b)
    requires forall i :: 0 <= i < |a| ==> a[i].End() < x.start
    requires forall i :: 0 <= i < |b| ==> x.End() < b[i].start
    ensures Coalesced(if x.count == n then a + b else a + [Run(x.start + n, x.count - n)] + b)
  {
  }

  lemma TakePages(a: seq<Run>, x: Run, b: seq<Run>, n: nat)
    requires x.count >= n
    requires forall i :: 0 <= i < |a| ==> a[i].End() < x.start
    requires forall i :: 0 <= i < |b| ==> x.End() < b[i].start
    ensures Pages(if x.count == n then a + b else a + [Run(x.start + n, x.count - n)] + b) == Pages(a + [x] + b) - Range(x.start, n)
  {
    hide Pages;
    PagesAround(a, x, b);
    PagesBounds(a, 0, x.start);
    PagesFrom(b, x.End());
    if x.count == n {
      PagesConcat(a, b);
    } else {
      PagesAround(a, Run(x.start + n, x.count - n), b);
    }
  }

  lemma PagesFrom(r: seq<Run>, lo: nat)
    requires forall i :: 0 <= i < |r| ==> lo <= r[i].start
    ensures forall p <- Pages(r) :: lo <= p
  {
    forall p <- Pages(r) ensures lo <= p { InPages(r, p); }
  }

  // ----- giving back

  /** The run x put in at position k, joined with its neighbours. */
  function Joined(r: seq<Run>, k: nat, x: Run): Run
    requires k <= |r|
  {
    var lo := if k > 0 && r[k - 1].End() == x.start then r[k - 1].start else x.start;
    Run(lo, (if k < |r| && x.End() == r[k].start then r[k].End() else x.End()) - lo)
  }

  /** Where the regions that are joined with x begin and end. */
  function Before(r: seq<Run>, k: nat, x: Run): (a: nat)
    requires k <= |r|
    ensures a <= k
  {
    if k > 0 && r[k - 1].End() == x.start then k - 1 else k
  }

  function After(r: seq<Run>, k: nat, x: Run): (b: nat)
    requires k <= |r|
    ensures k <= b <= |r|
  {
    if k < |r| && x.End() == r[k].start then k + 1 else k
  }

  /** The list with x put in at position k. */
  function Give(r: seq<Run>, k: nat, x: Run): seq<Run>
    requires k <= |r|
  {
    r[..Before(r, k, x)] + [Joined(r, k, x)] + r[After(r, k, x)..]
  }

  /** Where x belongs. */
  ghost predicate Place(r: seq<Run>, k: nat, x: Run) {
    && k <= |r|
    && (forall i :: 0 <= i < k ==> r[i].start < x.start)
    && (forall i :: k <= i < |r| ==> x.start <= r[i].start)
  }

  /** A run that is not free yet lies between its neighbours. */
  lemma Between(r: seq<Run>, k: nat, x: Run)
    requires Coalesced(r) && Place(r, k, x) && x.count > 0 && Pages(r) !! Range(x.start, x.count)
    ensures forall i :: 0 <= i < k ==> r[i].End() <= x.start
    ensures forall i :: k <= i < |r| ==> x.End() <= r[i].start
  {
    forall i | 0 <= i < k ensures r[i].End() <= x.start {
      InPages(r, x.start);
      assert x.start in Range(x.start, x.count);
      assert !In(x.start, r[i].start, r[i].count);
    }
    forall i | k <= i < |r| ensures x.End() <= r[i].start {
      InPages(r, r[i].start);
      assert In(r[i].start, r[i].start, r[i].count);
      assert !In(r[i].start, x.start, x.count);
    }
  }

  lemma GiveFits(r: seq<Run>, k: nat, x: Run)
    requires Coalesced(r) && Place(r, k, x) && x.count > 0 && Pages(r) !! Range(x.start, x.count)
    ensures Coalesced(Give(r, k, x))
    ensures Pages(Give(r, k, x)) == Pages(r) + Range(x.start, x.count)
  {
    Between(r, k, x);
    GivePages(r, k, x);
    GiveOrder(r, k, x);
  }

  lemma GiveOrder(r: seq<Run>, k: nat, x: Run)
    requires Coalesced(r) && k <= |r| && x.count > 0
    requires forall i :: 0 <= i < k ==> r[i].End() <= x.start
    requires forall i :: k <= i < |r| ==> x.End() <= r[i].start
    ensures Coalesced(Give(r, k, x))
  {
    var a, b := Before(r, k, x), After(r, k, x);
    JoinedBounds(r, k, x);
    Slices(r, a, b);
    CoalescedAround(r[..a], Joined(r, k, x), r[b..]);
  }

  lemma JoinedBounds(r: seq<Run>, k: nat, x: Run)
    requires Coalesced(r) && k <= |r| && x.count > 0
    requires forall i :: 0 <= i < k ==> r[i].End() <= x.start
    requires forall i :: k <= i < |r| ==> x.End() <= r[i].start
    ensures Joined(r, k, x).count > 0 && Before(r, k, x) <= k <= After(r, k, x) <= |r|
    ensures forall i :: 0 <= i < Before(r, k, x) ==> r[i].End() < Joined(r, k, x).start
    ensures forall i :: After(r, k, x) <= i < |r| ==> Joined(r, k, x).End() < r[i].start
  {
    hide Joined;
    JoinedIs(r, k, x);
  }

  lemma JoinedIs(r: seq<Run>, k: nat, x: Run)
    requires k <= |r|
    ensures Joined(r, k, x).start == if k > 0 && r[k - 1].End() == x.start then r[k - 1].start else x.start
    ensures Joined(r, k, x).End() == if k < |r| && x.End() == r[k].start then r[k].End() else x.End()
  {
  }

  lemma Slices(r: seq<Run>, a: nat, b: nat)
    requires Coalesced(r) && a <= b <= |r|
    ensures Coalesced(r[..a]) && Coalesced(r[b..])
  {
  }

  lemma GivePages(r: seq<Run>, k: nat, x: Run)
    requires k <= |r|
    ensures Pages(Give(r, k, x)) == Pages(r) + Range(x.start, x.count)
  {
    var a, b := Before(r, k, x), After(r, k, x);
    hide Pages, Range, Joined, Before, After;
    JoinedRange(r, k, x);
    PagesAround(r[..a], Joined(r, k, x), r[b..]);
    PagesSplit(r, a, b);
  }

  lemma PagesSplit(r: seq<Run>, a: nat, b: nat)
    requires a <= b <= |r|
    ensures Pages(r) == Pages(r[..a]) + Pages(r[a..b]) + Pages(r[b..])
  {
    hide Pages;
    assert r == r[..a] + r[a..];
    PagesConcat(r[..a], r[a..]);
    assert r[a..] == r[a..b] + r[b..];
    PagesConcat(r[a..b], r[b..]);
  }

  lemma JoinedRange(r: seq<Run>, k: nat, x: Run)
    requires k <= |r|
    ensures var m := Joined(r, k, x);
      Range(m.start, m.count) == Pages(r[Before(r, k, x)..After(r, k, x)]) + Range(x.start, x.count)
  {
    var left := k > 0 && r[k - 1].End() == x.start;
    var right := k < |r| && x.End() == r[k].start;
    Neighbours(r, k, left, right);
    JoinedIs(r, k, x);
  }

  lemma Neighbours(r: seq<Run>, k: nat, left: bool, right: bool)
    requires k <= |r| && (left ==> k > 0) && (right ==> k < |r|)
    ensures Pages(r[if left then k - 1 else k..if right then k + 1 else k])
         == (if left then Range(r[k - 1].start, r[k - 1].count) else {}) + (if right then Range(r[k].start, r[k].count) else {})
  {
    var s := r[if left then k - 1 else k..if right then k + 1 else k];
    assert s == (if left then [r[k - 1]] else []) + (if right then [r[k]] else []);
    PagesConcat(if left then [r[k - 1]] else [], if right then [r[k]] else []);
    assert forall y: Run :: [y][1..] == [];
  }

  /** Freeing what was just allocated gives back the same pages, and even the same list. */
  lemma TakeThenGive(r: seq<Run>, i: nat, n: nat)
    requires Coalesced(r) && n > 0 && i < |r| && r[i].count >= n
    ensures Place(Take(r, i, n), i, Run(r[i].start, n)) && Give(Take(r, i, n), i, Run(r[i].start, n)) == r
  {
    var r' := Take(r, i, n);
    assert Give(r', i, Run(r[i].start, n)) == r;
  }
}
