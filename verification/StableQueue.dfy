/** The run queue as a value: tasks in the order in which they will be picked.

    Two descriptions of one priority queue are related here. The sorted list is what the
    in-order traversal of the tree gives. The arrival list is the plain description: tasks
    in the order in which they came, of which the one with the smallest key is taken, the
    oldest among equals. */
module StableQueue {

  datatype Entry<T> = Entry(task: T, key: nat)

  predicate Sorted<T>(s: seq<Entry<T>>) {
    forall i, j :: 0 <= i < j < |s| ==> s[i].key <= s[j].key
  }

  /** Insertion after everything with the same key. */
  function Insert<T>(s: seq<Entry<T>>, e: Entry<T>): seq<Entry<T>> {
    if s == [] then [e]
    else if e.key < s[0].key then [e] + s
    else [s[0]] + Insert(s[1..], e)
  }

  function Sort<T>(arrivals: seq<Entry<T>>): seq<Entry<T>> {
    if arrivals == [] then [] else Insert(Sort(arrivals[..|arrivals| - 1]), arrivals[|arrivals| - 1])
  }

  lemma {:induction false} InsertAt<T>(s: seq<Entry<T>>, e: Entry<T>) returns (k: nat)
    requires Sorted(s)
    ensures k <= |s| && Insert(s, e) == s[..k] + [e] + s[k..] && Sorted(Insert(s, e))
    ensures forall i :: 0 <= i < k ==> s[i].key <= e.key
    ensures forall i :: k <= i < |s| ==> e.key < s[i].key
  {
    if s == [] || e.key < s[0].key {
      k := 0;
    } else {
      k := InsertAt(s[1..], e);
      k := k + 1;
      assert s[..k] == [s[0]] + s[1..][..k - 1];
      assert s[k..] == s[1..][k - 1..];
      assert [s[0]] + (s[1..][..k - 1] + [e] + s[1..][k - 1..]) == s[..k] + [e] + s[k..];
      forall i | 0 <= i < k ensures s[i].key <= e.key {
        assert i > 0 ==> s[i] == s[1..][i - 1];
      }
      forall i | k <= i < |s| ensures e.key < s[i].key {
        assert s[i] == s[1..][i - 1];
      }
    }
    SortedAround(s, e, k);
  }

  lemma SortedAround<T>(s: seq<Entry<T>>, e: Entry<T>, k: nat)
    requires Sorted(s) && k <= |s| && (forall i :: 0 <= i < k ==> s[i].key <= e.key)
    requires forall i :: k <= i < |s| ==> e.key < s[i].key
    ensures Sorted(s[..k] + [e] + s[k..])
  {
  }

  lemma {:induction false} InsertMembers<T>(s: seq<Entry<T>>, e: Entry<T>, x: Entry<T>)
    ensures x in Insert(s, e) <==> x in s || x == e
  {
    if s != [] { InsertMembers(s[1..], e, x); }
  }

  /** The converse: the place of a stable insertion is determined by the keys. */
  lemma {:induction false} InsertHere<T>(s: seq<Entry<T>>, e: Entry<T>, k: nat)
    requires k <= |s|
    requires forall i :: 0 <= i < k ==> s[i].key <= e.key
    requires forall i :: k <= i < |s| ==> e.key < s[i].key
    ensures Insert(s, e) == s[..k] + [e] + s[k..]
  {
    if k == 0 {
      if s != [] { assert e.key < s[0].key; }
      assert s[..0] + [e] + s[0..] == [e] + s;
    } else {
      InsertHere(s[1..], e, k - 1);
      assert s[..k] + [e] + s[k..] == [s[0]] + (s[1..][..k - 1] + [e] + s[1..][k - 1..]);
    }
  }

  predicate DistinctTasks<T(==)>(s: seq<Entry<T>>) {
    forall i, j :: 0 <= i < j < |s| ==> s[i].task != s[j].task
  }

  function Remove<T(==)>(s: seq<Entry<T>>, t: T): seq<Entry<T>> {
    if s == [] then [] else if s[0].task == t then s[1..] else [s[0]] + Remove(s[1..], t)
  }

  lemma {:induction false} RemoveAt<T>(a: seq<Entry<T>>, e: Entry<T>, b: seq<Entry<T>>)
    requires forall x <- a :: x.task != e.task
    ensures Remove(a + [e] + b, e.task) == a + b
  {
    if a == [] {
      assert a + [e] + b == [e] + b;
    } else {
      RemoveAt(a[1..], e, b);
      assert (a + [e] + b)[1..] == a[1..] + [e] + b;
    }
  }

  lemma {:induction false} RemoveSorted<T>(s: seq<Entry<T>>, t: T)
    requires Sorted(s)
    ensures Sorted(Remove(s, t)) && forall x <- Remove(s, t) :: x in s
  {
    if s != [] {
      RemoveSorted(s[1..], t);
      var r := Remove(s[1..], t);
      forall x | x in r ensures s[0].key <= x.key {
        var i :| 0 <= i < |s[1..]| && s[1..][i] == x;
        assert s[0].key <= s[i + 1].key;
      }
    }
  }

  lemma {:induction false} RemoveAbsent<T>(s: seq<Entry<T>>, t: T)
    requires forall x <- s :: x.task != t
    ensures Remove(s, t) == s
  {
    if s != [] { RemoveAbsent(s[1..], t); }
  }

  lemma {:induction false} RemoveLast<T>(s: seq<Entry<T>>, e: Entry<T>, t: T)
    ensures e.task != t ==> Remove(s + [e], t) == Remove(s, t) + [e]
    ensures e.task == t && (forall x <- s :: x.task != t) ==> Remove(s + [e], t) == s
  {
    if s == [] {
      assert s + [e] == [e];
    } else {
      RemoveLast(s[1..], e, t);
      assert (s + [e])[1..] == s[1..] + [e];
    }
  }

  lemma {:induction false} SortFacts<T>(a: seq<Entry<T>>)
    ensures Sorted(Sort(a)) && multiset(Sort(a)) == multiset(a)
  {
    if a != [] {
      var b, e := a[..|a| - 1], a[|a| - 1];
      SortFacts(b);
      assert a == b + [e];
      InsertContents(Sort(b), e);
    }
  }

  lemma InsertContents<T>(s: seq<Entry<T>>, e: Entry<T>)
    requires Sorted(s)
    ensures Sorted(Insert(s, e)) && multiset(Insert(s, e)) == multiset(s) + multiset{e}
  {
    var k := InsertAt(s, e);
    assert s == s[..k] + s[k..];
  }

  lemma {:induction false} InsertRemove<T>(s: seq<Entry<T>>, e: Entry<T>, t: T)
    requires Sorted(s)
    ensures e.task != t ==> Remove(Insert(s, e), t) == Insert(Remove(s, t), e)
    ensures e.task == t && (forall x <- s :: x.task != t) ==> Remove(Insert(s, e), t) == s
  {
    if s != [] {
      InsertRemove(s[1..], e, t);
      if e.key < s[0].key {
        assert |s| > 1 ==> e.key < s[1].key;
        assert ([e] + s)[1..] == s;
        if e.task != t { RemoveKeepsBound(s, t, e.key); }
      } else {
        assert ([s[0]] + Insert(s[1..], e))[1..] == Insert(s[1..], e);
        assert s[0].task != t ==> ([s[0]] + Remove(s[1..], t))[1..] == Remove(s[1..], t);
      }
    }
  }

  lemma {:induction false} RemoveKeepsBound<T>(s: seq<Entry<T>>, t: T, k: nat)
    requires forall x <- s :: k < x.key
    ensures forall x <- Remove(s, t) :: k < x.key
  {
    if s != [] { RemoveKeepsBound(s[1..], t, k); }
  }

  /** Taking a task out of the arrivals takes it out of the sorted list. */
  lemma {:induction false} SortRemove<T>(a: seq<Entry<T>>, t: T)
    requires DistinctTasks(a)
    ensures Sort(Remove(a, t)) == Remove(Sort(a), t)
  {
    if a != [] {
      var b, e := a[..|a| - 1], a[|a| - 1];
      assert a == b + [e];
      SortRemove(b, t);
      SortFacts(b);
      RemoveLast(b, e, t);
      InsertRemove(Sort(b), e, t);
      if e.task == t {
        forall x | x in Sort(b) ensures x.task != t {
          assert x in multiset(Sort(b));
          assert x in b;
        }
      } else {
        var c := Remove(b, t) + [e];
        assert c[..|c| - 1] == Remove(b, t);
      }
    }
  }

  // ----- the plain description

  /** Index i holds the oldest of the arrivals with the smallest key. */
  predicate OldestSmallest<T>(a: seq<Entry<T>>, i: nat) {
    && i < |a|
    && (forall j :: 0 <= j < i ==> a[i].key < a[j].key)
    && (forall j :: i < j < |a| ==> a[i].key <= a[j].key)
  }

  function OldestIndex<T>(a: seq<Entry<T>>): (i: nat)
    requires a != []
    ensures OldestSmallest(a, i)
  {
    var n := |a| - 1;
    if n == 0 then 0
    else var i := OldestIndex(a[..n]);
      assert forall j :: 0 <= j < n ==> a[..n][j] == a[j];
      if a[n].key < a[i].key then n else i
  }

  lemma {:induction false} SortHead<T>(a: seq<Entry<T>>)
    requires a != []
    ensures Sort(a) != [] && Sort(a)[0] == a[OldestIndex(a)]
  {
    var n := |a| - 1;
    if n > 0 { SortHead(a[..n]); }
  }

  /** Of the arrivals with the smallest key the oldest is the first of the sorted list. */
  lemma OldestFirst<T>(a: seq<Entry<T>>, i: nat)
    requires i < |a| && (forall j :: 0 <= j < i ==> a[i].key < a[j].key)
    requires forall j :: i < j < |a| ==> a[i].key <= a[j].key
    ensures Sort(a) != [] && Sort(a)[0] == a[i]
  {
    SortHead(a);
    var k := OldestIndex(a);
    assert k == i;
  }

  datatype Op<T> = Enqueue(e: Entry<T>) | Dequeue(t: T) | PickNext

  datatype Run<T> = Run(queue: seq<Entry<T>>, picked: seq<T>)

  /** One operation on the sorted list: what the tree and its leftmost pointer do. */
  function SortedStep<T(==)>(r: Run<T>, op: Op<T>): Run<T> {
    match op
    case Enqueue(e) => Run(Insert(r.queue, e), r.picked)
    case Dequeue(t) => Run(Remove(r.queue, t), r.picked)
    case PickNext => if r.queue == [] then r else Run(r.queue[1..], r.picked + [r.queue[0].task])
  }

  /** The same operation on the arrivals. */
  function ArrivalStep<T(==)>(r: Run<T>, op: Op<T>): Run<T> {
    match op
    case Enqueue(e) => Run(r.queue + [e], r.picked)
    case Dequeue(t) => Run(Remove(r.queue, t), r.picked)
    case PickNext =>
      if r.queue == [] then r
      else var t := r.queue[OldestIndex(r.queue)].task; Run(Remove(r.queue, t), r.picked + [t])
  }

  function SortedRun<T(==)>(r: Run<T>, ops: seq<Op<T>>): Run<T>
    decreases ops
  {
    if ops == [] then r else SortedRun(SortedStep(r, ops[0]), ops[1..])
  }

  function ArrivalRun<T(==)>(r: Run<T>, ops: seq<Op<T>>): Run<T>
    decreases ops
  {
    if ops == [] then r else ArrivalRun(ArrivalStep(r, ops[0]), ops[1..])
  }

  /** Nothing is enqueued that is still in the queue. */
  predicate Proper<T(==)>(r: Run<T>, ops: seq<Op<T>>)
    decreases ops
  {
    ops != [] ==>
      && (ops[0].Enqueue? ==> forall x <- r.queue :: x.task != ops[0].e.task)
      && Proper(ArrivalStep(r, ops[0]), ops[1..])
  }

  lemma {:induction false} RemoveKeeps<T>(s: seq<Entry<T>>, t: T)
    requires DistinctTasks(s)
    ensures DistinctTasks(Remove(s, t)) && forall x <- Remove(s, t) :: x in s
  {
    if s != [] {
      RemoveKeeps(s[1..], t);
      var r := Remove(s[1..], t);
      forall i | 0 <= i < |r| ensures r[i].task != s[0].task {
        assert r[i] in s[1..];
      }
    }
  }

  /** Every run of enqueues, dequeues and picks gives the same picks on the sorted list as on
      the arrivals, so each pick returns a smallest key, and the oldest of those. */
  lemma {:induction false} RunsRefine<T>(r: Run<T>, ops: seq<Op<T>>)
    requires DistinctTasks(r.queue) && Proper(r, ops)
    ensures var s, a := SortedRun(Run(Sort(r.queue), r.picked), ops), ArrivalRun(r, ops);
            s.picked == a.picked && s.queue == Sort(a.queue)
    decreases ops
  {
    if ops != [] {
      StepRefines(r, ops[0]);
      RunsRefine(ArrivalStep(r, ops[0]), ops[1..]);
    }
  }

  lemma StepRefines<T>(r: Run<T>, op: Op<T>)
    requires DistinctTasks(r.queue)
    requires op.Enqueue? ==> forall x <- r.queue :: x.task != op.e.task
    ensures SortedStep(Run(Sort(r.queue), r.picked), op)
         == Run(Sort(ArrivalStep(r, op).queue), ArrivalStep(r, op).picked)
    ensures DistinctTasks(ArrivalStep(r, op).queue)
  {
    match op
    case Enqueue(e) =>
      var a := r.queue + [e];
      assert a[..|a| - 1] == r.queue;
    case Dequeue(t) =>
      SortRemove(r.queue, t);
      RemoveKeeps(r.queue, t);
    case PickNext =>
      if r.queue != [] {
        SortHead(r.queue);
        var t := r.queue[OldestIndex(r.queue)].task;
        SortRemove(r.queue, t);
        RemoveKeeps(r.queue, t);
      } else {
        assert Sort(r.queue) == [];
      }
  }
}
