/** How the scheduler shares the CPU among a fixed set of runnable tasks: one tick charges
    the running task, puts it back and picks the first of the queue
    (kernel/task/scheduler.cpp:277-379, kernel/task/task_main.cpp:17-35). */
module Fairness {
  import opened StableQueue

  const NICE_0_WEIGHT: nat := 1024
  const MAX_CHARGE: nat := 68

  const PrioToWeight: seq<nat> := [
    88761, 71755, 56483, 46273, 36291, 29154, 23254, 18705, 14949, 11916,
    9548, 7620, 6100, 4904, 3906, 3121, 2501, 1991, 1586, 1277,
    1024, 820, 655, 526, 423, 335, 272, 215, 172, 137,
    110, 87, 70, 56, 45, 36, 29, 23, 18, 15]

  /** The weight of a nice value, which is clamped to -20..19. */
  function RateThisTaskNice(nice: int): (w: nat)
    ensures 15 <= w <= 88761
    ensures w == PrioToWeight[if nice < -20 then 0 else if nice > 19 then 39 else nice + 20]
  {
    var n := if nice < -20 then -20 else if nice > 19 then 19 else nice;
    PrioToWeight[n + 20]
  }

  /** A nicer task never weighs more, so it never pays less for a tick. */
  lemma NicerIsLighter(a: int, b: int)
    requires a <= b
    ensures RateThisTaskNice(b) <= RateThisTaskNice(a)
    ensures Charge(RateThisTaskNice(a)) <= Charge(RateThisTaskNice(b))
  {
    WeightsFall(if a < -20 then 0 else if a > 19 then 39 else a + 20, if b < -20 then 0 else if b > 19 then 39 else b + 20);
    ChargeFalls(RateThisTaskNice(b), RateThisTaskNice(a));
  }

  lemma {:induction false} WeightsFall(i: nat, j: nat)
    requires i <= j < 40
    ensures PrioToWeight[j] <= PrioToWeight[i]
  {
    if i < j { WeightsFall(i, j - 1); }
  }

  /** A task of nice 0 pays 1 for a tick and one of nice 19 pays 68, and each step of nice makes a
      weight smaller by a sixth to 7/32, over the whole scale. */
  lemma NiceSteps(nice: int)
    requires -20 <= nice < 19
    ensures RateThisTaskNice(0) == 1024 && Charge(RateThisTaskNice(0)) == 1
    ensures RateThisTaskNice(-20) == 88761 && RateThisTaskNice(19) == 15 && Charge(RateThisTaskNice(19)) == 68
    ensures 6 * RateThisTaskNice(nice + 1) <= 5 * RateThisTaskNice(nice)
    ensures 25 * RateThisTaskNice(nice) <= 32 * RateThisTaskNice(nice + 1)
  {
    NiceStepAt(nice + 20);
  }

  lemma {:induction false} NiceStepAt(i: nat)
    requires i < 39
    ensures 6 * PrioToWeight[i + 1] <= 5 * PrioToWeight[i] && 25 * PrioToWeight[i] <= 32 * PrioToWeight[i + 1]
  {
    if i > 0 { NiceStepAt(i - 1); }
  }

  /** What one tick costs a task of weight w. */
  function Charge(w: nat): (c: nat)
    requires w > 0
    ensures c >= 1
    ensures w >= 15 ==> c <= MAX_CHARGE
  {
    if NICE_0_WEIGHT / w == 0 then 1 else NICE_0_WEIGHT / w
  }

  /** That is 1024 divided by the weight, but never nothing. */
  lemma ChargeIs(w: nat)
    requires w > 0
    ensures if w > 1024 then Charge(w) == 1 else Charge(w) * w <= 1024 < (Charge(w) + 1) * w
  {
    Quotient(NICE_0_WEIGHT, w);
  }

  lemma Quotient(n: nat, w: nat)
    requires w > 0
    ensures n / w * w <= n < (n / w + 1) * w && (n < w <==> n / w == 0)
  {
    var q := n / w;
    assert q * w + n % w == n && (q + 1) * w == q * w + w;
  }

  lemma ChargeFalls(w: nat, v: nat)
    requires 0 < w <= v
    ensures Charge(v) <= Charge(w)
  {
    hide NICE_0_WEIGHT;
    Shares(NICE_0_WEIGHT, w, v);
  }

  /** The larger the divisor the smaller the share. */
  lemma Shares(n: nat, w: nat, v: nat)
    requires 0 < w <= v
    ensures n / v <= n / w
  {
    var q := n / v;
    MoreOf(q, w, v);
    AtLeast(n, w, q);
  }

  lemma MoreOf(q: nat, w: nat, v: nat)
    requires w <= v
    ensures q * w <= q * v
  {
  }

  lemma AtLeast(n: nat, w: nat, q: nat)
    requires q * w <= n && 0 < w
    ensures q <= n / w
  {
    var most := n / w;
    assert most * w + n % w == n;
    assert (most + 1) * w == most * w + w;
    if q > most { MoreOf(w, most + 1, q); }
  }

  /** The running task and the queue. */
  datatype Cpu<T> = Cpu(current: Entry<T>, queue: seq<Entry<T>>)

  ghost predicate Weighted<T>(s: Cpu<T>, weight: map<T, nat>) {
    && s.current.task in weight && (forall e <- s.queue :: e.task in weight)
    && forall t <- weight :: 15 <= weight[t]
  }

  ghost function Tick<T>(s: Cpu<T>, weight: map<T, nat>): Cpu<T>
    requires Weighted(s, weight)
  {
    var q := Insert(s.queue, Charged(s, weight));
    Cpu(q[0], q[1..])
  }

  /** The state between ticks: the running task was the first of the queue when picked. */
  predicate Picked<T>(s: Cpu<T>) {
    Sorted([s.current] + s.queue)
  }

  /** Every vruntime lies within `width` of the running task's. */
  ghost predicate Within<T>(s: Cpu<T>, width: nat) {
    forall e <- s.queue :: e.key <= s.current.key + width
  }

  /** What the running task is once it has been charged for a tick. */
  ghost function Charged<T>(s: Cpu<T>, weight: map<T, nat>): Entry<T>
    requires Weighted(s, weight)
  {
    Entry(s.current.task, s.current.key + Charge(weight[s.current.task]))
  }

  lemma TickKeeps<T>(s: Cpu<T>, weight: map<T, nat>)
    requires Picked(s) && Weighted(s, weight)
    ensures Picked(Tick(s, weight)) && Weighted(Tick(s, weight), weight)
    ensures s.current.key <= Tick(s, weight).current.key
  {
    var e := Charged(s, weight);
    TickInserts(s, weight);
    var s' := Tick(s, weight);
    forall x <- [s'.current] + s'.queue ensures x in s.queue || x == e { InsertMembers(s.queue, e, x); }
    assert s'.current in [s'.current] + s'.queue;
    forall x <- s'.queue ensures x.task in weight { assert x in [s'.current] + s'.queue; }
    CurrentIsLeast(s);
  }

  lemma TickInserts<T>(s: Cpu<T>, weight: map<T, nat>)
    requires Picked(s) && Weighted(s, weight)
    ensures [Tick(s, weight).current] + Tick(s, weight).queue == Insert(s.queue, Charged(s, weight))
    ensures Sorted(Insert(s.queue, Charged(s, weight)))
    ensures multiset([Tick(s, weight).current] + Tick(s, weight).queue) == multiset(s.queue) + multiset{Charged(s, weight)}
  {
    QueueSorted(s);
    InsertContents(s.queue, Charged(s, weight));
    var q := Insert(s.queue, Charged(s, weight));
    assert q == [q[0]] + q[1..];
  }

  lemma QueueSorted<T>(s: Cpu<T>)
    requires Picked(s)
    ensures Sorted(s.queue)
  {
    var a := [s.current] + s.queue;
    forall i, j | 0 <= i < j < |s.queue| ensures s.queue[i].key <= s.queue[j].key {
      assert a[i + 1].key <= a[j + 1].key;
    }
  }

  lemma CurrentIsLeast<T>(s: Cpu<T>)
    requires Picked(s)
    ensures forall e <- s.queue :: s.current.key <= e.key
  {
    var a := [s.current] + s.queue;
    forall e <- s.queue ensures s.current.key <= e.key {
      var i :| 0 <= i < |s.queue| && s.queue[i] == e;
      assert a[0].key <= a[i + 1].key;
    }
  }

  /** The spread of the vruntimes never grows beyond 68, or beyond what it was. */
  lemma SpreadKept<T>(s: Cpu<T>, weight: map<T, nat>, width: nat)
    requires Picked(s) && Weighted(s, weight) && Within(s, width) && MAX_CHARGE <= width
    ensures Within(Tick(s, weight), width)
  {
    TickKeeps(s, weight);
    var e := Charged(s, weight);
    var s' := Tick(s, weight);
    forall x <- s'.queue ensures x.key <= s'.current.key + width {
      assert x in Insert(s.queue, e);
      InsertMembers(s.queue, e, x);
    }
  }

  ghost function Run<T>(s: Cpu<T>, weight: map<T, nat>, n: nat): Cpu<T>
    requires Picked(s) && Weighted(s, weight)
    decreases n
  {
    if n == 0 then s else TickKeeps(s, weight); Run(Tick(s, weight), weight, n - 1)
  }

  /** Over every run the vruntime spread stays within max(initial spread, 68). */
  lemma {:induction false} SpreadBounded<T>(s: Cpu<T>, weight: map<T, nat>, width: nat, n: nat)
    requires Picked(s) && Weighted(s, weight) && Within(s, width)
    ensures Within(Run(s, weight, n), if width < 68 then 68 else width)
    decreases n
  {
    var w := if width < MAX_CHARGE then MAX_CHARGE else width;
    assert Within(s, w);
    if n > 0 {
      TickKeeps(s, weight);
      SpreadKept(s, weight, w);
      SpreadBounded(Tick(s, weight), weight, w, n - 1);
    }
  }

  // ----- nobody waits for ever

  /** How far a task with this key can still be ahead of one with key v, in ticks. */
  function Lag(key: nat, v: nat): nat {
    if key <= v then v - key + 1 else 0
  }

  function Rank<T>(s: seq<Entry<T>>, v: nat): nat {
    if s == [] then 0 else Lag(s[0].key, v) + Rank(s[1..], v)
  }

  lemma {:induction false} RankInsert<T>(s: seq<Entry<T>>, e: Entry<T>, v: nat)
    ensures Rank(Insert(s, e), v) == Rank(s, v) + Lag(e.key, v)
  {
    if s == [] {
      assert Insert(s, e) == [e] && [e][1..] == [];
    } else if e.key < s[0].key {
      assert ([e] + s)[1..] == s;
    } else {
      RankInsert(s[1..], e, v);
      assert ([s[0]] + Insert(s[1..], e))[1..] == Insert(s[1..], e);
    }
  }

  lemma {:induction false} RankBound<T>(s: seq<Entry<T>>, v: nat, lag: nat)
    requires forall e <- s :: Lag(e.key, v) <= lag
    ensures Rank(s, v) <= |s| * lag
  {
    if s != [] {
      RankBound(s[1..], v, lag);
      assert |s| * lag == lag + |s[1..]| * lag;
    }
  }

  ghost function Waiting<T>(s: Cpu<T>, v: nat): nat {
    Lag(s.current.key, v) + Rank(s.queue, v)
  }

  /** While e waits, every tick brings it nearer. */
  lemma TickNearer<T>(s: Cpu<T>, weight: map<T, nat>, e: Entry<T>)
    requires Picked(s) && Weighted(s, weight) && e in s.queue
    ensures Tick(s, weight).current == e || e in Tick(s, weight).queue
    ensures Waiting(Tick(s, weight), e.key) < Waiting(s, e.key)
  {
    CurrentIsLeast(s);
    var x := Charged(s, weight);
    var q := Insert(s.queue, x);
    InsertMembers(s.queue, x, e);
    RankInsert(s.queue, x, e.key);
    assert q == [q[0]] + q[1..];
  }

  /** A ready task runs within as many ticks as the others can still be ahead of it. */
  lemma {:induction false} PickedInTime<T>(s: Cpu<T>, weight: map<T, nat>, e: Entry<T>) returns (n: nat)
    requires Picked(s) && Weighted(s, weight) && e in s.queue
    ensures 1 <= n <= Waiting(s, e.key) && Run(s, weight, n).current == e
    decreases Waiting(s, e.key)
  {
    hide Picked, Weighted, Tick, Waiting;
    TickKeeps(s, weight);
    TickNearer(s, weight, e);
    var s' := Tick(s, weight);
    if s'.current == e {
      n := 1;
      assert Run(s', weight, 0) == s';
    } else {
      n := PickedInTime(s', weight, e);
      n := n + 1;
    }
  }

  /** In numbers: with n runnable tasks whose vruntimes lie within `width`, the wait is at most
      n * (width + 1) ticks. */
  lemma WaitingBound<T>(s: Cpu<T>, e: Entry<T>, width: nat)
    requires Picked(s) && e in s.queue && Within(s, width)
    ensures Waiting(s, e.key) <= (|s.queue| + 1) * (width + 1)
  {
    CurrentIsLeast(s);
    RankBound(s.queue, e.key, width + 1);
    assert (|s.queue| + 1) * (width + 1) == |s.queue| * (width + 1) + (width + 1);
  }

  /** So no ready task starves. */
  lemma NoStarvation<T>(s: Cpu<T>, weight: map<T, nat>, e: Entry<T>, width: nat) returns (n: nat)
    requires Picked(s) && Weighted(s, weight) && e in s.queue && Within(s, width)
    ensures 1 <= n <= (|s.queue| + 1) * (width + 1) && Run(s, weight, n).current == e
  {
    n := PickedInTime(s, weight, e);
    WaitingBound(s, e, width);
  }
}
