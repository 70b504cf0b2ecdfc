/** The 512-bucket timer wheel of kernel/task/scheduler.cpp:92-238.

    `asleep` gives every task on the wheel and its deadline; `buckets` gives the order in
    which each bucket links them. */
module TimerWheels {
  import opened Basics
  import opened RbShape
  import opened TaskModel
  import opened RunQueues
  import Q = StableQueue

  const TIMER_WHEEL_SIZE: nat := 512

  /** The tasks of b are linked through NextSleepQueue, from `head` up to `end`. */
  ghost predicate Chain(head: Task?, b: seq<Task>, end: Task?)
    reads b`NextSleepQueue
  {
    if b == [] then head == end else head == b[0] && Chain(b[0].NextSleepQueue, b[1..], end)
  }

  lemma {:induction false} ChainAppend(head: Task?, a: seq<Task>, b: seq<Task>, end: Task?)
    decreases a
    ensures Chain(head, a + b, end) <==>
      Chain(head, a, if b == [] then end else b[0]) && Chain(if b == [] then end else b[0], b, end)
  {
    if a == [] {
      assert a + b == b;
    } else {
      assert (a + b)[1..] == a[1..] + b;
      ChainAppend(a[0].NextSleepQueue, a[1..], b, end);
    }
  }

  /** Bucket i holds sleepers with a deadline for it, each once. */
  ghost predicate Slot(asleep: map<Task, nat>, buckets: seq<seq<Task>>, i: nat)
    requires i < |buckets|
  {
    NoDuplicates(buckets[i]) && forall t <- buckets[i] :: t in asleep && asleep[t] % TIMER_WHEEL_SIZE == i && asleep[t] != 0
  }

  /** The wheel as a value: every sleeping task is in the bucket of its deadline, once. */
  ghost predicate Shape(asleep: map<Task, nat>, buckets: seq<seq<Task>>) {
    && |buckets| == TIMER_WHEEL_SIZE
    && (forall i :: 0 <= i < TIMER_WHEEL_SIZE ==> Slot(asleep, buckets, i))
    && (forall t <- asleep :: t in buckets[asleep[t] % TIMER_WHEEL_SIZE])
  }

  lemma ShapePush(m: map<Task, nat>, b: seq<seq<Task>>, t: Task, d: nat)
    requires Shape(m, b) && t !in m && d != 0
    ensures Shape(m[t := d], b[d % TIMER_WHEEL_SIZE := [t] + b[d % TIMER_WHEEL_SIZE]])
  {
    var m', b' := m[t := d], b[d % TIMER_WHEEL_SIZE := [t] + b[d % TIMER_WHEEL_SIZE]];
    forall i | 0 <= i < TIMER_WHEEL_SIZE ensures Slot(m', b', i) {
      assert Slot(m, b, i);
    }
  }

  /** The tick from which a check at `now` scans, when `last` was the previous one. */
  function StartTick(last: nat, now: nat): nat {
    if now - last > TIMER_WHEEL_SIZE then now - TIMER_WHEEL_SIZE + 1 else last + 1
  }

  lemma WheelSize()
    ensures TIMER_WHEEL_SIZE == 512
  {
  }

  lemma StartsAt(last: nat, now: nat)
    ensures StartTick(last, now) == if now - last > TIMER_WHEEL_SIZE then now - TIMER_WHEEL_SIZE + 1 else last + 1
  {
  }

  /** Some tick from `from` to `now` falls into bucket i. */
  predicate Scanned(i: nat, from: nat, now: nat) {
    exists tick :: from <= tick <= now && tick % TIMER_WHEEL_SIZE == i
  }

  /** Whether a check at `now` wakes a task with this deadline. */
  predicate Wakes(deadline: nat, last: nat, now: nat) {
    last < now && deadline <= now && Scanned(deadline % TIMER_WHEEL_SIZE, StartTick(last, now), now)
  }

  /** However many ticks were skipped, a deadline after the previous check is met exactly. */
  lemma WakesExactly(deadline: nat, last: nat, now: nat)
    requires last < deadline
    ensures Wakes(deadline, last, now) <==> deadline <= now
  {
    if deadline <= now {
      var from := StartTick(last, now);
      if from <= deadline {
        assert from <= deadline <= now && deadline % TIMER_WHEEL_SIZE == deadline % TIMER_WHEEL_SIZE;
      } else {
        FullTurn(deadline % TIMER_WHEEL_SIZE, now);
      }
    }
  }

  /** A whole turn of the wheel reaches every bucket. */
  lemma FullTurn(i: nat, now: nat)
    requires i < TIMER_WHEEL_SIZE <= now
    ensures Scanned(i, now - TIMER_WHEEL_SIZE + 1, now)
  {
    var r := now % TIMER_WHEEL_SIZE;
    var tick := if i <= r then now - r + i else now - r + i - TIMER_WHEEL_SIZE;
    assert tick % TIMER_WHEEL_SIZE == i;
  }

  /** A deadline that had already passed at the previous check is overlooked until the wheel
      comes round to it: it is met exactly by the checks that take in a whole number of turns
      after it. */
  lemma LateDeadline(deadline: nat, last: nat, now: nat)
    requires deadline <= last < now
    ensures Wakes(deadline, last, now) <==> (last - deadline) / TIMER_WHEEL_SIZE < (now - deadline) / TIMER_WHEEL_SIZE
  {
    if (last - deadline) / TIMER_WHEEL_SIZE < (now - deadline) / TIMER_WHEEL_SIZE {
      LateMet(deadline, last, now);
    }
    if Wakes(deadline, last, now) {
      var tick :| StartTick(last, now) <= tick <= now && tick % TIMER_WHEEL_SIZE == deadline % TIMER_WHEEL_SIZE;
      Turns(deadline, last, now, tick);
    }
  }

  lemma LateMet(deadline: nat, last: nat, now: nat)
    requires deadline <= last < now && (last - deadline) / TIMER_WHEEL_SIZE < (now - deadline) / TIMER_WHEEL_SIZE
    ensures Wakes(deadline, last, now)
  {
    if now - last > TIMER_WHEEL_SIZE {
      FullTurn(deadline % TIMER_WHEEL_SIZE, now);
    } else {
      var tick := deadline + (now - deadline) / TIMER_WHEEL_SIZE * TIMER_WHEEL_SIZE;
      assert last < tick <= now && tick % TIMER_WHEEL_SIZE == deadline % TIMER_WHEEL_SIZE;
    }
  }

  /** Two ticks of one bucket are whole turns apart. */
  lemma Turns(deadline: nat, last: nat, now: nat, tick: nat)
    requires deadline <= last < tick <= now && tick % TIMER_WHEEL_SIZE == deadline % TIMER_WHEEL_SIZE
    ensures (last - deadline) / TIMER_WHEEL_SIZE < (now - deadline) / TIMER_WHEEL_SIZE
  {
    var turns := tick / TIMER_WHEEL_SIZE - deadline / TIMER_WHEEL_SIZE;
    assert tick - deadline == turns * TIMER_WHEEL_SIZE;
  }

  /** So a sleep that ends in the present tick is not noticed at the next one. */
  lemma OverlookedOnce(now: nat)
    ensures !Wakes(now, now, now + 1) && Wakes(now, now, now + TIMER_WHEEL_SIZE)
  {
    LateDeadline(now, now, now + 1);
    LateDeadline(now, now, now + TIMER_WHEEL_SIZE);
  }

  /** The vruntime a sleeper wakes with. */
  function WakeKey(minVRuntime: nat): nat {
    if minVRuntime > 10 then minVRuntime - 10 else minVRuntime
  }

  const SEARCH_LIMIT: nat := 100
  const NO_WAKEUP: nat := 0xFFFF_FFFF_FFFF_FFFF

  /** How many ticks have been searched when the answer is dist. */
  function Searched(dist: nat): nat {
    if dist < SEARCH_LIMIT then dist else SEARCH_LIMIT
  }

  /** Some sleeper is due at the tick, and in the tick's bucket. */
  ghost predicate DueAt(asleep: map<Task, nat>, tick: nat) {
    exists t :: t in asleep && asleep[t] <= tick && asleep[t] % TIMER_WHEEL_SIZE == tick % TIMER_WHEEL_SIZE
  }

  /** While no deadline has been missed, the answer of GetDistToNextWakeup is the distance to
      the earliest deadline. */
  lemma DistanceIsExact(asleep: map<Task, nat>, now: nat, dist: nat)
    requires forall t <- asleep :: now <= asleep[t]
    requires dist < SEARCH_LIMIT ==> DueAt(asleep, now + dist)
    requires forall tick :: now <= tick < now + Searched(dist) ==> !DueAt(asleep, tick)
    ensures dist < SEARCH_LIMIT ==> exists t :: t in asleep && asleep[t] == now + dist
    ensures forall t <- asleep :: now + Searched(dist) <= asleep[t]
  {
    forall t | t in asleep ensures now + Searched(dist) <= asleep[t] {
      assert DueAt(asleep, asleep[t]);
    }
    if dist < SEARCH_LIMIT {
      var t :| t in asleep && asleep[t] <= now + dist && asleep[t] % TIMER_WHEEL_SIZE == (now + dist) % TIMER_WHEEL_SIZE;
      SameResidue(asleep[t], now + dist);
    }
  }

  lemma SameResidue(a: nat, b: nat)
    requires a <= b < a + TIMER_WHEEL_SIZE && a % TIMER_WHEEL_SIZE == b % TIMER_WHEEL_SIZE
    ensures a == b
  {
  }

  class TimerWheel {
    const rq: RunQueue
    const SleepWheel: array<Task?>
    var TotalSleepingTasks: nat
    var LastCheckedTick: nat
    ghost var asleep: map<Task, nat>
    ghost var buckets: seq<seq<Task>>

    constructor (rq: RunQueue)
      ensures this.rq == rq && Valid() && asleep == map[] && LastCheckedTick == 0 && fresh(SleepWheel)
    {
      this.rq := rq;
      SleepWheel := new Task?[TIMER_WHEEL_SIZE](_ => null);
      TotalSleepingTasks, LastCheckedTick := 0, 0;
      asleep := map[];
      buckets := seq(TIMER_WHEEL_SIZE, _ => []);
    }

    ghost predicate Valid()
      reads this`TotalSleepingTasks, this`asleep, this`buckets, SleepWheel, asleep.Keys`NextSleepQueue
      reads asleep.Keys`SleepTick
    {
      && SleepWheel.Length == TIMER_WHEEL_SIZE
      && TotalSleepingTasks == |asleep|
      && Shape(asleep, buckets)
      && (forall t <- asleep :: t.SleepTick == asleep[t])
      && (forall i :: 0 <= i < TIMER_WHEEL_SIZE ==> Slot(asleep, buckets, i) && Chain(SleepWheel[i], buckets[i], null))
    }

    /** AddToSleepList, with its defensive scan for a task that is already there. */
    method AddToSleepList(t: Task?)
      requires Valid()
      modifies this`TotalSleepingTasks, this`asleep, this`buckets, SleepWheel
      modifies (if t == null then {} else {t})`NextSleepQueue
      ensures Valid()
      ensures if t == null || t.SleepTick == 0 || t in old(asleep) then asleep == old(asleep)
              else asleep == old(asleep)[t := t.SleepTick]
    {
      if t == null { return; }
      if t.SleepTick == 0 { return; }
      for i := 0 to TIMER_WHEEL_SIZE
        invariant Valid() && asleep == old(asleep) && buckets == old(buckets)
        invariant forall k :: 0 <= k < i ==> t !in buckets[k]
      {
        var it := SleepWheel[i];
        ghost var j := 0;
        while it != null
          invariant 0 <= j <= |buckets[i]| && Chain(it, buckets[i][j..], null)
          invariant t !in buckets[i][..j]
          decreases |buckets[i]| - j
        {
          if it == t {
            assert Slot(asleep, buckets, i) && t in buckets[i];
            return;
          }
          it := it.NextSleepQueue;
          j := j + 1;
        }
      }
      assert t !in asleep;
      Push(t, t.SleepTick % TIMER_WHEEL_SIZE);
    }

    /** The insertion at the head of a bucket. */
    method Push(t: Task, index: nat)
      requires Valid() && t !in asleep && t.SleepTick != 0 && index == t.SleepTick % TIMER_WHEEL_SIZE
      modifies this`TotalSleepingTasks, this`asleep, this`buckets, SleepWheel, t`NextSleepQueue
      ensures asleep == old(asleep)[t := t.SleepTick]
      ensures Valid()
    {
      ghost var m, b := asleep, buckets;
      NoBucket(m, b, t);
      Recount(TotalSleepingTasks + 1, m[t := t.SleepTick], b[index := [t] + b[index]]);
      PushChains(t, index, b);
      Pushed(t, m, b);
    }

    lemma Pushed(t: Task, m: map<Task, nat>, b: seq<seq<Task>>)
      requires SleepWheel.Length == TIMER_WHEEL_SIZE && Shape(m, b) && t !in m && t.SleepTick != 0
      requires asleep == m[t := t.SleepTick] && TotalSleepingTasks == |m| + 1
      requires forall x <- m :: x.SleepTick == m[x]
      requires var i := t.SleepTick % TIMER_WHEEL_SIZE; buckets == b[i := [t] + b[i]]
      requires forall i :: 0 <= i < TIMER_WHEEL_SIZE ==> Chain(SleepWheel[i], buckets[i], null)
      ensures Valid()
    {
      ShapePush(m, b, t, t.SleepTick);
      forall i | 0 <= i < TIMER_WHEEL_SIZE ensures Slot(asleep, buckets, i) && Chain(SleepWheel[i], buckets[i], null) {}
    }

    /** The pointers of an insertion at the head of a bucket. */
    method PushChains(t: Task, index: nat, ghost b: seq<seq<Task>>)
      requires SleepWheel.Length == TIMER_WHEEL_SIZE == |b| && index < TIMER_WHEEL_SIZE
      requires forall i :: 0 <= i < TIMER_WHEEL_SIZE ==> Chain(SleepWheel[i], b[i], null)
      requires forall i :: 0 <= i < TIMER_WHEEL_SIZE ==> t !in b[i]
      requires buckets == b[index := [t] + b[index]]
      modifies SleepWheel, t`NextSleepQueue
      ensures forall i :: 0 <= i < TIMER_WHEEL_SIZE ==> Chain(SleepWheel[i], buckets[i], null)
    {
      ghost var heads := SleepWheel[..];
      t.NextSleepQueue := SleepWheel[index];
      SleepWheel[index] := t;
      forall i | 0 <= i < TIMER_WHEEL_SIZE ensures Chain(SleepWheel[i], buckets[i], null) {
        assert Chain(heads[i], b[i], null);
        assert i == index ==> buckets[i][1..] == b[i];
      }
    }

    /** Pointing prev at `next` joins what comes before prev to what comes from next on. */
    method SetNext(prev: Task, next: Task?, ghost head: Task?, ghost k: seq<Task>, ghost r: seq<Task>)
      requires Chain(head, k, prev) && Chain(next, r, null) && prev !in k && prev !in r
      modifies prev`NextSleepQueue
      ensures Chain(head, k + [prev] + r, null)
    {
      prev.NextSleepQueue := next;
      assert ([prev] + r)[1..] == r;
      assert Chain(prev, [prev] + r, null);
      ChainAppend(head, k, [prev] + r, null);
      assert k + ([prev] + r) == k + [prev] + r;
    }

    /** What a chain says around the task t that follows its part k. */
    lemma PopParts(head: Task?, k: seq<Task>, t: Task, r: seq<Task>)
      requires Chain(head, k + [t] + r, null) && NoDuplicates(k + [t] + r)
      ensures Chain(t.NextSleepQueue, r, null) && t !in k && t !in r
      ensures k == [] ==> head == t
      ensures k != [] ==>
        var prev := k[|k| - 1]; Chain(head, k[..|k| - 1], prev) && prev !in k[..|k| - 1] && prev !in r && prev != t
    {
      MiddleDistinct(k, t, r);
      assert k + ([t] + r) == k + [t] + r && ([t] + r)[1..] == r;
      ChainAppend(head, k, [t] + r, null);
      if k != [] {
        var k', prev := k[..|k| - 1], k[|k| - 1];
        assert k' + [prev] + ([t] + r) == k + [t] + r && k' + ([prev] + ([t] + r)) == k + [t] + r;
        ChainAppend(head, k', [prev] + ([t] + r), null);
        MiddleDistinct(k', prev, [t] + r);
      }
    }

    /** The pointers of unlinking the task after the kept part k of a bucket. */
    method PopChains(t: Task, prev: Task?, index: nat, ghost b: seq<seq<Task>>, ghost k: seq<Task>, ghost r: seq<Task>)
      requires SleepWheel.Length == TIMER_WHEEL_SIZE == |b| && index < TIMER_WHEEL_SIZE
      requires forall i :: 0 <= i < TIMER_WHEEL_SIZE ==> Chain(SleepWheel[i], b[i], null)
      requires b[index] == k + [t] + r && NoDuplicates(b[index])
      requires prev == if k == [] then null else k[|k| - 1]
      requires forall i :: 0 <= i < TIMER_WHEEL_SIZE && i != index ==> t !in b[i] && (prev != null ==> prev !in b[i])
      requires buckets == b[index := k + r]
      modifies SleepWheel, t`NextSleepQueue, t`SleepTick, (if prev == null then {} else {prev})`NextSleepQueue
      ensures forall i :: 0 <= i < TIMER_WHEEL_SIZE ==> Chain(SleepWheel[i], buckets[i], null)
      ensures t.NextSleepQueue == null && t.SleepTick == 0
    {
      hide NoDuplicates;
      ghost var heads := SleepWheel[..];
      PopParts(heads[index], k, t, r);
      var next := t.NextSleepQueue;
      if prev != null {
        SetNext(prev, next, heads[index], k[..|k| - 1], r);
        assert k[..|k| - 1] + [prev] + r == k + r;
      } else {
        SleepWheel[index] := next;
        assert k + r == r;
      }
      t.NextSleepQueue := null;
      t.SleepTick := 0;
      forall i | 0 <= i < TIMER_WHEEL_SIZE && i != index ensures Chain(SleepWheel[i], buckets[i], null) {
        assert Chain(heads[i], b[i], null);
      }
    }

    method Recount(n: nat, ghost m: map<Task, nat>, ghost b: seq<seq<Task>>)
      modifies this`TotalSleepingTasks, this`asleep, this`buckets
      ensures TotalSleepingTasks == n && asleep == m && buckets == b
    {
      TotalSleepingTasks, asleep, buckets := n, m, b;
    }

    /** Taking one task off the wheel. */
    method Unlink(t: Task, prev: Task?, index: nat, ghost k: seq<Task>, ghost r: seq<Task>)
      requires Valid() && index < TIMER_WHEEL_SIZE && buckets[index] == k + [t] + r
      requires prev == if k == [] then null else k[|k| - 1]
      modifies this`TotalSleepingTasks, this`asleep, this`buckets, SleepWheel
      modifies t`NextSleepQueue, t`SleepTick, (if prev == null then {} else {prev})`NextSleepQueue
      ensures buckets == old(buckets)[index := k + r] && asleep == old(asleep) - {t}
      ensures Valid()
      ensures t.NextSleepQueue == null && t.SleepTick == 0
    {
      ghost var m, b := asleep, buckets;
      PopReady(t, prev, index, k, r);
      Recount(TotalSleepingTasks - 1, m - {t}, b[index := k + r]);
      PopChains(t, prev, index, b, k, r);
      Unlinked(t, m, b, index, k, r);
    }

    lemma PopReady(t: Task, prev: Task?, index: nat, k: seq<Task>, r: seq<Task>)
      requires Valid() && index < TIMER_WHEEL_SIZE && buckets[index] == k + [t] + r
      requires prev == if k == [] then null else k[|k| - 1]
      ensures NoDuplicates(buckets[index]) && t in asleep && (prev != null ==> prev in asleep)
      ensures forall i ::
        0 <= i < TIMER_WHEEL_SIZE && i != index ==> t !in buckets[i] && (prev != null ==> prev !in buckets[i])
      ensures forall i :: 0 <= i < TIMER_WHEEL_SIZE ==> Chain(SleepWheel[i], buckets[i], null)
    {
      assert t in buckets[index] && Slot(asleep, buckets, index);
      OneBucket(asleep, buckets, t, index);
      if prev != null { OneBucket(asleep, buckets, prev, index); }
    }

    lemma Unlinked(t: Task, m: map<Task, nat>, b: seq<seq<Task>>, index: nat, k: seq<Task>, r: seq<Task>)
      requires SleepWheel.Length == TIMER_WHEEL_SIZE && Shape(m, b) && index < TIMER_WHEEL_SIZE
      requires b[index] == k + [t] + r
      requires asleep == m - {t} && TotalSleepingTasks == |m| - 1 && buckets == b[index := k + r]
      requires forall x <- m :: x != t ==> x.SleepTick == m[x]
      requires forall i :: 0 <= i < TIMER_WHEEL_SIZE ==> Chain(SleepWheel[i], buckets[i], null)
      ensures Valid()
    {
      ShapePop(m, b, t, index, k, r);
      assert t in b[index];
      OneBucket(m, b, t, index);
      assert m.Keys == asleep.Keys + {t};
      forall i | 0 <= i < TIMER_WHEEL_SIZE ensures Slot(asleep, buckets, i) && Chain(SleepWheel[i], buckets[i], null) {}
    }

    /** What a woken task is given before it joins the run queue. */
    method Wake(t: Task)
      requires rq.Valid() && t !in rq.tasks && t.pid != PID_IDLE
      modifies t`State, t`vruntime, t`RbtLeft, t`RbtRight, t`RbtParent, t`Color
      modifies rq`CFSLeftmost, rq`ForceReschedule, rq`tasks, rq.rbt`Root, rq.rbt`tree
      modifies rq.tasks`RbtLeft, rq.tasks`RbtRight, rq.tasks`RbtParent, rq.tasks`Color
      ensures rq.Valid() && rq.Queue() == Q.Insert(old(rq.Queue()), Q.Entry(t, WakeKey(rq.MinVRuntime)))
      ensures t.State == READY && t.vruntime == WakeKey(rq.MinVRuntime)
      ensures if rq.MinVRuntime > 10 then t.vruntime + 10 == rq.MinVRuntime else t.vruntime == rq.MinVRuntime
      ensures forall x :: x in rq.tasks <==> x in old(rq.tasks) || x == t
    {
      hide RunQueue.Valid, RunQueue.Queue;
      t.State := READY;
      t.vruntime := if rq.MinVRuntime > 10 then rq.MinVRuntime - 10 else rq.MinVRuntime;
      assert rq.Valid() == old(rq.Valid()) && rq.Queue() == old(rq.Queue());
      rq.CFSEnqueue(t);
    }

    /** No sleeper is in the run queue or is the idle task. */
    ghost predicate Apart()
      reads this`asleep, rq`tasks
    {
      forall t <- asleep :: t !in rq.tasks && t.pid != PID_IDLE
    }

    /** One wakeup of the inner loop of CheckSleepingTasks. */
    method WakeOne(t: Task, prev: Task?, index: nat, ghost k: seq<Task>, ghost r: seq<Task>)
      requires Valid() && rq.Valid() && Apart() && index < TIMER_WHEEL_SIZE && buckets[index] == k + [t] + r
      requires prev == if k == [] then null else k[|k| - 1]
      requires t in asleep && (prev != null ==> prev in asleep)
      modifies this`TotalSleepingTasks, this`asleep, this`buckets, SleepWheel
      modifies t`NextSleepQueue, t`SleepTick, (if prev == null then {} else {prev})`NextSleepQueue
      modifies t`State, t`vruntime, t`RbtLeft, t`RbtRight, t`RbtParent, t`Color
      modifies rq`CFSLeftmost, rq`ForceReschedule, rq`tasks, rq.rbt`Root, rq.rbt`tree
      modifies rq.tasks`RbtLeft, rq.tasks`RbtRight, rq.tasks`RbtParent, rq.tasks`Color
      ensures Valid()
      ensures rq.Valid()
      ensures Apart()
      ensures buckets == old(buckets)[index := k + r] && asleep == old(asleep) - {t}
      ensures rq.Queue() == Q.Insert(old(rq.Queue()), Q.Entry(t, WakeKey(rq.MinVRuntime)))
      ensures forall x :: x in rq.tasks <==> x in old(rq.tasks) || x == t
      ensures Woken(t)
    {
      hide *;
      ApartIs();
      Unlink(t, prev, index, k, r);
      assert rq.Valid() == old(rq.Valid()) && rq.Queue() == old(rq.Queue());
      Wake(t);
      ApartIs();
      WokenIs(t);
    }

    /** How a sleeper is left that has been woken: off the wheel, ready, and 10 ahead of the least
        vruntime that has run, or level with it. */
    ghost predicate Woken(t: Task)
      reads t`NextSleepQueue, t`SleepTick, t`State, t`vruntime, rq`MinVRuntime
    {
      && t.NextSleepQueue == null && t.SleepTick == 0 && t.State == READY
      && if rq.MinVRuntime > 10 then t.vruntime + 10 == rq.MinVRuntime else t.vruntime == rq.MinVRuntime
    }

    lemma ReadyWoken(t: Task)
      requires Woken(t)
      ensures t.State == READY
    {
    }

    lemma WokenIs(t: Task)
      requires t.NextSleepQueue == null && t.SleepTick == 0 && t.State == READY
      requires if rq.MinVRuntime > 10 then t.vruntime + 10 == rq.MinVRuntime else t.vruntime == rq.MinVRuntime
      ensures Woken(t)
    {
    }

    /** A woken task stands before every task whose vruntime has reached MinVRuntime, if that is
        above 10. */
    lemma WokenFirst(i: nat, j: nat)
      requires rq.Valid() && i < |rq.tasks| && j < |rq.tasks| && Woken(rq.tasks[i])
      requires 10 < rq.MinVRuntime <= rq.tasks[j].vruntime
      ensures i < j
    {
      if j < i { rq.SortedAt(rq.tasks, j, i); }
    }

    lemma ApartIs()
      ensures Apart() <==> forall t <- asleep :: t !in rq.tasks && t.pid != PID_IDLE
    {
    }

    /** What the wheel says about the task at hand in a bucket. */
    lemma LookBucket(index: nat, k: seq<Task>, r: seq<Task>)
      requires Valid() && index < TIMER_WHEEL_SIZE && buckets[index] == k + r
      ensures Chain(if r == [] then null else r[0], r, null)
      ensures (k == [] ==> SleepWheel[index] == if r == [] then null else r[0])
      ensures SleepWheel.Length == TIMER_WHEEL_SIZE == |buckets|
      ensures r != [] ==> r[0].NextSleepQueue == if |r| == 1 then null else r[1]
      ensures forall x <- k :: x in asleep
      ensures forall x <- r :: x in asleep && asleep[x] == x.SleepTick
    {
      ChainAppend(SleepWheel[index], k, r, null);
      assert Slot(asleep, buckets, index);
      assert forall x <- k :: x in k + r;
      assert forall x <- r :: x in k + r;
    }

    /** The invariant of the inner loop of CheckSleepingTasks: of the bucket as it was, `done`
        has been looked at, k of it kept, and r is still to come, from t on. */
    ghost predicate Draining(index: nat, now: nat, t: Task?, prev: Task?, k: seq<Task>, r: seq<Task>, done: seq<Task>,
                             m: map<Task, nat>, q: Entries, tasks: seq<Task>, b: seq<seq<Task>>)
      reads this`TotalSleepingTasks, this`asleep, this`buckets, SleepWheel, asleep.Keys`NextSleepQueue
      reads asleep.Keys`SleepTick
      reads rq`CFSLeftmost, rq`tasks, rq`MinVRuntime, rq.rbt`Root, rq.rbt`tree, rq.tasks`vruntime
      reads rq.tasks`RbtLeft, rq.tasks`RbtRight, rq.tasks`RbtParent, rq.tasks`Color
    {
      && Valid() && rq.Valid() && Apart()
      && index < |b| == TIMER_WHEEL_SIZE && buckets == b[index := k + r] && b[index] == done + r
      && t == (if r == [] then null else r[0])
      && prev == (if k == [] then null else k[|k| - 1])
      && asleep == Staying(m, done, now)
      && (forall x <- rq.tasks :: x in tasks || x in m)
      && Grown(q, rq.Queue(), m, done, now, rq.MinVRuntime)
    }

    /** One iteration of the inner loop of CheckSleepingTasks. */
    method DrainStep(index: nat, Now: nat, t0: Task, prev0: Task?, ghost k0: seq<Task>, ghost r0: seq<Task>,
                     ghost done0: seq<Task>,
                     ghost m: map<Task, nat>, ghost q: Entries, ghost tasks: seq<Task>, ghost b: seq<seq<Task>>)
      returns (t: Task?, prev: Task?, ghost k: seq<Task>, ghost r: seq<Task>, ghost done: seq<Task>)
      requires Draining(index, Now, t0, prev0, k0, r0, done0, m, q, tasks, b)
      modifies this`TotalSleepingTasks, this`asleep, this`buckets, SleepWheel
      modifies asleep.Keys`NextSleepQueue, asleep.Keys`SleepTick, asleep.Keys`State, asleep.Keys`vruntime
      modifies asleep.Keys`RbtLeft, asleep.Keys`RbtRight, asleep.Keys`RbtParent, asleep.Keys`Color
      modifies rq`CFSLeftmost, rq`ForceReschedule, rq`tasks, rq.rbt`Root, rq.rbt`tree
      modifies rq.tasks`RbtLeft, rq.tasks`RbtRight, rq.tasks`RbtParent, rq.tasks`Color
      ensures Draining(index, Now, t, prev, k, r, done, m, q, tasks, b)
      ensures asleep.Keys <= old(asleep.Keys) && |r| < |r0|
      ensures forall x <- rq.tasks :: x in old(rq.tasks) || x in old(asleep)
      ensures forall x <- old(asleep) :: if x in asleep then x.State == old(x.State) else Woken(x)
    {
      hide Valid, RunQueue.Valid, RunQueue.Queue, Chain, Staying, Grown, Woken;
      t, prev, k := t0, prev0, k0;
      LookBucket(index, k, r0);
      assert t in r0;
      StepDone(m, done0, t, Now, q, rq.Queue(), rq.MinVRuntime);
      assert done0 + r0 == done0 + [r0[0]] + r0[1..];
      if Now >= t.SleepTick {
        var next := t.NextSleepQueue;
        WakeOne(t, prev, index, k, r0[1..]);
        t := next;
      } else {
        prev := t;
        assert k + r0 == k + [t] + r0[1..];
        k := k + [t];
        t := t.NextSleepQueue;
      }
      done, r := done0 + [r0[0]], r0[1..];
      assert b[index := k0 + r0][index := k + r] == b[index := k + r];
    }

    /** The inner loop of CheckSleepingTasks: wakes the tasks of one bucket that are due. */
    method DrainBucket(index: nat, Now: nat)
      requires Valid() && rq.Valid() && Apart() && index < TIMER_WHEEL_SIZE
      modifies this`TotalSleepingTasks, this`asleep, this`buckets, SleepWheel
      modifies asleep.Keys`NextSleepQueue, asleep.Keys`SleepTick, asleep.Keys`State, asleep.Keys`vruntime
      modifies asleep.Keys`RbtLeft, asleep.Keys`RbtRight, asleep.Keys`RbtParent, asleep.Keys`Color
      modifies rq`CFSLeftmost, rq`ForceReschedule, rq`tasks, rq.rbt`Root, rq.rbt`tree
      modifies rq.tasks`RbtLeft, rq.tasks`RbtRight, rq.tasks`RbtParent, rq.tasks`Color
      ensures Valid() && rq.Valid() && Apart()
      ensures asleep == Staying(old(asleep), old(buckets[index]), Now)
      ensures forall x <- rq.tasks :: x in old(rq.tasks) || x in old(asleep)
      ensures Grown(old(rq.Queue()), rq.Queue(), old(asleep), old(buckets[index]), Now, rq.MinVRuntime)
      ensures |buckets| == TIMER_WHEEL_SIZE
      ensures forall i :: 0 <= i < TIMER_WHEEL_SIZE && i != index ==> buckets[i] == old(buckets[i])
      ensures forall x <- old(asleep) :: if x in asleep then x.State == old(x.State) else Woken(x)
    {
      hide *;
      StartDraining(index, Now);
      ghost var m, q, tasks, b := asleep, rq.Queue(), rq.tasks, buckets;
      ghost var k: seq<Task>, r: seq<Task>, done: seq<Task> := [], b[index], [];
      var prev: Task? := null;
      var t := SleepWheel[index];
      while t != null
        invariant Draining(index, Now, t, prev, k, r, done, m, q, tasks, b)
        invariant asleep.Keys <= m.Keys
        invariant forall x <- rq.tasks :: x in tasks || x in m
        invariant forall x <- m :: if x in asleep then x.State == old(x.State) else Woken(x)
        decreases |r|
      {
        t, prev, k, r, done := DrainStep(index, Now, t, prev, k, r, done, m, q, tasks, b);
      }
      Drained(index, Now, prev, k, r, done, m, q, tasks, b);
    }

    lemma StartDraining(index: nat, now: nat)
      requires Valid() && rq.Valid() && Apart() && index < TIMER_WHEEL_SIZE
      ensures SleepWheel.Length == TIMER_WHEEL_SIZE == |buckets|
      ensures Draining(index, now, SleepWheel[index], null, [], buckets[index], [], asleep, rq.Queue(), rq.tasks, buckets)
    {
      hide RunQueue.Valid, Staying, Grown;
      var r := buckets[index];
      LookBucket(index, [], r);
      NothingDone(asleep, rq.Queue(), now, rq.MinVRuntime);
      assert [] + r == r && buckets[index := r] == buckets;
    }

    lemma Drained(index: nat, now: nat, prev: Task?, k: seq<Task>, r: seq<Task>, done: seq<Task>,
                  m: map<Task, nat>, q: Entries, tasks: seq<Task>, b: seq<seq<Task>>)
      requires Draining(index, now, null, prev, k, r, done, m, q, tasks, b)
      ensures Valid() && rq.Valid() && Apart() && asleep == Staying(m, b[index], now)
      ensures Grown(q, rq.Queue(), m, b[index], now, rq.MinVRuntime)
      ensures |buckets| == TIMER_WHEEL_SIZE
      ensures forall i :: 0 <= i < TIMER_WHEEL_SIZE && i != index ==> buckets[i] == b[i]
    {
      assert r == [] && done == b[index];
    }

    /** The sleepers of bucket i. */
    lemma InBucket(i: nat)
      requires Valid() && i < TIMER_WHEEL_SIZE
      ensures |buckets| == TIMER_WHEEL_SIZE
      ensures forall t :: t in buckets[i] <==> t in asleep && asleep[t] % TIMER_WHEEL_SIZE == i
    {
      assert Slot(asleep, buckets, i);
    }

    /** The invariant of the outer loop of CheckSleepingTasks: the buckets of the ticks from
        `from` up to `upto` have been drained. */
    ghost predicate Scanning(m: map<Task, nat>, q: Entries, tasks: seq<Task>, from: nat, upto: nat, now: nat)
      reads this`TotalSleepingTasks, this`asleep, this`buckets, SleepWheel, asleep.Keys`NextSleepQueue
      reads asleep.Keys`SleepTick
      reads rq`CFSLeftmost, rq`tasks, rq`MinVRuntime, rq.rbt`Root, rq.rbt`tree, rq.tasks`vruntime
      reads rq.tasks`RbtLeft, rq.tasks`RbtRight, rq.tasks`RbtParent, rq.tasks`Color
    {
      && Valid() && rq.Valid() && Apart()
      && asleep == m - Roused(m, from, upto, now)
      && (forall x <- rq.tasks :: x in tasks || x in m)
      && Members(rq.Queue()) == Members(q) + EntriesFor(Roused(m, from, upto, now), WakeKey(rq.MinVRuntime))
      && (Roused(m, from, upto, now) == {} ==> rq.Queue() == q)
    }

    lemma CountsSleepers()
      requires Valid()
      ensures TotalSleepingTasks == 0 <==> asleep == map[]
    {
    }

    lemma StartScanning(from: nat, now: nat)
      requires Valid() && rq.Valid() && Apart()
      ensures Scanning(asleep, rq.Queue(), rq.tasks, from, from, now)
    {
      hide Valid, RunQueue.Valid, RunQueue.Queue, Apart;
    }

    lemma OpenScanning(m: map<Task, nat>, q: Entries, tasks: seq<Task>, from: nat, upto: nat, now: nat)
      requires Scanning(m, q, tasks, from, upto, now)
      ensures Valid() && rq.Valid() && Apart() && |buckets| == TIMER_WHEEL_SIZE
      ensures asleep == m - Roused(m, from, upto, now)
      ensures Members(rq.Queue()) == Members(q) + EntriesFor(Roused(m, from, upto, now), WakeKey(rq.MinVRuntime))
      ensures Roused(m, from, upto, now) == {} ==> rq.Queue() == q
      ensures forall x <- rq.tasks :: x in tasks || x in m
    {
    }

    lemma ScanDone(m: map<Task, nat>, q: Entries, tasks: seq<Task>, last: nat, now: nat)
      requires last < now && Scanning(m, q, tasks, StartTick(last, now), now + 1, now)
      ensures Valid() && rq.Valid() && Apart()
      ensures asleep == m - Due(m, last, now)
      ensures Members(rq.Queue()) == Members(q) + EntriesFor(Due(m, last, now), WakeKey(rq.MinVRuntime))
      ensures Due(m, last, now) == {} ==> rq.Queue() == q
    {
      RousedAll(m, last, now);
    }

    lemma ScanStep(m: map<Task, nat>, q: Entries, tasks: seq<Task>, from: nat, tick: nat, now: nat,
                   m': map<Task, nat>, q': Entries, b: seq<Task>)
      requires from <= tick
      requires forall t :: t in b <==> t in m' && m'[t] % TIMER_WHEEL_SIZE == tick % TIMER_WHEEL_SIZE
      requires m' == m - Roused(m, from, tick, now)
      requires Members(q') == Members(q) + EntriesFor(Roused(m, from, tick, now), WakeKey(rq.MinVRuntime))
      requires Roused(m, from, tick, now) == {} ==> q' == q
      requires Valid() && rq.Valid() && Apart() && asleep == Staying(m', b, now)
      requires forall x <- rq.tasks :: x in tasks || x in m
      requires Grown(q', rq.Queue(), m', b, now, rq.MinVRuntime)
      ensures Scanning(m, q, tasks, from, tick + 1, now) && asleep.Keys <= m.Keys
    {
      hide Valid, RunQueue.Valid, RunQueue.Queue, Apart;
      RousedStep(m, from, tick, now);
      var r, r', key := Roused(m, from, tick, now), Roused(m, from, tick + 1, now), WakeKey(rq.MinVRuntime);
      assert forall t :: t in r' <==> t in r || (t in b && m'[t] <= now);
      var woken := WokenEntries(m', b, now, rq.MinVRuntime);
      assert EntriesFor(r', key) == EntriesFor(r, key) + woken;
      forall e | e in woken ensures e.task in r' {}
      if r' == {} {
        assert r == {};
        assert woken == {};
      }
    }

    /** One iteration of the catch-up loop. */
    method ScanBucket(currTick: nat, Now: nat, ghost m: map<Task, nat>, ghost q: Entries, ghost tasks: seq<Task>,
                      ghost from: nat)
      requires Scanning(m, q, tasks, from, currTick, Now) && from <= currTick
      modifies this`TotalSleepingTasks, this`asleep, this`buckets, SleepWheel
      modifies asleep.Keys`NextSleepQueue, asleep.Keys`SleepTick, asleep.Keys`State, asleep.Keys`vruntime
      modifies asleep.Keys`RbtLeft, asleep.Keys`RbtRight, asleep.Keys`RbtParent, asleep.Keys`Color
      modifies rq`CFSLeftmost, rq`ForceReschedule, rq`tasks, rq.rbt`Root, rq.rbt`tree
      modifies rq.tasks`RbtLeft, rq.tasks`RbtRight, rq.tasks`RbtParent, rq.tasks`Color
      ensures Scanning(m, q, tasks, from, currTick + 1, Now)
      ensures asleep.Keys <= old(asleep.Keys) && forall x <- rq.tasks :: x in old(rq.tasks) || x in old(asleep)
      ensures forall x <- old(asleep) :: if x in asleep then x.State == old(x.State) else Woken(x)
    {
      hide *;
      WheelSize();
      var index := currTick % TIMER_WHEEL_SIZE;
      OpenScanning(m, q, tasks, from, currTick, Now);
      ghost var m', q', b := asleep, rq.Queue(), buckets[index];
      InBucket(index);
      DrainBucket(index, Now);
      StayingIsLess(m', b, Now);
      ScanStep(m, q, tasks, from, currTick, Now, m', q', b);
    }

    /** The catch-up loop of CheckSleepingTasks. */
    method ScanWheel(Now: nat)
      requires Valid() && rq.Valid() && Apart() && LastCheckedTick < Now
      modifies this`TotalSleepingTasks, this`asleep, this`buckets, SleepWheel
      modifies asleep.Keys`NextSleepQueue, asleep.Keys`SleepTick, asleep.Keys`State, asleep.Keys`vruntime
      modifies asleep.Keys`RbtLeft, asleep.Keys`RbtRight, asleep.Keys`RbtParent, asleep.Keys`Color
      modifies rq`CFSLeftmost, rq`ForceReschedule, rq`tasks, rq.rbt`Root, rq.rbt`tree
      modifies rq.tasks`RbtLeft, rq.tasks`RbtRight, rq.tasks`RbtParent, rq.tasks`Color
      ensures Valid() && rq.Valid() && Apart()
      ensures asleep == old(asleep) - Due(old(asleep), LastCheckedTick, Now)
      ensures Members(rq.Queue())
           == Members(old(rq.Queue())) + EntriesFor(Due(old(asleep), LastCheckedTick, Now), WakeKey(rq.MinVRuntime))
      ensures Due(old(asleep), LastCheckedTick, Now) == {} ==> rq.Queue() == old(rq.Queue())
      ensures forall x <- rq.tasks :: x in old(rq.tasks) || x in old(asleep)
      ensures forall x <- old(asleep) :: if x in asleep then x.State == old(x.State) else Woken(x)
    {
      hide *;
      ghost var m, q, tasks := asleep, rq.Queue(), rq.tasks;
      var from := LastCheckedTick + 1;
      if Now - LastCheckedTick > TIMER_WHEEL_SIZE {
        from := Now - TIMER_WHEEL_SIZE + 1;
      }
      StartsAt(LastCheckedTick, Now);
      StartScanning(from, Now);
      for currTick := from to Now + 1
        invariant Scanning(m, q, tasks, from, currTick, Now)
        invariant asleep.Keys <= m.Keys
        invariant forall x <- rq.tasks :: x in tasks || x in m
        invariant forall x <- m :: if x in asleep then x.State == old(x.State) else Woken(x)
      {
        ScanBucket(currTick, Now, m, q, tasks, from);
      }
      ScanDone(m, q, tasks, LastCheckedTick, Now);
    }

    /** CheckSleepingTasks, when the clock stands at Now. */
    method CheckSleepingTasks(Now: nat)
      requires Valid() && rq.Valid() && Apart()
      modifies this`TotalSleepingTasks, this`asleep, this`buckets, this`LastCheckedTick, SleepWheel
      modifies asleep.Keys`NextSleepQueue, asleep.Keys`SleepTick, asleep.Keys`State, asleep.Keys`vruntime
      modifies asleep.Keys`RbtLeft, asleep.Keys`RbtRight, asleep.Keys`RbtParent, asleep.Keys`Color
      modifies rq`CFSLeftmost, rq`ForceReschedule, rq`tasks, rq.rbt`Root, rq.rbt`tree
      modifies rq.tasks`RbtLeft, rq.tasks`RbtRight, rq.tasks`RbtParent, rq.tasks`Color
      ensures Valid() && rq.Valid() && Apart()
      ensures LastCheckedTick == if old(asleep) == map[] || old(LastCheckedTick) < Now then Now
                                 else old(LastCheckedTick)
      ensures asleep == old(asleep) - Due(old(asleep), old(LastCheckedTick), Now)
      ensures Members(rq.Queue())
           == Members(old(rq.Queue())) + EntriesFor(Due(old(asleep), old(LastCheckedTick), Now), WakeKey(rq.MinVRuntime))
      ensures Due(old(asleep), old(LastCheckedTick), Now) == {} ==> rq.Queue() == old(rq.Queue())
      ensures forall x <- rq.tasks :: x in old(rq.tasks) || x in old(asleep)
      ensures forall x <- old(asleep) :: if x in asleep then x.State == old(x.State) else Woken(x)
    {
      hide *;
      var last := LastCheckedTick;
      CountsSleepers();
      if TotalSleepingTasks == 0 {
        LastCheckedTick := Now;
        NobodyDue(asleep, last, Now, WakeKey(rq.MinVRuntime));
        return;
      }
      if Now <= last {
        NobodyDue(asleep, last, Now, WakeKey(rq.MinVRuntime));
        return;
      }
      ScanWheel(Now);
      LastCheckedTick := Now;
    }

    /** GetDistToNextWakeup: the first of the next 100 ticks at which a task of its bucket is due. */
    method GetDistToNextWakeup(Now: nat) returns (dist: nat)
      requires Valid()
      ensures dist < SEARCH_LIMIT ==> DueAt(asleep, Now + dist)
      ensures forall tick :: Now <= tick < Now + Searched(dist) ==> !DueAt(asleep, tick)
      ensures dist < 100 || dist == 0xFFFF_FFFF_FFFF_FFFF
      ensures dist >= 100 ==> forall tick :: Now <= tick < Now + 100 ==> !DueAt(asleep, tick)
    {
      hide DueAt, Shape;
      for i := 0 to SEARCH_LIMIT
        invariant forall tick :: Now <= tick < Now + i ==> !DueAt(asleep, tick)
      {
        var TargetTick := Now + i;
        var found := BucketDueAt(TargetTick);
        if found {
          return i;
        }
      }
      return NO_WAKEUP;
    }

    /** The inner loop of GetDistToNextWakeup. */
    method BucketDueAt(TargetTick: nat) returns (found: bool)
      requires Valid()
      ensures found <==> DueAt(asleep, TargetTick)
    {
      var Index := TargetTick % TIMER_WHEEL_SIZE;
      InBucket(Index);
      ghost var b := buckets[Index];
      var t := SleepWheel[Index];
      ghost var j := 0;
      while t != null
        invariant 0 <= j <= |b| && Chain(t, b[j..], null)
        invariant forall x <- b[..j] :: TargetTick < x.SleepTick
        decreases |b| - j
      {
        assert t == b[j] && t in b;
        if t.SleepTick <= TargetTick {
          return true;
        }
        t := t.NextSleepQueue;
        assert b[j..][1..] == b[j + 1..];
        j := j + 1;
      }
      assert b[..j] == b;
      return false;
    }
  }

  /** The sleepers that are left when those of `done` that are due have been woken. */
  ghost function Staying(m: map<Task, nat>, done: seq<Task>, now: nat): map<Task, nat> {
    map t | t in m && !(t in done && m[t] <= now) :: m[t]
  }

  ghost function Members(q: Entries): set<Q.Entry<Task>> {
    set e <- q
  }

  /** The queue entries of the sleepers of `done` that are due. */
  ghost function WokenEntries(m: map<Task, nat>, done: seq<Task>, now: nat, minVRuntime: nat): set<Q.Entry<Task>> {
    set t | t in m && t in done && m[t] <= now :: Q.Entry(t, WakeKey(minVRuntime))
  }

  /** The queue q' holds what q held and the sleepers of `done` that are due. */
  ghost predicate Grown(q: Entries, q': Entries, m: map<Task, nat>, done: seq<Task>, now: nat, minVRuntime: nat) {
    var woken := WokenEntries(m, done, now, minVRuntime);
    Members(q') == Members(q) + woken && (woken == {} ==> q' == q)
  }

  ghost function EntriesFor(ts: set<Task>, key: nat): set<Q.Entry<Task>> {
    set t <- ts :: Q.Entry(t, key)
  }

  /** The sleepers that a scan of the ticks from `from` up to `upto` wakes. */
  ghost function Roused(m: map<Task, nat>, from: nat, upto: nat, now: nat): set<Task> {
    set t | t in m && m[t] <= now && (exists tick :: from <= tick < upto && tick % TIMER_WHEEL_SIZE == m[t] % TIMER_WHEEL_SIZE)
  }

  lemma RousedStep(m: map<Task, nat>, from: nat, tick: nat, now: nat)
    requires from <= tick
    ensures forall t <- m :: t in Roused(m, from, tick + 1, now) <==>
      t in Roused(m, from, tick, now) || (m[t] <= now && m[t] % TIMER_WHEEL_SIZE == tick % TIMER_WHEEL_SIZE)
  {
    forall t <- m ensures t in Roused(m, from, tick + 1, now) <==>
      t in Roused(m, from, tick, now) || (m[t] <= now && m[t] % TIMER_WHEEL_SIZE == tick % TIMER_WHEEL_SIZE)
    {
      if m[t] <= now && m[t] % TIMER_WHEEL_SIZE == tick % TIMER_WHEEL_SIZE {
        assert from <= tick < tick + 1 && tick % TIMER_WHEEL_SIZE == m[t] % TIMER_WHEEL_SIZE;
      }
    }
  }

  /** The sleepers that a check at `now` wakes, when `last` was the previous one. */
  ghost function Due(m: map<Task, nat>, last: nat, now: nat): set<Task> {
    set t | t in m && Wakes(m[t], last, now)
  }

  lemma NobodyDue(m: map<Task, nat>, last: nat, now: nat, key: nat)
    requires m == map[] || now <= last
    ensures Due(m, last, now) == {} && EntriesFor({}, key) == {}
  {
  }

  lemma RousedAll(m: map<Task, nat>, last: nat, now: nat)
    requires last < now
    ensures Roused(m, StartTick(last, now), now + 1, now) == Due(m, last, now)
  {
    forall t <- m ensures t in Roused(m, StartTick(last, now), now + 1, now) <==> t in Due(m, last, now) {
      var from, i := StartTick(last, now), m[t] % TIMER_WHEEL_SIZE;
      if t in Roused(m, from, now + 1, now) {
        var tick :| from <= tick < now + 1 && tick % TIMER_WHEEL_SIZE == i;
        assert from <= tick <= now && tick % TIMER_WHEEL_SIZE == i;
      }
      if t in Due(m, last, now) {
        var tick :| from <= tick <= now && tick % TIMER_WHEEL_SIZE == i;
        assert from <= tick < now + 1 && tick % TIMER_WHEEL_SIZE == i;
      }
    }
  }

  lemma StayingIsLess(m: map<Task, nat>, done: seq<Task>, now: nat)
    ensures Staying(m, done, now).Keys <= m.Keys
  {
  }

  lemma NothingDone(m: map<Task, nat>, q: Entries, now: nat, minVRuntime: nat)
    ensures Staying(m, [], now) == m && Grown(q, q, m, [], now, minVRuntime)
  {
  }

  lemma StepDone(m: map<Task, nat>, done: seq<Task>, t: Task, now: nat, q: Entries, q': Entries, minVRuntime: nat)
    requires t in Staying(m, done, now) && Grown(q, q', m, done, now, minVRuntime)
    ensures t in m && Staying(m, done, now)[t] == m[t]
    ensures Staying(m, done + [t], now) == if m[t] <= now then Staying(m, done, now) - {t} else Staying(m, done, now)
    ensures var q'' := if m[t] <= now then Q.Insert(q', Q.Entry(t, WakeKey(minVRuntime))) else q';
            Grown(q, q'', m, done + [t], now, minVRuntime)
  {
    assert forall x :: x in done + [t] <==> x in done || x == t;
    var e := Q.Entry(t, WakeKey(minVRuntime));
    assert Members(Q.Insert(q', e)) == Members(q') + {e} by {
      forall x ensures x in Q.Insert(q', e) <==> x in q' || x == e { Q.InsertMembers(q', e, x); }
    }
    assert WokenEntries(m, done + [t], now, minVRuntime)
        == WokenEntries(m, done, now, minVRuntime) + if m[t] <= now then {e} else {};
  }

  lemma OneBucket(m: map<Task, nat>, b: seq<seq<Task>>, t: Task, i: nat)
    requires Shape(m, b) && i < TIMER_WHEEL_SIZE && t in b[i]
    ensures t in m && m[t] % TIMER_WHEEL_SIZE == i && forall j :: 0 <= j < TIMER_WHEEL_SIZE && j != i ==> t !in b[j]
  {
    assert Slot(m, b, i);
    forall j | 0 <= j < TIMER_WHEEL_SIZE && j != i ensures t !in b[j] { assert Slot(m, b, j); }
  }

  lemma NoBucket(m: map<Task, nat>, b: seq<seq<Task>>, t: Task)
    requires Shape(m, b) && t !in m
    ensures forall j :: 0 <= j < TIMER_WHEEL_SIZE ==> t !in b[j]
  {
    forall j | 0 <= j < TIMER_WHEEL_SIZE ensures t !in b[j] { assert Slot(m, b, j); }
  }

  lemma ShapePop(m: map<Task, nat>, b: seq<seq<Task>>, t: Task, i: nat, k: seq<Task>, r: seq<Task>)
    requires Shape(m, b) && i < TIMER_WHEEL_SIZE && b[i] == k + [t] + r
    ensures Shape(m - {t}, b[i := k + r])
  {
    assert Slot(m, b, i);
    MiddleDistinct(k, t, r);
    OneBucket(m, b, t, i);
    var m', b' := m - {t}, b[i := k + r];
    forall j | 0 <= j < TIMER_WHEEL_SIZE ensures Slot(m', b', j) {
      assert Slot(m, b, j);
      assert forall x <- k + r :: x in b[i];
    }
    assert forall x :: x in b[i] <==> x in k + r || x == t;
  }
}
