/** The scheduler state machine of kernel/task/scheduler.cpp, kernel/task/task_main.cpp and
    kernel/task/mutex.cpp on one CPU with interrupts off: every method below is one step.

    `place` says where each task is. It is a function, so a task is in one place only; the
    invariant `Located` says that the pointers agree with it and that no task is lost. */
module Scheduling {
  import opened Basics
  import opened RbShape
  import opened TaskModel
  import opened RunQueues
  import opened TimerWheels
  import opened Waiting
  import Q = StableQueue
  import F = Fairness

  /** The least weight that a nice value gives. */
  const MIN_WEIGHT: nat := 15

  /** `Moving` is the place of a task that a step has taken out of one place and not yet put
      into another. Between steps there is none. */
  datatype Place = Running | Ready | Asleep | Waiting(queue: WaitQueue) | Moving

  class Scheduler {
    const rq: RunQueue
    const wheel: TimerWheel
    const idle: Task
    ghost const queues: set<WaitQueue>
    ghost const mutexes: set<Mutex>
    ghost var place: map<Task, Place>

    constructor (idle: Task, ghost queues: set<WaitQueue>, ghost mutexes: set<Mutex>)
      requires idle.pid == PID_IDLE
      requires forall q <- queues :: q.Valid() && q.waiters == []
      requires forall m <- mutexes :: m.queue in queues && m.Valid()
      requires forall m, m' :: m in mutexes && m' in mutexes && m != m' ==> m.queue != m'.queue
      modifies idle`State
      ensures Valid() && Settled() && place == map[] && this.queues == queues && this.mutexes == mutexes
      ensures rq.Current == idle && idle.State == RUNNING && rq.tasks == [] && wheel.asleep == map[]
    {
      hide *;
      var r := new RunQueue();
      var w := new TimerWheel(r);
      r.Current := idle;
      rq, wheel, this.idle := r, w, idle;
      this.queues, this.mutexes, place := queues, mutexes, map[];
      new;
      idle.State := RUNNING;
      AtStart();
    }

    lemma AtStart()
      requires rq.Valid() && wheel.Valid() && wheel.rq == rq && idle.pid == PID_IDLE
      requires rq.Current == idle && rq.tasks == [] && wheel.asleep == map[] && place == map[]
      requires forall q <- queues :: q.Valid() && q.waiters == []
      requires forall m <- mutexes :: m.queue in queues && m.Valid()
      requires forall m, m' :: m in mutexes && m' in mutexes && m != m' ==> m.queue != m'.queue
      ensures Valid() && Settled()
    {
      hide RunQueue.Valid, TimerWheel.Valid, WaitQueue.Valid, Mutex.Valid;
    }

    // ----- the invariant

    /** The run queue and the timer wheel are sound. */
    ghost predicate Parts()
      reads wheel`TotalSleepingTasks, wheel`asleep, wheel`buckets, wheel.SleepWheel
      reads wheel.asleep.Keys`NextSleepQueue, wheel.asleep.Keys`SleepTick
      reads rq`CFSLeftmost, rq`tasks, rq.rbt`Root, rq.rbt`tree, rq.tasks`vruntime
      reads rq.tasks`RbtLeft, rq.tasks`RbtRight, rq.tasks`RbtParent, rq.tasks`Color
    {
      wheel.rq == rq && rq.Valid() && wheel.Valid() && idle.pid == PID_IDLE
    }

    /** The wait queues and the mutexes are sound, and only these tasks wait in them. */
    ghost predicate QueuesIn(known: set<Task>)
      reads queues`Head, queues`Tail, queues`waiters, mutexes`locked, mutexes`owner, mutexes`arrivals, mutexes`grants
      reads known`NextWaitTask
    {
      && (forall q <- queues :: (forall t <- q.waiters :: t in known) && q.Valid())
      && (forall m <- mutexes :: m.queue in queues && m.Valid())
      && (forall m, m' :: m in mutexes && m' in mutexes && m != m' ==> m.queue != m'.queue)
    }

    ghost predicate Queues()
      reads this`place, queues`Head, queues`Tail, queues`waiters, mutexes`locked, mutexes`owner, mutexes`arrivals
      reads mutexes`grants
      reads place.Keys`NextWaitTask
    {
      QueuesIn(place.Keys)
    }

    /** Who waits where. */
    ghost function Lines(): map<WaitQueue, seq<Task>>
      reads queues`waiters
    {
      map q | q in queues :: q.waiters
    }

    /** Every task is where p says, and everything found anywhere is a task. */
    ghost predicate LocatedIn(p: map<Task, Place>, current: Task?, tasks: seq<Task>, asleep: map<Task, nat>,
                              lines: map<WaitQueue, seq<Task>>) {
      && (forall t <- p :: t.pid != PID_IDLE)
      && (current == idle || current in p)
      && (forall t <- p :: p[t] == Running ==> t == current)
      && (forall t <- tasks :: t in p && p[t] == Ready)
      && (forall t <- p :: p[t] == Ready ==> t in tasks)
      && (forall t <- asleep :: t in p && p[t] == Asleep)
      && (forall t <- p :: p[t] == Asleep ==> t in asleep)
      && (forall q <- lines :: forall t <- lines[q] :: t in p && p[t] == Waiting(q))
      && (forall t <- p :: p[t].Waiting? ==> p[t].queue in lines && t in lines[p[t].queue])
    }

    ghost predicate Located()
      reads this`place, rq`Current, rq`tasks, wheel`asleep, queues`waiters
    {
      LocatedIn(place, rq.Current, rq.tasks, wheel.asleep, Lines())
    }

    /** The state of a task says where it is: the running task is RUNNING, sleepers and waiters are
        BLOCKED. In the run queue tasks are READY, or still BLOCKED when a mutex has been handed
        over to them. */
    ghost predicate Dressed(p: map<Task, Place>)
      reads p.Keys`State
    {
      forall t <- p ::
        match p[t]
        case Running => t.State == RUNNING
        case Ready => t.State == READY || t.State == BLOCKED
        case Asleep => t.State == BLOCKED
        case Waiting(_) => t.State == BLOCKED
        case Moving => true
    }

    /** The state of the current task tells whether it still runs or has just blocked. */
    ghost predicate Consistent()
      reads this`place, rq`Current, place.Keys`State, place.Keys`Weight
    {
      && Dressed(place)
      && (forall t <- place :: t.Weight >= MIN_WEIGHT && place[t] != Moving)
      && (rq.Current in place ==> place[rq.Current] != Ready && (place[rq.Current] == Running <==> rq.Current.State == RUNNING))
    }

    ghost predicate Valid()
      reads this`place, rq`Current, place.Keys`State, place.Keys`Weight, place.Keys`NextWaitTask
      reads queues`Head, queues`Tail, queues`waiters, mutexes`locked, mutexes`owner, mutexes`arrivals, mutexes`grants
      reads wheel`TotalSleepingTasks, wheel`asleep, wheel`buckets, wheel.SleepWheel
      reads wheel.asleep.Keys`NextSleepQueue, wheel.asleep.Keys`SleepTick
      reads rq`CFSLeftmost, rq`tasks, rq.rbt`Root, rq.rbt`tree, rq.tasks`vruntime
      reads rq.tasks`RbtLeft, rq.tasks`RbtRight, rq.tasks`RbtParent, rq.tasks`Color
    {
      Parts() && Queues() && Located() && Consistent()
    }

    /** Between steps the CPU runs the idle task or a task whose place it is to run. */
    ghost predicate Settled()
      reads this`place, rq`Current
    {
      rq.Current == idle || (rq.Current in place && place[rq.Current] == Running)
    }

    /** What the invariant means: a task runs, is in the tree, on the wheel or in a wait queue,
        exactly one of these, and in one wait queue at most. */
    lemma OnePlace(t: Task)
      requires Valid() && Settled() && t in place
      ensures (if rq.Current == t then 1 else 0) + (if t in rq.tasks then 1 else 0) + (if t in wheel.asleep then 1 else 0)
            + (if exists q <- queues :: t in q.waiters then 1 else 0) == 1
      ensures forall q, q' :: q in queues && q' in queues && t in q.waiters && t in q'.waiters ==> q == q'
    {
      hide RunQueue.Valid, TimerWheel.Valid, WaitQueue.Valid, Mutex.Valid;
      assert forall q <- queues :: Lines()[q] == q.waiters;
      assert forall q <- queues :: t in Lines()[q] ==> place[t] == Waiting(q);
      if place[t].Waiting? {
        var q := place[t].queue;
        assert q in queues && t in q.waiters;
      }
    }

    /** And it is there only once: one position in the tree or in the queue, one bucket. */
    lemma OnceThere(t: Task)
      requires Valid()
      ensures NoDuplicates(rq.tasks) && forall q <- queues :: NoDuplicates(q.waiters)
      ensures forall i :: 0 <= i < |wheel.buckets| ==> NoDuplicates(wheel.buckets[i])
      ensures forall i ::
        0 <= i < |wheel.buckets| ==>
          (t in wheel.buckets[i] <==> t in wheel.asleep && i == wheel.asleep[t] % TIMER_WHEEL_SIZE)
    {
      hide Mutex.Valid;
      DistinctInorder(rq.rbt.tree);
      forall i | 0 <= i < |wheel.buckets|
        ensures NoDuplicates(wheel.buckets[i])
        ensures t in wheel.buckets[i] <==> t in wheel.asleep && i == wheel.asleep[t] % TIMER_WHEEL_SIZE
      {
        assert Slot(wheel.asleep, wheel.buckets, i);
      }
    }

    // ----- moving one task

    /** Moving a task between the CPU, the run queue and nowhere. */
    lemma Move(p: map<Task, Place>, current: Task?, tasks: seq<Task>, asleep: map<Task, nat>, lines: map<WaitQueue,
               seq<Task>>,
               t: Task, to: Place, current': Task?, tasks': seq<Task>)
      requires LocatedIn(p, current, tasks, asleep, lines) && t in p
      requires (p[t] == Moving || p[t] == Running || p[t] == Ready)
      requires to == Moving || to == Ready || to == Running
      requires forall x :: x != t ==> (x in tasks' <==> x in tasks)
      requires t in tasks' <==> to == Ready
      requires if to == Running then current' == t && forall x <- p :: p[x] != Running
               else current' == current || (current' == idle && forall x <- p :: x != t ==> p[x] != Running)
      ensures LocatedIn(p[t := to], current', tasks', asleep, lines)
    {
    }

    lemma MoveAsleep(p: map<Task, Place>, current: Task?, tasks: seq<Task>, asleep: map<Task, nat>,
                     lines: map<WaitQueue, seq<Task>>, t: Task, d: nat)
      requires LocatedIn(p, current, tasks, asleep, lines) && t in p && p[t] == Moving
      ensures LocatedIn(p[t := Asleep], current, tasks, asleep[t := d], lines)
    {
    }

    lemma MoveWaiting(p: map<Task, Place>, current: Task?, tasks: seq<Task>, asleep: map<Task, nat>,
                      lines: map<WaitQueue, seq<Task>>, t: Task, q: WaitQueue)
      requires LocatedIn(p, current, tasks, asleep, lines) && t in p && p[t] == Moving && q in lines
      ensures LocatedIn(p[t := Waiting(q)], current, tasks, asleep, lines[q := lines[q] + [t]])
    {
    }

    lemma MoveFirst(p: map<Task, Place>, current: Task?, tasks: seq<Task>, asleep: map<Task, nat>,
                    lines: map<WaitQueue, seq<Task>>, q: WaitQueue)
      requires LocatedIn(p, current, tasks, asleep, lines) && q in lines && lines[q] != []
      requires lines[q][0] !in lines[q][1..]
      ensures lines[q][0] in p
      ensures LocatedIn(p[lines[q][0] := Moving], current, tasks, asleep, lines[q := lines[q][1..]])
    {
      assert lines[q] == [lines[q][0]] + lines[q][1..];
      assert lines[q][0] in lines[q];
    }

    /** Enqueue, seen from the scheduler. */
    method JoinRunQueue(t: Task)
      requires Parts() && QueuesIn(place.Keys) && t !in rq.tasks && t.pid != PID_IDLE && t in place
      requires forall x <- rq.tasks :: x in place
      modifies rq`CFSLeftmost, rq`ForceReschedule, rq`tasks, rq.rbt`Root, rq.rbt`tree
      modifies place.Keys`RbtLeft, place.Keys`RbtRight, place.Keys`RbtParent, place.Keys`Color
      ensures Parts()
      ensures QueuesIn(place.Keys)
      ensures rq.Queue() == Q.Insert(old(rq.Queue()), Q.Entry(t, t.vruntime))
      ensures forall x :: x in rq.tasks <==> x in old(rq.tasks) || x == t
    {
      hide *;
      OpenParts();
      rq.Enqueue(t);
      CloseParts();
    }

    /** A task that is nowhere joins the run queue. */
    method MakeReady(t: Task)
      requires Parts() && QueuesIn(place.Keys) && Located() && t in place && place[t] == Moving
      modifies rq`CFSLeftmost, rq`ForceReschedule, rq`tasks, rq.rbt`Root, rq.rbt`tree, this`place
      modifies place.Keys`RbtLeft, place.Keys`RbtRight, place.Keys`RbtParent, place.Keys`Color
      ensures Parts()
      ensures QueuesIn(place.Keys)
      ensures Located()
      ensures place == old(place)[t := Ready]
      ensures rq.Queue() == Q.Insert(old(rq.Queue()), Q.Entry(t, t.vruntime))
    {
      hide *;
      AboutTasks(t);
      ghost var p, tasks := place, rq.tasks;
      SameKeys(p, t, Ready);
      JoinRunQueue(t);
      Move(p, rq.Current, tasks, wheel.asleep, Lines(), t, Ready, rq.Current, rq.tasks);
      Relocate(p[t := Ready]);
    }

    lemma SameKeys(p: map<Task, Place>, t: Task, to: Place)
      requires t in p && QueuesIn(p.Keys)
      ensures QueuesIn(p[t := to].Keys) && p[t := to].Keys == p.Keys
    {
      assert p[t := to].Keys == p.Keys;
    }

    lemma OpenParts()
      requires Parts()
      ensures wheel.rq == rq && rq.Valid() && wheel.Valid() && idle.pid == PID_IDLE
    {
    }

    lemma CloseParts()
      requires wheel.rq == rq && rq.Valid() && wheel.Valid() && idle.pid == PID_IDLE
      ensures Parts()
    {
    }

    lemma CloseLocated()
      requires LocatedIn(place, rq.Current, rq.tasks, wheel.asleep, Lines())
      ensures Located()
    {
    }

    /** New places for the same queues. */
    ghost method Relocate(p: map<Task, Place>)
      requires Parts() && QueuesIn(p.Keys)
      requires LocatedIn(p, rq.Current, rq.tasks, wheel.asleep, Lines())
      modifies this`place
      ensures Parts()
      ensures QueuesIn(place.Keys)
      ensures Located()
      ensures place == p
    {
      hide *;
      place := p;
      CloseLocated();
    }

    lemma AboutTasks(t: Task)
      requires Located() && t in place
      ensures LocatedIn(place, rq.Current, rq.tasks, wheel.asleep, Lines())
      ensures t.pid != PID_IDLE && (place[t] == Ready <==> t in rq.tasks) && (place[t] == Asleep <==> t in wheel.asleep)
      ensures forall x <- rq.tasks :: x in place
    {
    }

    /** CFSPickNext, and what it leaves alone. */
    method PickNext() returns (Next: Task?)
      requires Parts() && QueuesIn(place.Keys) && Located()
      modifies rq`CFSLeftmost, rq`tasks, rq.rbt`Root, rq.rbt`tree
      modifies place.Keys`RbtLeft, place.Keys`RbtRight, place.Keys`RbtParent, place.Keys`Color
      ensures Parts()
      ensures QueuesIn(place.Keys)
      ensures LocatedIn(place, rq.Current, old(rq.tasks), wheel.asleep, Lines())
      ensures old(rq.Queue()) == [] ==> Next == null && rq.tasks == old(rq.tasks) && rq.Queue() == []
      ensures old(rq.Queue()) != [] ==> Next != null && old(rq.Queue()) == [EntryOf(Next)] + rq.Queue()
      ensures Next != null ==>
        old(rq.tasks) == [Next] + rq.tasks && Next !in rq.tasks && Next in place && place[Next] == Ready
    {
      hide *;
      OpenParts();
      OpenLocated();
      ghost var tasks := rq.tasks;
      Next := rq.CFSPickNext();
      assert Next != null ==> Next in tasks;
      CloseParts();
    }

    /** CFSPickNext: the first of the run queue leaves it. */
    method TakeNext() returns (Next: Task?)
      requires Parts() && QueuesIn(place.Keys) && Located()
      modifies rq`CFSLeftmost, rq`tasks, rq.rbt`Root, rq.rbt`tree, this`place
      modifies place.Keys`RbtLeft, place.Keys`RbtRight, place.Keys`RbtParent, place.Keys`Color
      ensures Parts()
      ensures QueuesIn(place.Keys)
      ensures Located()
      ensures old(Dressed(place)) ==> Dressed(place)
      ensures old(rq.Queue()) == [] ==> Next == null && place == old(place) && rq.Queue() == []
      ensures old(rq.Queue()) != [] ==>
        && Next != null && Next in old(place) && place == old(place)[Next := Moving]
        && old(rq.Queue()) == [EntryOf(Next)] + rq.Queue()
    {
      hide *;
      ghost var p, tasks := place, rq.tasks;
      Next := PickNext();
      if Next != null {
        if Dressed(p) {
          StatesAre(p);
          DressedNow(p, Next, Moving);
        }
        SameKeys(p, Next, Moving);
        Move(p, rq.Current, tasks, wheel.asleep, Lines(), Next, Moving, rq.Current, rq.tasks);
        place := p[Next := Moving];
      }
      CloseLocated();
    }

    lemma OpenLocated()
      requires Located()
      ensures LocatedIn(place, rq.Current, rq.tasks, wheel.asleep, Lines())
      ensures forall x <- rq.tasks :: x in place && place[x] == Ready && x.pid != PID_IDLE
    {
    }

    // ----- Schedule

    /** The queue once a current task that still runs has been put back. */
    ghost function Requeued(): Entries
      requires rq.Current != null
      reads this`place, rq`Current, rq.Current`vruntime, rq`tasks, rq.tasks`vruntime
    {
      if rq.Current in place && place[rq.Current] == Running then Q.Insert(rq.Queue(), EntryOf(rq.Current))
      else rq.Queue()
    }

    lemma OpenValid()
      requires Valid()
      ensures Parts() && QueuesIn(place.Keys) && Located() && Dressed(place)
      ensures rq.Current != null && (rq.Current.pid != PID_IDLE <==> rq.Current in place)
      ensures rq.Current in place ==>
        place[rq.Current] != Ready && (place[rq.Current] == Running <==> rq.Current.State == RUNNING)
      ensures forall t <- place ::
        t.Weight >= MIN_WEIGHT && place[t] != Moving && (place[t] == Running ==> t == rq.Current)
      ensures Requeued() == if rq.Current in place && place[rq.Current] == Running
                            then Q.Insert(rq.Queue(), Q.Entry(rq.Current, rq.Current.vruntime)) else rq.Queue()
    {
    }

    /** A current task that still runs leaves the CPU. */
    method LeaveCpu(state: TaskState)
      requires Parts() && QueuesIn(place.Keys) && Located() && rq.Current != null
      requires rq.Current in place && place[rq.Current] == Running
      modifies this`place, rq.Current`State
      ensures Parts()
      ensures QueuesIn(place.Keys)
      ensures Located()
      ensures place == old(place)[rq.Current := Moving] && rq.Current.State == state
    {
      hide *;
      OpenLocated();
      ghost var p := place;
      SameKeys(p, rq.Current, Moving);
      AboutTasks(rq.Current);
      Move(p, rq.Current, rq.tasks, wheel.asleep, Lines(), rq.Current, Moving, rq.Current, rq.tasks);
      rq.Current.State := state;
      place := p[rq.Current := Moving];
      CloseLocated();
    }

    /** The first part of Schedule: a current task that still runs goes back into the tree. */
    method PutBack()
      requires Valid()
      modifies rq`CFSLeftmost, rq`ForceReschedule, rq`tasks, rq.rbt`Root, rq.rbt`tree, this`place
      modifies place.Keys`State, place.Keys`RbtLeft, place.Keys`RbtRight, place.Keys`RbtParent, place.Keys`Color
      ensures Parts()
      ensures QueuesIn(place.Keys)
      ensures Located()
      ensures place.Keys == old(place.Keys)
      ensures forall t <- place :: t.Weight >= MIN_WEIGHT && place[t] != Running && place[t] != Moving
      ensures rq.Queue() == old(Requeued())
      ensures Dressed(place)
      ensures forall t <- place ::
        t.State == if t == rq.Current && old(place)[t] == Running then READY else old(t.State)
    {
      hide *;
      BeforeSwitch();
      var Prev := rq.Current;
      ghost var p := place;
      if Prev.pid != PID_IDLE && Prev.State == RUNNING {
        LeaveCpu(READY);
        MakeReady(Prev);
        DressedNow(p, Prev, Ready);
      }
    }

    /** What Schedule finds. */
    lemma BeforeSwitch()
      requires Valid()
      ensures Parts() && QueuesIn(place.Keys) && Located() && Dressed(place) && rq.Current != null
      ensures rq.Current.pid != PID_IDLE && rq.Current.State == RUNNING <==>
        rq.Current in place && place[rq.Current] == Running
      ensures Requeued() == if rq.Current in place && place[rq.Current] == Running
                            then Q.Insert(rq.Queue(), Q.Entry(rq.Current, rq.Current.vruntime)) else rq.Queue()
      ensures forall t <- place ::
        && t.Weight >= MIN_WEIGHT && place[t] != Moving
        && (place[t] == Running ==> t == rq.Current && t.State == RUNNING)
        && (place[t] == Ready ==> t.State == READY || t.State == BLOCKED)
        && (place[t] == Asleep || place[t].Waiting? ==> t.State == BLOCKED)
    {
      hide *;
      OpenValid();
      StatesAre(place);
    }

    lemma StatesAre(p: map<Task, Place>)
      requires Dressed(p)
      ensures forall t <- p ::
        && (p[t] == Running ==> t.State == RUNNING)
        && (p[t] == Ready ==> t.State == READY || t.State == BLOCKED)
        && (p[t] == Asleep || p[t].Waiting? ==> t.State == BLOCKED)
    {
    }

    /** One task has gone to another place, with the state for it. */
    lemma DressedNow(p: map<Task, Place>, t: Task, to: Place)
      requires t in p
      requires forall x <- p :: x != t ==>
        && (p[x] == Running ==> x.State == RUNNING)
        && (p[x] == Ready ==> x.State == READY || x.State == BLOCKED)
        && (p[x] == Asleep || p[x].Waiting? ==> x.State == BLOCKED)
      requires match to
        case Running => t.State == RUNNING
        case Ready => t.State == READY || t.State == BLOCKED
        case Asleep => t.State == BLOCKED
        case Waiting(_) => t.State == BLOCKED
        case Moving => true
      ensures Dressed(p[t := to]) && Dressed(p[t := Moving][t := to])
    {
    }

    /** The last part of Schedule: the picked task, or else the idle task, gets the CPU. */
    method Install(Next: Task?)
      requires Parts() && QueuesIn(place.Keys) && Located()
      requires forall t <- place :: t.Weight >= MIN_WEIGHT && place[t] != Running && (place[t] != Moving || t == Next)
      requires Next != null ==> Next in place && place[Next] == Moving
      requires Dressed(place) && idle !in place
      modifies rq`MinVRuntime, rq`Current, rq`ForceReschedule, this`place, (if Next == null then {idle} else {Next})`State
      ensures Valid() && Settled() && !rq.ForceReschedule && rq.Current != null && rq.Current.State == RUNNING
      ensures if Next == null then rq.Current == idle && place == old(place) && rq.MinVRuntime == old(rq.MinVRuntime)
              else rq.Current == Next && place == old(place)[Next := Running]
      ensures Next != null ==>
        rq.MinVRuntime == if Next.vruntime > old(rq.MinVRuntime) then Next.vruntime else old(rq.MinVRuntime)
    {
      hide *;
      OpenLocated();
      ghost var p := place;
      StatesAre(p);
      if Next == null {
        MoveIdle(p, rq.Current, rq.tasks, wheel.asleep, Lines());
        SwitchTo(idle, rq.MinVRuntime, p);
      } else {
        SameKeys(p, Next, Running);
        Move(p, rq.Current, rq.tasks, wheel.asleep, Lines(), Next, Running, Next, rq.tasks);
        SwitchTo(Next, if Next.vruntime > rq.MinVRuntime then Next.vruntime else rq.MinVRuntime, p[Next := Running]);
      }
    }

    /** The assignments of the switch itself. */
    method SwitchTo(next: Task, minVRuntime: nat, ghost p: map<Task, Place>)
      requires Parts() && QueuesIn(place.Keys) && p.Keys == place.Keys
      requires LocatedIn(p, next, rq.tasks, wheel.asleep, Lines())
      requires forall t <- p :: t.Weight >= MIN_WEIGHT && p[t] != Moving
      requires (next == idle && idle !in p) || (next in p && p[next] == Running)
      requires forall x <- p :: x != next ==>
        && p[x] != Running
        && (p[x] == Ready ==> x.State == READY || x.State == BLOCKED)
        && (p[x] == Asleep || p[x].Waiting? ==> x.State == BLOCKED)
      modifies rq`MinVRuntime, rq`Current, rq`ForceReschedule, this`place, next`State
      ensures Valid()
      ensures Settled()
      ensures next.State == RUNNING
      ensures rq.Current == next && rq.MinVRuntime == minVRuntime && place == p && !rq.ForceReschedule
    {
      hide *;
      next.State := RUNNING;
      SetCurrent(next, minVRuntime, p);
      DressedAll(p);
      CloseValid();
    }

    lemma DressedAll(p: map<Task, Place>)
      requires forall x <- p ::
        && (p[x] == Running ==> x.State == RUNNING)
        && (p[x] == Ready ==> x.State == READY || x.State == BLOCKED)
        && (p[x] == Asleep || p[x].Waiting? ==> x.State == BLOCKED)
      ensures Dressed(p)
    {
    }

    method SetCurrent(next: Task, minVRuntime: nat, ghost p: map<Task, Place>)
      modifies rq`MinVRuntime, rq`Current, rq`ForceReschedule, this`place
      ensures rq.Current == next && rq.MinVRuntime == minVRuntime && place == p && !rq.ForceReschedule
    {
      rq.MinVRuntime, rq.Current, rq.ForceReschedule, place := minVRuntime, next, false, p;
    }

    lemma MoveIdle(p: map<Task, Place>, current: Task?, tasks: seq<Task>, asleep: map<Task, nat>, lines: map<WaitQueue,
                   seq<Task>>)
      requires LocatedIn(p, current, tasks, asleep, lines) && forall x <- p :: p[x] != Running
      ensures LocatedIn(p, idle, tasks, asleep, lines)
    {
    }

    lemma CloseValid()
      requires Parts() && QueuesIn(place.Keys) && LocatedIn(place, rq.Current, rq.tasks, wheel.asleep, Lines())
      requires forall t <- place :: t.Weight >= MIN_WEIGHT && place[t] != Moving
      requires rq.Current == idle || (rq.Current in place && place[rq.Current] == Running && rq.Current.State == RUNNING)
      requires Dressed(place)
      ensures Valid() && Settled()
    {
    }

    /** The running task and the queue, as kernel fairness sees them. */
    ghost function View(): F.Cpu<Task>
      requires rq.Current != null
      reads rq`Current, rq.Current`vruntime, rq`tasks, rq.tasks`vruntime
    {
      F.Cpu(EntryOf(rq.Current), rq.Queue())
    }

    ghost function Weights(): map<Task, nat>
      reads this`place, place.Keys`Weight
    {
      map t | t in place :: t.Weight
    }

    /** What comes first in a sorted list is least. */
    lemma FirstIsPicked(e: Q.Entry<Task>, q: Entries)
      requires Q.Sorted([e] + q)
      ensures F.Picked(F.Cpu(e, q))
    {
    }

    lemma RequeuedSorted()
      requires Valid()
      ensures Q.Sorted(Requeued())
    {
      assert rq.Valid() && Q.Sorted(rq.Queue());
      Q.InsertContents(rq.Queue(), EntryOf(rq.Current));
    }

    /** Schedule, without saving and restoring registers. */
    method Schedule()
      requires Valid()
      modifies rq`CFSLeftmost, rq`MinVRuntime, rq`Current, rq`ForceReschedule, rq`tasks, rq.rbt`Root, rq.rbt`tree
      modifies this`place
      modifies place.Keys`State, place.Keys`RbtLeft, place.Keys`RbtRight, place.Keys`RbtParent, place.Keys`Color
      modifies idle`State
      ensures Valid() && Settled() && place.Keys == old(place.Keys) && !rq.ForceReschedule
      ensures old(Requeued()) == [] ==> rq.Current == idle && rq.Queue() == [] && rq.MinVRuntime == old(rq.MinVRuntime)
      ensures old(Requeued()) != [] ==>
        && rq.Current in place && old(Requeued()) == [EntryOf(rq.Current)] + rq.Queue()
        && rq.MinVRuntime == if rq.Current.vruntime > old(rq.MinVRuntime) then rq.Current.vruntime
                             else old(rq.MinVRuntime)
      ensures rq.Current != null && (rq.Current != idle ==> F.Picked(View()))
      ensures rq.Current.State == RUNNING
      ensures forall t <- place ::
        t.State == if t == rq.Current then RUNNING
                   else if t == old(rq.Current) && old(place)[t] == Running then READY else old(t.State)
    {
      hide *;
      OpenValid();
      IdleApart();
      RequeuedSorted();
      PutBack();
      RunNext();
    }

    /** Schedule once the previous task has been put back. */
    method RunNext()
      requires Parts() && QueuesIn(place.Keys) && Located() && Dressed(place) && idle !in place
      requires forall t <- place :: t.Weight >= MIN_WEIGHT && place[t] != Running && place[t] != Moving
      requires Q.Sorted(rq.Queue())
      modifies rq`CFSLeftmost, rq`MinVRuntime, rq`Current, rq`ForceReschedule, rq`tasks, rq.rbt`Root, rq.rbt`tree
      modifies this`place, idle`State
      modifies place.Keys`State, place.Keys`RbtLeft, place.Keys`RbtRight, place.Keys`RbtParent, place.Keys`Color
      ensures Valid() && Settled() && place.Keys == old(place.Keys) && !rq.ForceReschedule
      ensures old(rq.Queue()) == [] ==> rq.Current == idle && rq.Queue() == [] && rq.MinVRuntime == old(rq.MinVRuntime)
      ensures old(rq.Queue()) != [] ==>
        && rq.Current in place && old(rq.Queue()) == [EntryOf(rq.Current)] + rq.Queue()
        && rq.MinVRuntime == if rq.Current.vruntime > old(rq.MinVRuntime) then rq.Current.vruntime
                             else old(rq.MinVRuntime)
      ensures rq.Current != null && rq.Current.State == RUNNING && (rq.Current != idle ==> F.Picked(View()))
      ensures forall t <- place :: t.State == if t == rq.Current then RUNNING else old(t.State)
    {
      hide *;
      ghost var p := place;
      var Next := TakeNext();
      if Next != null { SamePlaces(p, Next); }
      Install(Next);
      if Next != null { Picks(Next); }
    }

    lemma SamePlaces(p: map<Task, Place>, t: Task)
      requires t in p
      ensures p[t := Moving].Keys == p.Keys && p[t := Moving][t := Running].Keys == p.Keys
    {
    }

    lemma IdleApart()
      requires Located() && Parts()
      ensures idle !in place
    {
    }

    lemma Picks(t: Task)
      requires rq.Current == t && Q.Sorted([EntryOf(t)] + rq.Queue())
      ensures F.Picked(View())
    {
      FirstIsPicked(EntryOf(t), rq.Queue());
    }

    // ----- the tick

    /** What happens to the places when the tasks of `due` wake. */
    ghost function Awake(p: map<Task, Place>, due: set<Task>): map<Task, Place> {
      map t | t in p :: if t in due then Ready else p[t]
    }

    lemma MoveAwake(p: map<Task, Place>, current: Task?, tasks: seq<Task>, asleep: map<Task, nat>,
                    lines: map<WaitQueue, seq<Task>>,
                    due: set<Task>, tasks': seq<Task>)
      requires LocatedIn(p, current, tasks, asleep, lines) && due <= asleep.Keys
      requires forall x :: x in tasks' <==> x in tasks || x in due
      ensures LocatedIn(Awake(p, due), current, tasks', asleep - due, lines) && Awake(p, due).Keys == p.Keys
    {
    }

    /** The tasks of a queue that has grown by some entries. */
    lemma TasksGrow(tasks: seq<Task>, q: Entries, tasks': seq<Task>, q': Entries, due: set<Task>, key: nat)
      requires |q| == |tasks| && forall i :: 0 <= i < |q| ==> q[i].task == tasks[i]
      requires |q'| == |tasks'| && forall i :: 0 <= i < |q'| ==> q'[i].task == tasks'[i]
      requires Members(q') == Members(q) + EntriesFor(due, key)
      ensures forall x :: x in tasks' <==> x in tasks || x in due
    {
      forall x | x in tasks' ensures x in tasks || x in due {
        var i :| 0 <= i < |tasks'| && tasks'[i] == x;
        assert q'[i] in Members(q');
        assert q'[i] in Members(q) || q'[i] in EntriesFor(due, key);
      }
      forall x | x in tasks ensures x in tasks' {
        var i :| 0 <= i < |tasks| && tasks[i] == x;
        assert q[i] in Members(q');
      }
      forall x | x in due ensures x in tasks' {
        assert Q.Entry(x, key) in EntriesFor(due, key);
        assert Q.Entry(x, key) in Members(q');
      }
    }

    lemma QueueTasks()
      ensures |rq.Queue()| == |rq.tasks| && forall i :: 0 <= i < |rq.tasks| ==> rq.Queue()[i].task == rq.tasks[i]
    {
    }

    /** No sleeper has been overlooked: every deadline is still to be looked at. */
    ghost predicate Punctual()
      reads wheel`asleep, wheel`LastCheckedTick
    {
      forall t <- wheel.asleep :: wheel.LastCheckedTick < wheel.asleep[t]
    }

    ghost function DueNow(Now: nat): set<Task>
      reads wheel`asleep, wheel`LastCheckedTick
    {
      Due(wheel.asleep, wheel.LastCheckedTick, Now)
    }

    lemma DueIsAsleep(Now: nat)
      ensures DueNow(Now) == Due(wheel.asleep, wheel.LastCheckedTick, Now) && DueNow(Now) <= wheel.asleep.Keys
    {
    }

    /** Who is due when no sleeper has been overlooked, and who still sleeps then. */
    lemma PunctualWakes(m: map<Task, nat>, last: nat, Now: nat)
      requires forall t <- m :: last < m[t]
      ensures Due(m, last, Now) == set t | t in m && m[t] <= Now
      ensures forall t <- m - Due(m, last, Now) :: Now < m[t] && last < m[t]
    {
      forall t <- m ensures t in Due(m, last, Now) <==> m[t] <= Now { WakesExactly(m[t], last, Now); }
    }

    lemma SleepersApart()
      requires Located()
      ensures wheel.rq == rq ==> wheel.Apart()
      ensures forall x <- wheel.asleep :: x in place && place[x] == Asleep
      ensures forall x <- rq.tasks :: x in place
    {
    }

    lemma OpenSettled()
      requires Valid() && Settled()
      ensures rq.Current == idle || (rq.Current in place && place[rq.Current] == Running && rq.Current.State == RUNNING)
      ensures rq.Current != null && rq.Current !in wheel.asleep && rq.Current !in rq.tasks
      ensures rq.Current.pid == PID_IDLE <==> rq.Current == idle
      ensures rq.Current in place <==> rq.Current != idle
    {
    }

    /** What a check at Now leaves: nobody is overlooked and all deadlines lie ahead. */
    lemma StaysPunctual(m: map<Task, nat>, last: nat, Now: nat)
      requires forall t <- m :: last < m[t]
      requires wheel.asleep == m - Due(m, last, Now)
      requires wheel.LastCheckedTick == if m == map[] || last < Now then Now else last
      ensures Punctual() && forall t <- wheel.asleep :: Now < wheel.asleep[t]
    {
      PunctualWakes(m, last, Now);
    }

    lemma SeePunctual()
      ensures Punctual() <==> forall t <- wheel.asleep :: wheel.LastCheckedTick < wheel.asleep[t]
    {
    }

    /** What CheckSleepingTasks does to the wheel and the run queue. */
    ghost predicate Checked(m: map<Task, nat>, last: nat, q: Entries, Now: nat)
      reads wheel`asleep, wheel`LastCheckedTick, rq`tasks, rq`MinVRuntime, rq.tasks`vruntime
    {
      && wheel.asleep == m - Due(m, last, Now)
      && wheel.LastCheckedTick == (if m == map[] || last < Now then Now else last)
      && Members(rq.Queue()) == Members(q) + EntriesFor(Due(m, last, Now), WakeKey(rq.MinVRuntime))
      && (Due(m, last, Now) == {} ==> rq.Queue() == q)
    }

    lemma OpenChecked(m: map<Task, nat>, last: nat, q: Entries, Now: nat)
      requires Checked(m, last, q, Now)
      ensures wheel.asleep == m - Due(m, last, Now)
      ensures Members(rq.Queue()) == Members(q) + EntriesFor(Due(m, last, Now), WakeKey(rq.MinVRuntime))
      ensures Due(m, last, Now) == {} ==> rq.Queue() == q
      ensures (forall t <- m :: last < m[t]) ==> Punctual() && forall t <- wheel.asleep :: Now < wheel.asleep[t]
    {
      if forall t <- m :: last < m[t] { StaysPunctual(m, last, Now); }
    }

    lemma CloseChecked(m: map<Task, nat>, last: nat, q: Entries, Now: nat)
      requires wheel.asleep == m - Due(m, last, Now)
      requires wheel.LastCheckedTick == (if m == map[] || last < Now then Now else last)
      requires Members(rq.Queue()) == Members(q) + EntriesFor(Due(m, last, Now), WakeKey(rq.MinVRuntime))
      requires Due(m, last, Now) == {} ==> rq.Queue() == q
      ensures Checked(m, last, q, Now)
    {
    }

    /** CheckSleepingTasks, seen from the scheduler. */
    method DrainWheel(Now: nat)
      requires Parts() && Located() && rq.Current !in rq.tasks && rq.Current !in wheel.asleep
      modifies wheel`TotalSleepingTasks, wheel`asleep, wheel`buckets, wheel`LastCheckedTick, wheel.SleepWheel
      modifies rq`CFSLeftmost, rq`ForceReschedule, rq`tasks, rq.rbt`Root, rq.rbt`tree
      modifies (place.Keys - {rq.Current})`NextSleepQueue, (place.Keys - {rq.Current})`SleepTick
      modifies (place.Keys - {rq.Current})`State
      modifies (place.Keys - {rq.Current})`vruntime, place.Keys`RbtLeft, place.Keys`RbtRight, place.Keys`RbtParent
      modifies place.Keys`Color
      ensures Parts()
      ensures Checked(old(wheel.asleep), old(wheel.LastCheckedTick), old(rq.Queue()), Now)
      ensures forall t <- place :: t.State == if t in old(DueNow(Now)) then READY else old(t.State)
      ensures forall t <- old(DueNow(Now)) :: wheel.Woken(t)
    {
      hide *;
      OpenParts();
      SleepersApart();
      DueIsAsleep(Now);
      ghost var m, last, q := wheel.asleep, wheel.LastCheckedTick, rq.Queue();
      wheel.CheckSleepingTasks(Now);
      CloseParts();
      CloseChecked(m, last, q, Now);
      forall t <- m ensures t.State == if t in old(DueNow(Now)) then READY else old(t.State) {
        if t in old(DueNow(Now)) { wheel.ReadyWoken(t); }
      }
    }

    /** The wait queues have no part in it. */
    method CheckWheel(Now: nat)
      requires Parts() && QueuesIn(place.Keys) && Located() && rq.Current !in rq.tasks && rq.Current !in wheel.asleep
      modifies wheel`TotalSleepingTasks, wheel`asleep, wheel`buckets, wheel`LastCheckedTick, wheel.SleepWheel
      modifies rq`CFSLeftmost, rq`ForceReschedule, rq`tasks, rq.rbt`Root, rq.rbt`tree
      modifies (place.Keys - {rq.Current})`NextSleepQueue, (place.Keys - {rq.Current})`SleepTick
      modifies (place.Keys - {rq.Current})`State
      modifies (place.Keys - {rq.Current})`vruntime, place.Keys`RbtLeft, place.Keys`RbtRight, place.Keys`RbtParent
      modifies place.Keys`Color
      ensures Parts()
      ensures QueuesIn(place.Keys)
      ensures Checked(old(wheel.asleep), old(wheel.LastCheckedTick), old(rq.Queue()), Now)
      ensures forall t <- place :: t.State == if t in old(DueNow(Now)) then READY else old(t.State)
      ensures forall t <- old(DueNow(Now)) :: wheel.Woken(t)
    {
      hide *;
      DrainWheel(Now);
    }

    /** CheckSleepingTasks, and what it does to the places. */
    method WakeSleepers(Now: nat)
      requires Valid() && Settled()
      modifies wheel`TotalSleepingTasks, wheel`asleep, wheel`buckets, wheel`LastCheckedTick, wheel.SleepWheel
      modifies this`place
      modifies rq`CFSLeftmost, rq`ForceReschedule, rq`tasks, rq.rbt`Root, rq.rbt`tree
      modifies (place.Keys - {rq.Current})`NextSleepQueue, (place.Keys - {rq.Current})`SleepTick
      modifies (place.Keys - {rq.Current})`State
      modifies (place.Keys - {rq.Current})`vruntime, place.Keys`RbtLeft, place.Keys`RbtRight, place.Keys`RbtParent
      modifies place.Keys`Color
      ensures Valid()
      ensures Settled()
      ensures place == Awake(old(place), old(DueNow(Now))) && place.Keys == old(place.Keys)
      ensures wheel.asleep == old(wheel.asleep) - old(DueNow(Now))
      ensures Members(rq.Queue()) == Members(old(rq.Queue())) + EntriesFor(old(DueNow(Now)), WakeKey(rq.MinVRuntime))
      ensures old(DueNow(Now)) == {} ==> rq.Queue() == old(rq.Queue())
      ensures old(Punctual()) ==> Punctual() && forall t <- wheel.asleep :: Now < wheel.asleep[t]
      ensures forall t <- place :: t.State == if t in old(DueNow(Now)) then READY else old(t.State)
      ensures forall t <- old(DueNow(Now)) :: wheel.Woken(t)
    {
      hide *;
      BeforeCheck(Now);
      ghost var p, tasks, q, m, last := place, rq.tasks, rq.Queue(), wheel.asleep, wheel.LastCheckedTick;
      CheckWheel(Now);
      OpenChecked(m, last, q, Now);
      AwakeFits(p, tasks, q, m, last, Now);
      SetPlace(Awake(p, Due(m, last, Now)));
    }

    /** What WakeSleepers finds. */
    lemma BeforeCheck(Now: nat)
      requires Valid() && Settled()
      ensures Parts() && QueuesIn(place.Keys) && Located()
      ensures LocatedIn(place, rq.Current, rq.tasks, wheel.asleep, Lines())
      ensures rq.Current !in rq.tasks && rq.Current !in wheel.asleep
      ensures rq.Current == idle || (rq.Current in place && place[rq.Current] == Running && rq.Current.State == RUNNING)
      ensures |rq.Queue()| == |rq.tasks| && forall i :: 0 <= i < |rq.tasks| ==> rq.Queue()[i].task == rq.tasks[i]
      ensures DueNow(Now) == Due(wheel.asleep, wheel.LastCheckedTick, Now) && DueNow(Now) <= wheel.asleep.Keys <= place.Keys
      ensures Punctual() <==> forall t <- wheel.asleep :: wheel.LastCheckedTick < wheel.asleep[t]
      ensures forall t <- place ::
        && t.Weight >= MIN_WEIGHT && place[t] != Moving
        && (place[t] == Running ==> t.State == RUNNING)
        && (place[t] == Ready ==> t.State == READY || t.State == BLOCKED)
        && (place[t] == Asleep || place[t].Waiting? ==> t.State == BLOCKED)
    {
      OpenValid();
      OpenSettled();
      hide *;
      OpenLocated();
      StatesAre(place);
      DueIsAsleep(Now);
      SeePunctual();
      QueueTasks();
      SleepersKnown();
    }

    lemma SleepersKnown()
      requires Located()
      ensures wheel.asleep.Keys <= place.Keys
    {
    }

    /** The places after the check, and that the states are right for them. */
    lemma AwakeFits(p: map<Task, Place>, tasks: seq<Task>, q: Entries, m: map<Task, nat>, last: nat, Now: nat)
      requires LocatedIn(p, rq.Current, tasks, m, Lines()) && Checked(m, last, q, Now)
      requires |q| == |tasks| && forall i :: 0 <= i < |tasks| ==> q[i].task == tasks[i]
      requires forall t <- p ::
        if t in Due(m, last, Now) then t.State == READY
        else && (p[t] == Running ==> t.State == RUNNING)
             && (p[t] == Ready ==> t.State == READY || t.State == BLOCKED)
             && (p[t] == Asleep || p[t].Waiting? ==> t.State == BLOCKED)
      ensures var p' := Awake(p, Due(m, last, Now));
        && LocatedIn(p', rq.Current, rq.tasks, wheel.asleep, Lines()) && Dressed(p') && p'.Keys == p.Keys
        && forall t <- p :: p'[t] == if t in Due(m, last, Now) then Ready else p[t]
    {
      hide *;
      var due := Due(m, last, Now);
      DueAsleep(m, last, Now);
      OpenChecked(m, last, q, Now);
      QueueTasks();
      TasksGrow(tasks, q, rq.tasks, rq.Queue(), due, WakeKey(rq.MinVRuntime));
      MoveAwake(p, rq.Current, tasks, m, Lines(), due, rq.tasks);
      AwakeAt(p, due, m);
      DressedAll(Awake(p, due));
    }

    lemma DueAsleep(m: map<Task, nat>, last: nat, Now: nat)
      ensures Due(m, last, Now) <= m.Keys
    {
    }

    /** The places after a change of the run queue or the wheel. */
    ghost method SetPlace(p: map<Task, Place>)
      requires Parts() && QueuesIn(place.Keys) && p.Keys == place.Keys
      requires LocatedIn(p, rq.Current, rq.tasks, wheel.asleep, Lines())
      requires forall t <- p :: t.Weight >= MIN_WEIGHT && p[t] != Moving
      requires rq.Current == idle || (rq.Current in p && p[rq.Current] == Running && rq.Current.State == RUNNING)
      requires Dressed(p)
      modifies this`place
      ensures Valid()
      ensures Settled()
      ensures place == p && rq.Queue() == old(rq.Queue()) && Punctual() == old(Punctual())
    {
      hide *;
      place := p;
      CloseValid();
    }

    lemma AwakeAt(p: map<Task, Place>, due: set<Task>, m: map<Task, nat>)
      ensures forall t <- p :: t in Awake(p, due) && Awake(p, due)[t] == if t in due then Ready else p[t]
    {
    }

    lemma OpenView()
      requires Valid() && Settled()
      ensures rq.Current != null && View() == F.Cpu(Q.Entry(rq.Current, rq.Current.vruntime), rq.Queue())
      ensures rq.Current != idle ==> F.Weighted(View(), Weights()) && Weights()[rq.Current] == rq.Current.Weight
      ensures rq.Current != idle ==> Requeued() == Q.Insert(rq.Queue(), Q.Entry(rq.Current, rq.Current.vruntime))
      ensures forall e <- rq.Queue() :: e.task in place
    {
      QueueTasks();
      forall e | e in rq.Queue() ensures e.task in place {
        var i :| 0 <= i < |rq.Queue()| && rq.Queue()[i] == e;
        assert rq.tasks[i] == e.task;
      }
    }

    /** Charging the running task for one tick. */
    method ChargeCurrent()
      requires Valid() && Settled()
      modifies (if rq.Current == null || rq.Current == idle then {} else {rq.Current})`vruntime
      ensures Valid()
      ensures Settled()
      ensures rq.Current != null && rq.Queue() == old(rq.Queue())
      ensures rq.Current != idle ==> F.Weighted(old(View()), old(Weights()))
      ensures rq.Current != idle ==> Requeued() == Q.Insert(rq.Queue(), F.Charged(old(View()), old(Weights())))
    {
      hide *;
      OpenSettled();
      OpenView();
      var Current := rq.Current;
      if Current != null && Current.pid != PID_IDLE {
        ghost var v, w := View(), Weights();
        ChargedIs(v, w);
        HeavyEnough(Current);
        var vdiff := 1024 / Current.Weight;
        if vdiff == 0 { vdiff := 1; }
        Current.vruntime := Current.vruntime + vdiff;
        OpenView();
      }
    }

    lemma HeavyEnough(t: Task)
      requires Valid() && t in place
      ensures t.Weight >= 15 && F.Charge(t.Weight) == if 1024 / t.Weight == 0 then 1 else 1024 / t.Weight
    {
    }

    lemma ChargedIs(v: F.Cpu<Task>, w: map<Task, nat>)
      requires F.Weighted(v, w)
      ensures w[v.current.task] >= 15
      ensures F.Charged(v, w) == Q.Entry(v.current.task, v.current.key + F.Charge(w[v.current.task]))
    {
    }

    lemma FirstOfQueue()
      requires Valid()
      ensures rq.Current != null && (rq.Current.pid == PID_IDLE <==> rq.Current !in place)
      ensures rq.CFSLeftmost == null <==> rq.Queue() == []
      ensures rq.CFSLeftmost != null ==> rq.Queue()[0].key == rq.CFSLeftmost.vruntime
    {
    }

    /** The preemption test of SchedulerTick: somebody waits while the idle task runs, or is more
        than 2 behind the running task. Schedule clears the flag again, so it decides nothing. */
    method CheckPreemption()
      requires Valid()
      modifies rq`ForceReschedule
      ensures Valid() && rq.Current != null
      ensures rq.ForceReschedule ==
        (old(rq.ForceReschedule) || (rq.Queue() != [] && (rq.Current !in place || rq.Current.vruntime > rq.Queue()[0].key + 2)))
    {
      hide *;
      FirstOfQueue();
      var first, Current := rq.CFSLeftmost, rq.Current;
      if first != null {
        if Current != null && Current.pid == PID_IDLE {
          rq.ForceReschedule := true;
        } else if Current != null {
          var granularity := 2;
          if Current.vruntime > first.vruntime + granularity {
            rq.ForceReschedule := true;
          }
        }
      }
    }

    /** SchedulerTick after its first line. */
    method ChargeAndSwitch()
      requires Valid() && Settled()
      modifies this`place, rq`CFSLeftmost, rq`MinVRuntime, rq`Current, rq`ForceReschedule, rq`tasks, rq.rbt`Root
      modifies rq.rbt`tree
      modifies idle`State, (if rq.Current == null || rq.Current == idle then {} else {rq.Current})`vruntime
      modifies place.Keys`State, place.Keys`RbtLeft, place.Keys`RbtRight, place.Keys`RbtParent, place.Keys`Color
      ensures Valid() && Settled() && place.Keys == old(place.Keys)
      ensures rq.Current != null && (rq.Current == idle ==> rq.Queue() == [])
      ensures (rq.Current != idle ==> F.Picked(View()))
      ensures old(rq.Current) != idle ==>
        && F.Weighted(old(View()), old(Weights())) && rq.Current != idle
        && View() == F.Tick(old(View()), old(Weights()))
      ensures forall t <- place ::
        t.State == if t == rq.Current then RUNNING else if t == old(rq.Current) then READY else old(t.State)
      ensures Runnable() == Members(old(rq.Queue()))
        + if old(rq.Current) == idle then {} else {F.Charged(old(View()), old(Weights()))}
      ensures rq.MinVRuntime == if rq.Current != idle && rq.Current.vruntime > old(rq.MinVRuntime) then rq.Current.vruntime
                                else old(rq.MinVRuntime)
    {
      hide *;
      OpenSettled();
      OpenView();
      ghost var v, w, running := View(), Weights(), rq.Current != idle;
      ChargeCurrent();
      CheckPreemption();
      RequeuedIs();
      ghost var q := Requeued();
      if running { NotEmpty(v.queue, F.Charged(v, w)); }
      Schedule();
      OpenSettled();
      if running { Ticked(v, w, q); }
      RunnableIs(q);
      if running { MoreMembers(v.queue, F.Charged(v, w)); }
    }

    lemma RequeuedIs()
      requires Valid() && Settled()
      ensures rq.Current != null && (rq.Current in place <==> rq.Current != idle)
      ensures Requeued() == if rq.Current != idle then Q.Insert(rq.Queue(), Q.Entry(rq.Current, rq.Current.vruntime))
                            else rq.Queue()
    {
      hide *;
      OpenValid();
      OpenSettled();
    }

    /** The entries of all tasks that run or are ready. */
    ghost function Runnable(): set<Q.Entry<Task>>
      requires rq.Current != null
      reads rq`Current, rq.Current`vruntime, rq`tasks, rq.tasks`vruntime
    {
      Members(rq.Queue()) + if rq.Current == idle then {} else {EntryOf(rq.Current)}
    }

    lemma RunnableIs(q: Entries)
      requires rq.Current != null
      requires q == [] ==> rq.Current == idle && rq.Queue() == []
      requires q != [] ==> rq.Current != idle && q == [EntryOf(rq.Current)] + rq.Queue()
      ensures Runnable() == Members(q)
    {
    }

    lemma MoreMembers(q: Entries, e: Q.Entry<Task>)
      ensures Members(Q.Insert(q, e)) == Members(q) + {e}
    {
      forall x <- Members(Q.Insert(q, e)) ensures x in Members(q) + {e} { Q.InsertMembers(q, e, x); }
      forall x <- Members(q) + {e} ensures x in Members(Q.Insert(q, e)) { Q.InsertMembers(q, e, x); }
    }

    lemma NotEmpty(q: Entries, e: Q.Entry<Task>)
      ensures Q.Insert(q, e) != []
    {
    }

    lemma Ticked(v: F.Cpu<Task>, w: map<Task, nat>, q: Entries)
      requires F.Weighted(v, w) && q == Q.Insert(v.queue, F.Charged(v, w)) && rq.Current != null
      requires q != [] ==> q == [EntryOf(rq.Current)] + rq.Queue()
      ensures View() == F.Tick(v, w)
    {
    }

    /** SchedulerTick, when the clock stands at Now. Every task stays in one place, exactly the
        sleepers that are due wake, the CPU goes to a task with the least vruntime, and with no
        sleeper due it does one tick of the fair sharing. */
    method SchedulerTick(Now: nat)
      requires Valid() && Settled()
      modifies wheel`TotalSleepingTasks, wheel`asleep, wheel`buckets, wheel`LastCheckedTick, wheel.SleepWheel
      modifies this`place
      modifies rq`CFSLeftmost, rq`MinVRuntime, rq`Current, rq`ForceReschedule, rq`tasks, rq.rbt`Root, rq.rbt`tree
      modifies idle`State
      modifies place.Keys`NextSleepQueue, place.Keys`SleepTick, place.Keys`State
      modifies place.Keys`vruntime, place.Keys`RbtLeft, place.Keys`RbtRight, place.Keys`RbtParent, place.Keys`Color
      ensures Valid() && Settled() && place.Keys == old(place.Keys)
      ensures wheel.asleep == old(wheel.asleep) - old(DueNow(Now))
      ensures old(Punctual()) ==> Punctual() && forall t <- wheel.asleep :: Now < wheel.asleep[t]
      ensures rq.Current != null && (rq.Current == idle ==> rq.Queue() == [])
      ensures (rq.Current != idle ==> F.Picked(View()))
      ensures old(rq.Current) != null && old(rq.Current) != idle && old(DueNow(Now)) == {} ==>
        && F.Weighted(old(View()), old(Weights())) && rq.Current != idle
        && View() == F.Tick(old(View()), old(Weights()))
      ensures forall t <- place ::
        t.State == if t == rq.Current then RUNNING
                   else if t == old(rq.Current) || t in old(DueNow(Now)) then READY else old(t.State)
      ensures old(rq.Current) != null && (old(rq.Current) != idle ==> F.Weighted(old(View()), old(Weights())))
      ensures Runnable() ==
        Members(old(rq.Queue())) + EntriesFor(old(DueNow(Now)), WakeKey(old(rq.MinVRuntime)))
        + if old(rq.Current) == idle then {} else {F.Charged(old(View()), old(Weights()))}
      ensures rq.MinVRuntime == if rq.Current != idle && rq.Current.vruntime > old(rq.MinVRuntime) then rq.Current.vruntime
                                else old(rq.MinVRuntime)
    {
      hide *;
      OpenSettled();
      OpenView();
      ghost var w := Weights();
      WeightsAre();
      ghost var v := View();
      WakeSleepers(Now);
      OpenSettled();
      SameWeights(w);
      OpenView();
      if rq.Current != idle { SameCharge(v, View(), w); }
      ChargeAndSwitch();
    }

    lemma SameCharge(v: F.Cpu<Task>, v': F.Cpu<Task>, w: map<Task, nat>)
      requires F.Weighted(v, w) && F.Weighted(v', w) && v.current == v'.current
      ensures F.Charged(v, w) == F.Charged(v', w)
    {
    }

    lemma WeightsAre()
      ensures Weights().Keys == place.Keys && forall t <- Weights() :: Weights()[t] == t.Weight
    {
    }

    lemma SameWeights(w: map<Task, nat>)
      requires w.Keys == place.Keys && forall t <- w :: w[t] == t.Weight
      ensures Weights() == w
    {
    }

    lemma OpenEntry(t: Task)
      requires Valid() && t in rq.tasks && rq.Current != null
      ensures EntryOf(t) == Q.Entry(t, t.vruntime) && EntryOf(t) in rq.Queue() && View().queue == rq.Queue()
    {
      var i :| 0 <= i < |rq.tasks| && rq.tasks[i] == t;
      assert rq.Queue()[i] == EntryOf(t);
    }

    lemma StillWaits(t: Task, e: Q.Entry<Task>)
      requires rq.Current != null && rq.Current != t == e.task && (View().current == e || e in View().queue)
      ensures e in View().queue
    {
    }

    /** Nobody wakes before his deadline. */
    lemma NoneDue(m: map<Task, nat>, late: nat, Now: nat)
      requires wheel.asleep == m && Now < late && forall u <- m :: late <= m[u]
      ensures DueNow(Now) == {} && wheel.asleep - DueNow(Now) == m
    {
    }

    /** The tick interrupt over and over until t runs: while nobody wakes and nobody blocks, a
        ready task runs within n * (width + 1) ticks, if n tasks can run and their vruntimes lie
        within `width`. Nobody wakes if no deadline lies within that time. */
    method TicksUntilPicked(t: Task, start: nat, ghost width: nat) returns (ticks: nat)
      requires Valid() && Settled() && rq.Current != null && rq.Current != idle && F.Picked(View())
      requires t in rq.tasks && F.Within(View(), width)
      requires forall u <- wheel.asleep :: start + (|rq.Queue()| + 1) * (width + 1) <= wheel.asleep[u]
      modifies wheel`TotalSleepingTasks, wheel`asleep, wheel`buckets, wheel`LastCheckedTick, wheel.SleepWheel
      modifies this`place
      modifies rq`CFSLeftmost, rq`MinVRuntime, rq`Current, rq`ForceReschedule, rq`tasks, rq.rbt`Root, rq.rbt`tree
      modifies idle`State
      modifies place.Keys`NextSleepQueue, place.Keys`SleepTick, place.Keys`State
      modifies place.Keys`vruntime, place.Keys`RbtLeft, place.Keys`RbtRight, place.Keys`RbtParent, place.Keys`Color
      ensures Valid() && Settled() && rq.Current == t && wheel.asleep == old(wheel.asleep)
      ensures 1 <= ticks <= (|old(rq.Queue())| + 1) * (width + 1)
    {
      hide *;
      ghost var v, e, w := View(), EntryOf(t), Weights();
      WeightsAre();
      OpenView();
      OpenSettled();
      OpenEntry(t);
      F.WaitingBound(v, e, width);
      ghost var bound, m := (|rq.Queue()| + 1) * (width + 1), wheel.asleep;
      ticks := 0;
      while rq.Current != t
        invariant Valid()
        invariant Settled()
        invariant place.Keys == old(place.Keys)
        invariant rq.Current != null && rq.Current != idle
        invariant F.Picked(View())
        invariant wheel.asleep == m
        invariant Weights() == w
        invariant View().current == e || e in View().queue
        invariant ticks + F.Waiting(View(), e.key) <= bound
        invariant ticks == 0 ==> rq.Current != t
        decreases F.Waiting(View(), e.key)
      {
        OpenView();
        StillWaits(t, e);
        F.TickNearer(View(), w, e);
        F.TickKeeps(View(), w);
        NoneDue(m, start + bound, start + ticks);
        SchedulerTick(start + ticks);
        SameWeights(w);
        ticks := ticks + 1;
      }
    }

    // ----- blocking and waking

    /** AddToSleepList for a task that is not on the wheel. */
    method PutOnWheel(t: Task, deadline: nat)
      requires Parts() && t !in wheel.asleep && deadline != 0
      modifies wheel`TotalSleepingTasks, wheel`asleep, wheel`buckets, wheel.SleepWheel, t`NextSleepQueue, t`SleepTick
      ensures Parts()
      ensures wheel.asleep == old(wheel.asleep)[t := deadline]
    {
      hide *;
      OpenParts();
      t.SleepTick := deadline;
      wheel.AddToSleepList(t);
      CloseParts();
    }

    /** A task that has left the CPU goes onto the wheel. */
    method FallAsleep(t: Task, deadline: nat)
      requires Parts() && QueuesIn(place.Keys) && Located() && t in place && place[t] == Moving && deadline != 0
      modifies wheel`TotalSleepingTasks, wheel`asleep, wheel`buckets, wheel.SleepWheel, t`NextSleepQueue, t`SleepTick
      modifies this`place
      ensures Parts()
      ensures QueuesIn(place.Keys)
      ensures Located()
      ensures place == old(place)[t := Asleep] && wheel.asleep == old(wheel.asleep)[t := deadline]
    {
      hide *;
      AboutTasks(t);
      ghost var p, m := place, wheel.asleep;
      SameKeys(p, t, Asleep);
      PutOnWheel(t, deadline);
      MoveAsleep(p, rq.Current, rq.tasks, m, Lines(), t, deadline);
      Relocate(p[t := Asleep]);
    }

    /** The last step of every blocking operation: the current task has gone elsewhere. */
    lemma HasLeft(p: map<Task, Place>, t: Task, to: Place)
      requires Parts() && QueuesIn(place.Keys) && Located()
      requires forall x <- p :: x.Weight >= MIN_WEIGHT && p[x] != Moving && (p[x] == Running ==> x == t)
      requires t == rq.Current && t in p && place == p[t := to] && t.State == BLOCKED
      requires to == Asleep || to.Waiting?
      requires Dressed(place)
      ensures Valid() && Requeued() == rq.Queue()
    {
    }

    /** Who runs after the current task has blocked: the first of the queue, or the idle task. */
    ghost predicate NextRuns(q: Entries)
      reads rq`Current, rq.Current, rq`tasks, rq.tasks`vruntime
    {
      && rq.Current != null
      && (q == [] ==> rq.Current == idle && rq.Queue() == [])
      && (q != [] ==> rq.Current != idle && q == [EntryOf(rq.Current)] + rq.Queue())
    }

    lemma CloseNext(q: Entries)
      requires Valid() && Settled() && rq.Current != null
      requires q == [] ==> rq.Current == idle && rq.Queue() == []
      requires q != [] ==> rq.Current in place && q == [EntryOf(rq.Current)] + rq.Queue()
      ensures NextRuns(q)
    {
    }

    /** Sleep for ms milliseconds, when the clock stands at Now and ticks LapicHz times a second. */
    method Sleep(ms: nat, Now: nat, LapicHz: nat)
      requires Valid() && Settled() && rq.Current != null && rq.Current != idle
      modifies wheel`TotalSleepingTasks, wheel`asleep, wheel`buckets, wheel.SleepWheel, this`place
      modifies rq`CFSLeftmost, rq`MinVRuntime, rq`Current, rq`ForceReschedule, rq`tasks, rq.rbt`Root, rq.rbt`tree
      modifies idle`State
      modifies rq.Current`NextSleepQueue, rq.Current`SleepTick
      modifies place.Keys`State, place.Keys`RbtLeft, place.Keys`RbtRight, place.Keys`RbtParent, place.Keys`Color
      ensures Valid() && Settled() && place.Keys == old(place.Keys)
      ensures ms == 0 ==> rq.Current == old(rq.Current) && wheel.asleep == old(wheel.asleep) && place == old(place)
      ensures ms > 0 ==>
        && wheel.asleep == old(wheel.asleep)[old(rq.Current) := Deadline(ms, Now, LapicHz)]
        && rq.Current != old(rq.Current) && NextRuns(old(rq.Queue()))
      ensures ms == 0 ==> rq.Queue() == old(rq.Queue()) && forall t <- place :: t.State == old(t.State)
      ensures ms > 0 ==> forall t <- place ::
        t.State == if t == rq.Current then RUNNING else if t == old(rq.Current) then BLOCKED else old(t.State)
      ensures old(Punctual()) && wheel.LastCheckedTick <= Now ==> Punctual()
    {
      hide *;
      if ms == 0 { return; }
      CurrentKnown();
      DeadlineIs(ms, Now, LapicHz);
      var TicksToSleep := (ms * LapicHz) / 1000;
      if TicksToSleep == 0 { TicksToSleep := 1; }
      Doze(Now, TicksToSleep);
      Schedule();
      NotAsleep();
      CloseNext(old(rq.Queue()));
    }

    lemma CurrentKnown()
      requires Valid() && Settled()
      ensures rq.Current != null && (rq.Current in place <==> rq.Current != idle)
    {
      hide *;
      OpenSettled();
    }

    /** Sleep up to the switch. */
    method Doze(Now: nat, ticks: nat)
      requires Valid() && Settled() && rq.Current != null && rq.Current != idle && ticks != 0
      modifies wheel`TotalSleepingTasks, wheel`asleep, wheel`buckets, wheel.SleepWheel, this`place
      modifies rq.Current`NextSleepQueue, rq.Current`SleepTick, rq.Current`State
      ensures Valid()
      ensures place == old(place)[rq.Current := Asleep] && place.Keys == old(place.Keys)
      ensures wheel.asleep == old(wheel.asleep)[rq.Current := Now + ticks]
      ensures old(Punctual()) && wheel.LastCheckedTick <= Now ==> Punctual()
      ensures rq.Current.State == BLOCKED && Requeued() == rq.Queue() == old(rq.Queue())
    {
      hide *;
      OpenValid();
      OpenSettled();
      SeePunctual();
      ghost var p := place;
      StatesAre(p);
      LeaveCpu(BLOCKED);
      FallAsleep(rq.Current, Now + ticks);
      DressedNow(p, rq.Current, Asleep);
      HasLeft(p, rq.Current, Asleep);
      SeePunctual();
    }

    /** The tick at which a sleep ends: never the present one. */
    function Deadline(ms: nat, Now: nat, LapicHz: nat): (d: nat)
      ensures d > Now && (ms * LapicHz >= 1000 ==> (d - Now) * 1000 <= ms * LapicHz < (d - Now + 1) * 1000)
      ensures ms * LapicHz < 1000 ==> d == Now + 1
    {
      Now + if (ms * LapicHz) / 1000 == 0 then 1 else (ms * LapicHz) / 1000
    }

    lemma DeadlineIs(ms: nat, Now: nat, LapicHz: nat)
      ensures Deadline(ms, Now, LapicHz) == Now + if (ms * LapicHz) / 1000 == 0 then 1 else (ms * LapicHz) / 1000
    {
    }

    lemma NotAsleep()
      requires Valid() && Settled()
      ensures rq.Current !in wheel.asleep
    {
    }

    /** A queue that belongs to no mutex. */
    ghost predicate Plain(q: WaitQueue) {
      q in queues && forall m <- mutexes :: m.queue != q
    }

    /** What is known about the queues before one of them changes. */
    lemma OpenQueues(q: WaitQueue)
      requires QueuesIn(place.Keys) && Located() && q in queues
      ensures q.Valid() && Lines().Keys == queues && forall o <- queues :: Lines()[o] == o.waiters
      ensures forall o <- queues :: o.Valid() && forall x <- o.waiters :: x in place && place[x] == Waiting(o)
      ensures forall m <- mutexes :: m.queue in queues && m.Valid()
      ensures forall m, m' :: m in mutexes && m' in mutexes && m != m' ==> m.queue != m'.queue
      ensures forall o, i ::
        o in queues && o != q && 0 <= i < |o.waiters| ==> o.waiters[i] in o.waiters && o.waiters[i] !in q.waiters
    {
      hide WaitQueue.Valid, Mutex.Valid;
      assert forall o <- queues :: Lines()[o] == o.waiters;
      forall o, i | o in queues && o != q && 0 <= i < |o.waiters|
        ensures o.waiters[i] in o.waiters && o.waiters[i] !in q.waiters
      {
        assert o.waiters[i] in Lines()[o] && place[o.waiters[i]] == Waiting(o);
      }
    }

    lemma LinesAre()
      ensures Lines().Keys == queues && forall o <- queues :: Lines()[o] == o.waiters
    {
    }

    lemma CloseQueues()
      requires forall o <- queues :: (forall x <- o.waiters :: x in place) && o.Valid()
      requires forall m <- mutexes :: m.queue in queues && m.Valid()
      requires forall m, m' :: m in mutexes && m' in mutexes && m != m' ==> m.queue != m'.queue
      ensures QueuesIn(place.Keys)
    {
    }

    lemma ThisQueue(q: WaitQueue)
      requires Plain(q)
      ensures q in queues && forall m <- mutexes :: m.queue != q
    {
    }

    /** The pointers of joining a wait queue. */
    method AppendTo(t: Task, q: WaitQueue)
      requires QueuesIn(place.Keys) && Located() && t in place && place[t] == Moving && Plain(q)
      modifies q`Head, q`Tail, q`waiters, t`NextWaitTask, q.waiters`NextWaitTask
      ensures QueuesIn(place.Keys)
      ensures q.waiters == old(q.waiters) + [t] && Lines() == old(Lines())[q := q.waiters]
    {
      hide *;
      ThisQueue(q);
      OpenQueues(q);
      ghost var lines := Lines();
      q.Append(t);
      CloseQueues();
      LinesAre();
    }

    /** A task that has left the CPU joins a wait queue. */
    method JoinQueue(t: Task, q: WaitQueue)
      requires Parts() && QueuesIn(place.Keys) && Located() && t in place && place[t] == Moving && Plain(q)
      modifies q`Head, q`Tail, q`waiters, t`NextWaitTask, q.waiters`NextWaitTask, this`place
      ensures Parts()
      ensures QueuesIn(place.Keys)
      ensures Located()
      ensures place == old(place)[t := Waiting(q)] && q.waiters == old(q.waiters) + [t]
    {
      hide *;
      ThisQueue(q);
      OpenLocated();
      LinesAre();
      ghost var p := place;
      SameKeys(p, t, Waiting(q));
      MoveWaiting(p, rq.Current, rq.tasks, wheel.asleep, Lines(), t, q);
      AppendTo(t, q);
      Relocate(p[t := Waiting(q)]);
    }

    /** SleepOn up to the switch. */
    method BlockOn(q: WaitQueue)
      requires Valid() && Settled() && rq.Current != null && rq.Current != idle && Plain(q)
      modifies q`Head, q`Tail, q`waiters, rq.Current`NextWaitTask, q.waiters`NextWaitTask, this`place, rq.Current`State
      ensures Valid()
      ensures place == old(place)[rq.Current := Waiting(q)] && place.Keys == old(place.Keys)
      ensures q.waiters == old(q.waiters) + [rq.Current]
      ensures rq.Current.State == BLOCKED && Requeued() == rq.Queue() == old(rq.Queue())
    {
      hide *;
      OpenValid();
      OpenSettled();
      ghost var p := place;
      StatesAre(p);
      LeaveCpu(BLOCKED);
      JoinQueue(rq.Current, q);
      DressedNow(p, rq.Current, Waiting(q));
      HasLeft(p, rq.Current, Waiting(q));
    }

    /** SleepOn: the current task waits behind everybody who waits already. */
    method SleepOn(q: WaitQueue)
      requires Valid() && Settled() && rq.Current != null && rq.Current != idle && Plain(q)
      modifies q`Head, q`Tail, q`waiters, q.waiters`NextWaitTask, this`place
      modifies rq`CFSLeftmost, rq`MinVRuntime, rq`Current, rq`ForceReschedule, rq`tasks, rq.rbt`Root, rq.rbt`tree
      modifies idle`State
      modifies rq.Current`NextWaitTask, place.Keys`State
      modifies place.Keys`RbtLeft, place.Keys`RbtRight, place.Keys`RbtParent, place.Keys`Color
      ensures Valid() && Settled() && place.Keys == old(place.Keys)
      ensures q.waiters == old(q.waiters) + [old(rq.Current)] && rq.Current != old(rq.Current)
      ensures NextRuns(old(rq.Queue()))
      ensures forall t <- place ::
        t.State == if t == rq.Current then RUNNING else if t == old(rq.Current) then BLOCKED else old(t.State)
    {
      hide *;
      CurrentKnown();
      ghost var me := rq.Current;
      BlockOn(q);
      rq.ForceReschedule := true;
      Schedule();
      CloseNext(old(rq.Queue()));
      ThisQueue(q);
      NotWaiting(q, me);
    }

    lemma NotWaiting(q: WaitQueue, t: Task)
      requires Valid() && Settled() && q in queues && t in q.waiters
      ensures rq.Current != t
    {
      assert t in Lines()[q];
    }

    /** The pointers of leaving a wait queue at its head. */
    method PopFrom(q: WaitQueue) returns (t: Task)
      requires QueuesIn(place.Keys) && Located() && Plain(q) && q.waiters != []
      modifies q`Head, q`Tail, q`waiters
      ensures QueuesIn(place.Keys)
      ensures t == old(q.waiters)[0] && q.waiters == old(q.waiters)[1..] && t !in q.waiters
      ensures Lines() == old(Lines())[q := q.waiters]
    {
      hide *;
      ThisQueue(q);
      OpenQueues(q);
      ghost var lines := Lines();
      t := q.Pop();
      LinesAre();
      CloseQueues();
    }

    /** The first waiter leaves a wait queue. */
    method TakeFirst(q: WaitQueue) returns (t: Task)
      requires Parts() && QueuesIn(place.Keys) && Located() && Plain(q) && q.waiters != []
      modifies q`Head, q`Tail, q`waiters, this`place
      ensures Parts()
      ensures QueuesIn(place.Keys)
      ensures Located()
      ensures t == old(q.waiters)[0] && q.waiters == old(q.waiters)[1..] && t in old(place)
      ensures old(place)[t] == Waiting(q)
      ensures place == old(place)[t := Moving]
    {
      hide *;
      ThisQueue(q);
      OpenLocated();
      OpenQueues(q);
      LinesAre();
      ghost var p, lines := place, Lines();
      t := PopFrom(q);
      MoveFirst(p, rq.Current, rq.tasks, wheel.asleep, lines, q);
      SameKeys(p, t, Moving);
      Relocate(p[t := Moving]);
    }

    /** UnblockTaskWithIOBoost for a task that has left its queue. */
    method UnblockTaskWithIOBoost(t: Task)
      requires Parts() && QueuesIn(place.Keys) && Located() && t in place && place[t] == Moving
      modifies rq`CFSLeftmost, rq`ForceReschedule, rq`tasks, rq.rbt`Root, rq.rbt`tree, this`place, t`vruntime
      modifies place.Keys`RbtLeft, place.Keys`RbtRight, place.Keys`RbtParent, place.Keys`Color
      ensures Parts()
      ensures QueuesIn(place.Keys)
      ensures Located()
      ensures place == old(place)[t := Ready] && rq.ForceReschedule
      ensures rq.Queue() == Q.Insert(old(rq.Queue()), Q.Entry(t, BoostKey(rq.MinVRuntime)))
      ensures if rq.MinVRuntime > 10 then t.vruntime + 10 == rq.MinVRuntime else t.vruntime == 0
    {
      hide *;
      AboutTasks(t);
      BoostKeyIs(rq.MinVRuntime);
      t.vruntime := if rq.MinVRuntime > 10 then rq.MinVRuntime - 10 else 0;
      MakeReady(t);
      rq.ForceReschedule := true;
    }

    lemma BoostKeyIs(m: nat)
      ensures BoostKey(m) == if m > 10 then m - 10 else 0
    {
    }

    /** After a task other than the current one has become ready. */
    lemma HasWoken(p: map<Task, Place>, t: Task, c: Task?)
      requires Parts() && QueuesIn(place.Keys) && Located() && c == rq.Current
      requires forall x <- p :: x.Weight >= MIN_WEIGHT && (p[x] == Moving ==> x == t)
      requires c == idle || (c in p && p[c] == Running && c.State == RUNNING)
      requires t in p && t != c && place == p[t := Ready]
      requires Dressed(place)
      ensures Valid() && Settled()
    {
      hide *;
      OpenLocated();
      CloseValid();
    }

    lemma KnownQueue(q: WaitQueue)
      requires QueuesIn(place.Keys) && Plain(q)
      ensures q.Valid()
    {
    }

    /** WakeUp: the task that has waited longest becomes ready, with a boost. */
    method WakeUp(q: WaitQueue)
      requires Valid() && Settled() && Plain(q)
      modifies q`Head, q`Tail, q`waiters, this`place
      modifies rq`CFSLeftmost, rq`ForceReschedule, rq`tasks, rq.rbt`Root, rq.rbt`tree
      modifies q.waiters`NextWaitTask, q.waiters`State, q.waiters`vruntime
      modifies place.Keys`RbtLeft, place.Keys`RbtRight, place.Keys`RbtParent, place.Keys`Color
      ensures Valid()
      ensures Settled()
      ensures old(q.waiters) == [] ==> q.waiters == [] && place == old(place) && rq.Queue() == old(rq.Queue())
      ensures old(q.waiters) != [] ==>
        && q.waiters == old(q.waiters)[1..] && old(q.waiters)[0] in old(place)
        && place == old(place)[old(q.waiters)[0] := Ready] && place.Keys == old(place.Keys) && old(q.waiters)[0].State == READY
        && rq.Queue() == Q.Insert(old(rq.Queue()), Q.Entry(old(q.waiters)[0], BoostKey(rq.MinVRuntime)))
        && old(q.waiters)[0].NextWaitTask == null
      ensures forall t <- place ::
        t.State == if old(q.waiters) != [] && t == old(q.waiters)[0] then READY else old(t.State)
    {
      hide *;
      BeforeWaking(q);
      if q.Head == null { return; }
      ghost var p := place;
      var t := TakeFirst(q);
      MakeRunnable(t);
      DressedNow(p, t, Ready);
      SameTasks(p, t);
      HasWoken(p, t, rq.Current);
    }

    /** What WakeUp finds. */
    lemma BeforeWaking(q: WaitQueue)
      requires Valid() && Settled() && Plain(q)
      ensures Parts() && QueuesIn(place.Keys) && Located() && (q.Head == null <==> q.waiters == [])
      ensures rq.Current in place <==> rq.Current != idle
      ensures rq.Current == idle || (rq.Current in place && place[rq.Current] == Running && rq.Current.State == RUNNING)
      ensures forall x <- place ::
        && x.Weight >= MIN_WEIGHT && place[x] != Moving
        && (place[x] == Running ==> x.State == RUNNING)
        && (place[x] == Ready ==> x.State == READY || x.State == BLOCKED)
        && (place[x] == Asleep || place[x].Waiting? ==> x.State == BLOCKED)
    {
      hide *;
      ThisQueue(q);
      OpenValid();
      OpenSettled();
      KnownQueue(q);
      StatesAre(place);
      q.HeadIsFirst();
    }

    /** WakeUp once the task has left the queue. */
    method MakeRunnable(t: Task)
      requires Parts() && QueuesIn(place.Keys) && Located() && t in place && place[t] == Moving
      modifies rq`CFSLeftmost, rq`ForceReschedule, rq`tasks, rq.rbt`Root, rq.rbt`tree, this`place
      modifies t`NextWaitTask, t`State, t`vruntime
      modifies place.Keys`RbtLeft, place.Keys`RbtRight, place.Keys`RbtParent, place.Keys`Color
      ensures Parts()
      ensures QueuesIn(place.Keys)
      ensures Located()
      ensures place == old(place)[t := Ready] && rq.ForceReschedule && t.State == READY && t.NextWaitTask == null
      ensures rq.Queue() == Q.Insert(old(rq.Queue()), Q.Entry(t, BoostKey(rq.MinVRuntime)))
    {
      hide *;
      AboutTasks(t);
      Unlinked(t);
      UnblockTaskWithIOBoost(t);
    }

    /** The fields of a task that has left a wait queue. */
    method Unlinked(t: Task)
      requires Parts() && QueuesIn(place.Keys) && Located() && t in place && place[t] == Moving
      modifies t`NextWaitTask, t`State
      ensures Parts()
      ensures QueuesIn(place.Keys)
      ensures Located()
      ensures t.State == READY && t.NextWaitTask == null
    {
      hide *;
      OpenLocated();
      OutOfLine(t);
      t.NextWaitTask := null;
      t.State := READY;
      CloseQueues();
    }

    lemma OutOfLine(t: Task)
      requires QueuesIn(place.Keys) && Located() && t in place && place[t] == Moving
      ensures forall o <- queues :: (forall x <- o.waiters :: x in place) && o.Valid()
      ensures forall m <- mutexes :: m.queue in queues && m.Valid()
      ensures forall m, m' :: m in mutexes && m' in mutexes && m != m' ==> m.queue != m'.queue
      ensures forall o, i :: o in queues && 0 <= i < |o.waiters| ==> o.waiters[i] in o.waiters && o.waiters[i] != t
    {
      hide WaitQueue.Valid, Mutex.Valid;
      forall o, i | o in queues && 0 <= i < |o.waiters| ensures o.waiters[i] in o.waiters && o.waiters[i] != t {
        assert Lines()[o] == o.waiters && o.waiters[i] in Lines()[o];
      }
    }

    lemma SameTasks(p: map<Task, Place>, t: Task)
      requires t in p
      ensures p[t := Moving][t := Ready] == p[t := Ready] && p[t := Ready].Keys == p.Keys
    {
      assert p[t := Ready].Keys == p.Keys;
    }

    // ----- mutexes

    /** Everything about the queues but m and its queue. */
    lemma OpenMutex(m: Mutex)
      requires QueuesIn(place.Keys) && Located() && m in mutexes
      ensures m.queue in queues && m.Valid() && (m.locked || m.queue.waiters == [])
      ensures forall o, i ::
        o in queues && 0 <= i < |o.waiters| ==>
          o.waiters[i] in o.waiters && o.waiters[i] in place && place[o.waiters[i]] == Waiting(o)
      ensures forall o <- mutexes :: o != m ==> o.queue in queues && o.queue != m.queue && o.Valid()
      ensures forall m, m' :: m in mutexes && m' in mutexes && m != m' ==> m.queue != m'.queue
      ensures forall o <- queues :: o.Valid() && forall x <- o.waiters :: x in place && place[x] == Waiting(o)
      ensures Lines().Keys == queues && forall o <- queues :: Lines()[o] == o.waiters
    {
      hide WaitQueue.Valid;
      assert forall o <- queues :: Lines()[o] == o.waiters;
      forall o, i | o in queues && 0 <= i < |o.waiters|
        ensures o.waiters[i] in o.waiters && o.waiters[i] in place && place[o.waiters[i]] == Waiting(o)
      {
        assert o.waiters[i] in Lines()[o];
      }
    }

    lemma KnownMutex(m: Mutex)
      requires QueuesIn(place.Keys) && m in mutexes
      ensures m.queue in queues && (m.locked || m.queue.waiters == [])
      ensures m.queue.waiters != [] ==> m.queue.waiters[0] !in m.queue.waiters[1..]
    {
    }

    lemma MutexQueue(m: Mutex)
      requires m.Valid()
      ensures m.queue.Valid()
    {
    }

    /** Mutex.Acquire up to the switch, seen from the queues. */
    method EnterMutex(m: Mutex, me: Task) returns (blocked: bool)
      requires QueuesIn(place.Keys) && Located() && m in mutexes && me in place
      requires (place[me] == Moving || (place[me] == Running && !m.locked))
      modifies m`locked, m`owner, m`arrivals, m`grants
      modifies m.queue`Head, m.queue`Tail, m.queue`waiters, me`NextWaitTask, m.queue.waiters`NextWaitTask
      ensures QueuesIn(place.Keys)
      ensures m.arrivals == old(m.arrivals) + [me] && blocked == old(m.locked) && m.locked
      ensures if blocked then m.owner == old(m.owner) && m.grants == old(m.grants) && m.queue.waiters == old(m.queue.waiters) + [me]
              else m.owner == me && m.grants == old(m.grants) + [me] && m.queue.waiters == []
      ensures Lines() == old(Lines())[m.queue := m.queue.waiters]
    {
      hide *;
      OpenMutex(m);
      ghost var lines := Lines();
      blocked := m.Enter(me);
      MutexQueue(m);
      LinesAre();
      CloseQueues();
    }

    /** The way through Acquire on which the caller has to wait, up to the switch. */
    method BlockOnMutex(m: Mutex)
      requires Valid() && Settled() && rq.Current != null && rq.Current != idle && m in mutexes && m.locked
      modifies m`locked, m`owner, m`arrivals, m`grants, this`place, rq.Current`State
      modifies m.queue`Head, m.queue`Tail, m.queue`waiters, rq.Current`NextWaitTask, m.queue.waiters`NextWaitTask
      ensures Valid()
      ensures place == old(place)[rq.Current := Waiting(m.queue)] && place.Keys == old(place.Keys)
      ensures m.arrivals == old(m.arrivals) + [rq.Current] && m.locked && m.owner == old(m.owner)
      ensures m.grants == old(m.grants)
      ensures m.queue in queues && m.queue.waiters == old(m.queue.waiters) + [rq.Current]
      ensures rq.Current.State == BLOCKED && Requeued() == rq.Queue() == old(rq.Queue())
    {
      hide *;
      OpenValid();
      OpenSettled();
      KnownMutex(m);
      var me := rq.Current;
      ghost var p, q := place, m.queue;
      StatesAre(p);
      LeaveCpu(BLOCKED);
      WaitForMutex(m, me);
      DressedNow(p, me, Waiting(q));
      HasLeft(p, me, Waiting(q));
    }

    /** A task that has left the CPU waits for a mutex. */
    method WaitForMutex(m: Mutex, me: Task)
      requires Parts() && QueuesIn(place.Keys) && Located() && me in place && place[me] == Moving && m in mutexes
      requires m.locked
      modifies m`locked, m`owner, m`arrivals, m`grants, this`place
      modifies m.queue`Head, m.queue`Tail, m.queue`waiters, me`NextWaitTask, m.queue.waiters`NextWaitTask
      ensures Parts()
      ensures QueuesIn(place.Keys)
      ensures Located()
      ensures place == old(place)[me := Waiting(m.queue)]
      ensures m.arrivals == old(m.arrivals) + [me] && m.locked && m.owner == old(m.owner) && m.grants == old(m.grants)
      ensures m.queue.waiters == old(m.queue.waiters) + [me]
    {
      hide *;
      KnownMutex(m);
      LinesAre();
      OpenLocated();
      ghost var p, q := place, m.queue;
      SameKeys(p, me, Waiting(q));
      MoveWaiting(p, rq.Current, rq.tasks, wheel.asleep, Lines(), me, q);
      var blocked := EnterMutex(m, me);
      Relocate(p[me := Waiting(q)]);
    }

    /** Mutex.Acquire: the current task gets a free mutex at once and waits for a held one. */
    method Acquire(m: Mutex)
      requires Valid() && Settled() && rq.Current != null && rq.Current != idle && m in mutexes
      modifies m`locked, m`owner, m`arrivals, m`grants, this`place
      modifies m.queue`Head, m.queue`Tail, m.queue`waiters, rq.Current`NextWaitTask, m.queue.waiters`NextWaitTask
      modifies rq`CFSLeftmost, rq`MinVRuntime, rq`Current, rq`ForceReschedule, rq`tasks, rq.rbt`Root, rq.rbt`tree
      modifies idle`State
      modifies place.Keys`State, place.Keys`RbtLeft, place.Keys`RbtRight, place.Keys`RbtParent, place.Keys`Color
      ensures Valid()
      ensures Settled()
      ensures place.Keys == old(place.Keys)
      ensures m.arrivals == old(m.arrivals) + [old(rq.Current)] && m.locked
      ensures !old(m.locked) ==> m.owner == rq.Current == old(rq.Current) && m.grants == old(m.grants) + [rq.Current]
      ensures old(m.locked) ==> m.owner == old(m.owner) && m.grants == old(m.grants) && rq.Current != old(rq.Current)
      ensures old(m.locked) ==> m.queue.waiters == old(m.queue.waiters) + [old(rq.Current)]
      ensures if old(m.locked) then NextRuns(old(rq.Queue())) else rq.Queue() == old(rq.Queue()) && place == old(place)
      ensures forall t <- place ::
        t.State == if !old(m.locked) then old(t.State)
                   else if t == rq.Current then RUNNING else if t == old(rq.Current) then BLOCKED else old(t.State)
    {
      hide *;
      OpenSettled();
      ghost var me := rq.Current;
      if m.locked {
        BlockOnMutex(m);
        Schedule();
        CloseNext(old(rq.Queue()));
        NotWaiting(m.queue, me);
      } else {
        TakeFreeMutex(m);
      }
    }

    method TakeFreeMutex(m: Mutex)
      requires Valid() && Settled() && rq.Current != null && rq.Current != idle && m in mutexes && !m.locked
      modifies m`locked, m`owner, m`arrivals, m`grants
      modifies m.queue`Head, m.queue`Tail, m.queue`waiters, rq.Current`NextWaitTask, m.queue.waiters`NextWaitTask
      ensures Valid()
      ensures Settled()
      ensures m.arrivals == old(m.arrivals) + [rq.Current] && m.locked && m.owner == rq.Current
      ensures m.grants == old(m.grants) + [rq.Current]
    {
      hide *;
      OpenValid();
      OpenSettled();
      OpenMutex(m);
      ghost var lines := Lines();
      var blocked := EnterMutex(m, rq.Current);
      LinesAre();
      assert Lines() == lines;
      OpenLocated();
      CloseValid();
    }

    /** The pointers of Mutex.Release, seen from the queues. */
    method LeaveMutex(m: Mutex) returns (next: Task?)
      requires QueuesIn(place.Keys) && Located() && m in mutexes
      modifies m`locked, m`owner, m`grants, m.queue`Head, m.queue`Tail, m.queue`waiters
      ensures QueuesIn(place.Keys)
      ensures m.arrivals == old(m.arrivals)
      ensures old(m.queue.waiters) == [] ==>
        next == null && !m.locked && m.grants == old(m.grants) && m.queue.waiters == []
      ensures old(m.queue.waiters) != [] ==>
        && next == old(m.queue.waiters)[0] && m.locked && m.owner == next
        && m.grants == old(m.grants) + [next] && m.queue.waiters == old(m.queue.waiters)[1..] && next !in m.queue.waiters
      ensures Lines() == old(Lines())[m.queue := m.queue.waiters]
    {
      hide *;
      OpenMutex(m);
      FirstIsNotLater(m.queue);
      ghost var lines := Lines();
      next := m.Leave();
      MutexQueue(m);
      LinesAre();
      CloseQueues();
    }

    lemma FirstIsNotLater(q: WaitQueue)
      requires q.Valid()
      ensures q.waiters != [] ==> q.waiters[0] !in q.waiters[1..]
    {
    }

    /** Mutex.Release up to the wakeup. */
    method HandOver(m: Mutex) returns (next: Task?)
      requires Parts() && QueuesIn(place.Keys) && Located() && m in mutexes
      modifies m`locked, m`owner, m`grants, m.queue`Head, m.queue`Tail, m.queue`waiters, this`place
      ensures Parts()
      ensures QueuesIn(place.Keys)
      ensures Located()
      ensures m.arrivals == old(m.arrivals)
      ensures old(m.queue.waiters) == [] ==>
        next == null && !m.locked && m.grants == old(m.grants) && m.queue.waiters == [] && place == old(place)
      ensures old(m.queue.waiters) != [] ==>
        && next == old(m.queue.waiters)[0] && m.locked && m.owner == next && m.grants == old(m.grants) + [next]
        && m.queue.waiters == old(m.queue.waiters)[1..]
        && next in old(place) && old(place)[next] == Waiting(m.queue) && place == old(place)[next := Moving]
    {
      hide *;
      KnownMutex(m);
      LinesAre();
      OpenLocated();
      ghost var p, lines := place, Lines();
      next := LeaveMutex(m);
      LinesAre();
      if next != null {
        MoveFirst(p, rq.Current, rq.tasks, wheel.asleep, lines, m.queue);
        SameKeys(p, next, Moving);
        place := p[next := Moving];
      } else {
        assert Lines() == lines;
      }
      CloseLocated();
    }

    /** Mutex.Release: the task that has waited longest owns the mutex before anybody else can
        see it free, and becomes ready with a boost. */
    method Release(m: Mutex)
      requires Valid() && Settled() && m in mutexes
      modifies m`locked, m`owner, m`grants, m.queue`Head, m.queue`Tail, m.queue`waiters, this`place
      modifies rq`CFSLeftmost, rq`ForceReschedule, rq`tasks, rq.rbt`Root, rq.rbt`tree, m.queue.waiters`vruntime
      modifies place.Keys`RbtLeft, place.Keys`RbtRight, place.Keys`RbtParent, place.Keys`Color
      ensures Valid()
      ensures Settled()
      ensures place.Keys == old(place.Keys) && m.arrivals == old(m.arrivals)
      ensures old(m.queue.waiters) == [] ==>
        !m.locked && m.grants == old(m.grants) && place == old(place) && rq.Queue() == old(rq.Queue())
      ensures old(m.queue.waiters) != [] ==>
        && m.locked && m.owner == old(m.queue.waiters)[0] && m.grants == old(m.grants) + [old(m.queue.waiters)[0]]
        && m.queue.waiters == old(m.queue.waiters)[1..]
        && old(m.queue.waiters)[0] in place && place[old(m.queue.waiters)[0]] == Ready
        && rq.Queue() == Q.Insert(old(rq.Queue()), Q.Entry(old(m.queue.waiters)[0], BoostKey(rq.MinVRuntime)))
    {
      hide *;
      OpenValid();
      OpenSettled();
      ghost var p := place;
      StatesAre(p);
      var next := HandOver(m);
      if next != null {
        Boost(next, p);
      } else {
        OpenLocated();
        CloseValid();
      }
    }

    /** The wakeup at the end of Release. */
    method Boost(t: Task, ghost p: map<Task, Place>)
      requires Parts() && QueuesIn(place.Keys) && Located() && t in p && p[t].Waiting? && place == p[t := Moving]
      requires forall x <- p :: x.Weight >= MIN_WEIGHT && p[x] != Moving
      requires rq.Current == idle || (rq.Current in p && p[rq.Current] == Running && rq.Current.State == RUNNING)
      requires Dressed(p)
      modifies rq`CFSLeftmost, rq`ForceReschedule, rq`tasks, rq.rbt`Root, rq.rbt`tree, this`place, t`vruntime
      modifies place.Keys`RbtLeft, place.Keys`RbtRight, place.Keys`RbtParent, place.Keys`Color
      ensures Valid()
      ensures Settled()
      ensures place == p[t := Ready] && place.Keys == p.Keys
      ensures rq.Queue() == Q.Insert(old(rq.Queue()), Q.Entry(t, BoostKey(rq.MinVRuntime)))
    {
      hide *;
      StatesAre(p);
      NotIdle(t);
      UnblockTaskWithIOBoost(t);
      DressedNow(p, t, Ready);
      SameTasks(p, t);
      HasWoken(p, t, rq.Current);
    }

    lemma NotIdle(t: Task)
      requires Located() && Parts() && t in place
      ensures t != idle
    {
    }

    /** SchedulerAddTask: a new task joins the run queue if it is ready. The idle task has no
        place in the queue. */
    method AddTask(t: Task)
      requires Valid() && Settled() && t !in place && t.Weight >= 15
      modifies rq`CFSLeftmost, rq`ForceReschedule, rq`tasks, rq.rbt`Root, rq.rbt`tree, this`place
      modifies (place.Keys + {t})`RbtLeft, (place.Keys + {t})`RbtRight, (place.Keys + {t})`RbtParent
      modifies (place.Keys + {t})`Color
      ensures Valid()
      ensures Settled()
      ensures var joins := t.State == READY && t.pid != PID_IDLE;
        && place == (if joins then old(place)[t := Ready] else old(place))
        && rq.Queue() == if joins then Q.Insert(old(rq.Queue()), Q.Entry(t, t.vruntime)) else old(rq.Queue())
    {
      assert t.Weight >= MIN_WEIGHT;
      hide *;
      if t.State == READY && t.pid != PID_IDLE { Admit(t); }
    }

    /** A new task that is ready joins the run queue. */
    method Admit(t: Task)
      requires Valid() && Settled() && t !in place && t.pid != PID_IDLE && t.State == READY && t.Weight >= MIN_WEIGHT
      modifies rq`CFSLeftmost, rq`ForceReschedule, rq`tasks, rq.rbt`Root, rq.rbt`tree, this`place
      modifies (place.Keys + {t})`RbtLeft, (place.Keys + {t})`RbtRight, (place.Keys + {t})`RbtParent
      modifies (place.Keys + {t})`Color
      ensures Valid()
      ensures Settled()
      ensures place == old(place)[t := Ready]
      ensures rq.Queue() == Q.Insert(old(rq.Queue()), Q.Entry(t, t.vruntime))
    {
      hide *;
      OpenValid();
      OpenSettled();
      ghost var p := place[t := Moving];
      MoreKeys(place, t);
      MoveNew(place, rq.Current, rq.tasks, wheel.asleep, Lines(), t);
      StatesAre(place);
      Relocate(p);
      MakeReady(t);
      DressedNow(p, t, Ready);
      HasWoken(p, t, rq.Current);
    }

    lemma MoreKeys(p: map<Task, Place>, t: Task)
      requires QueuesIn(p.Keys)
      ensures QueuesIn(p[t := Moving].Keys) && p[t := Moving].Keys == p.Keys + {t}
    {
      assert forall q <- queues :: forall x <- q.waiters :: x in p[t := Moving].Keys;
    }

    lemma MoveNew(p: map<Task, Place>, current: Task?, tasks: seq<Task>, asleep: map<Task, nat>, lines: map<WaitQueue,
                  seq<Task>>, t: Task)
      requires LocatedIn(p, current, tasks, asleep, lines) && t !in p && t.pid != PID_IDLE
      ensures LocatedIn(p[t := Moving], current, tasks, asleep, lines)
    {
    }
  }

  /** The vruntime a task is given when what it waited for has happened. */
  function BoostKey(minVRuntime: nat): nat {
    if minVRuntime > 10 then minVRuntime - 10 else 0
  }
}
