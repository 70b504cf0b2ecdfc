/** The queues in which blocked tasks wait: the wait queues of kernel/task/scheduler.cpp:427-472
    and the mutex of kernel/task/mutex.cpp, both linked through NextWaitTask. */
module Waiting {
  import opened Basics
  import opened TaskModel
  import R = RwLocks

  ghost function At(s: seq<Task>, i: nat): Task? {
    if i < |s| then s[i] else null
  }

  class WaitQueue {
    var Head: Task?
    var Tail: Task?
    ghost var waiters: seq<Task>

    constructor ()
      ensures Valid() && waiters == []
    {
      Head, Tail, waiters := null, null, [];
    }

    ghost predicate Valid()
      reads this`Head, this`Tail, this`waiters, waiters`NextWaitTask
    {
      && NoDuplicates(waiters)
      && Head == At(waiters, 0) && Tail == (if waiters == [] then null else waiters[|waiters| - 1])
      && forall i :: 0 <= i < |waiters| ==> waiters[i].NextWaitTask == At(waiters, i + 1)
    }

    lemma HeadIsFirst()
      requires Valid()
      ensures Head == null <==> waiters == []
    {
    }

    method Append(t: Task)
      requires Valid() && t !in waiters
      modifies this`Head, this`Tail, this`waiters, t`NextWaitTask, waiters`NextWaitTask
      ensures Valid() && waiters == old(waiters) + [t]
    {
      t.NextWaitTask := null;
      if Head == null {
        Head, Tail := t, t;
      } else {
        Tail.NextWaitTask := t;
        Tail := t;
      }
      waiters := waiters + [t];
    }

    method Pop() returns (t: Task)
      requires Valid() && waiters != []
      modifies this`Head, this`Tail, this`waiters
      ensures Valid() && t == old(waiters)[0] && waiters == old(waiters)[1..] && t !in waiters
    {
      t := Head;
      assert t.NextWaitTask == At(waiters, 1);
      Head := Head.NextWaitTask;
      if Head == null {
        Tail := null;
      }
      waiters := waiters[1..];
    }
  }

  /** A mutex. `arrivals` and `grants` record, over its whole life, who asked for it and who
      was given it. */
  class Mutex {
    var locked: bool
    var owner: Task?
    const queue: WaitQueue
    ghost var arrivals: seq<Task>
    ghost var grants: seq<Task>

    constructor ()
      ensures Valid() && !locked && arrivals == [] && fresh(queue)
    {
      locked, owner := false, null;
      queue := new WaitQueue();
      arrivals, grants := [], [];
    }

    /** At most one holder, first come first served: whoever has not been granted the mutex is
        waiting, in order of arrival, and nobody waits for a free mutex. */
    ghost predicate Valid()
      reads this`locked, this`owner, this`arrivals, this`grants
      reads queue`Head, queue`Tail, queue`waiters, queue.waiters`NextWaitTask
    {
      && queue.Valid() && arrivals == grants + queue.waiters
      && (if locked then grants != [] && owner == grants[|grants| - 1] else owner == null && queue.waiters == [])
    }

    /** So grants are made in order of arrival, and nobody has to wait for a free mutex. */
    lemma FirstComeFirstServed()
      requires Valid()
      ensures grants <= arrivals && queue.waiters == arrivals[|grants|..]
      ensures locked ==> grants != [] && owner == grants[|grants| - 1]
      ensures !locked ==> owner == null && grants == arrivals
    {
      assert arrivals[|grants|..] == queue.waiters;
    }

    /** The mutex as a value, as the readers/writer lock is built from it. */
    ghost function AsLock(): R.Lock<Task>
      reads this`locked, this`owner, queue`waiters
    {
      var o: Option<Task> := if owner == null then None else var holder: Task := owner; Some(holder);
      R.Lock(locked, o, queue.waiters)
    }

    /** Acquire up to the switch: `blocked` says whether the caller has to wait. */
    method Enter(me: Task) returns (blocked: bool)
      requires Valid() && me !in queue.waiters
      modifies this`locked, this`owner, this`arrivals, this`grants
      modifies queue`Head, queue`Tail, queue`waiters, me`NextWaitTask, queue.waiters`NextWaitTask
      ensures Valid() && arrivals == old(arrivals) + [me] && blocked == old(locked) && locked
      ensures if blocked then owner == old(owner) && grants == old(grants) && queue.waiters == old(queue.waiters) + [me]
              else owner == me && grants == old(grants) + [me] && queue.waiters == []
      ensures AsLock() == R.Taken(old(AsLock()), me)
    {
      hide WaitQueue.Valid;
      blocked := locked;
      if !locked {
        locked := true;
        owner := me;
        grants := grants + [me];
      } else {
        queue.Append(me);
      }
      arrivals := arrivals + [me];
    }

    /** Release up to the wakeup: the oldest waiter becomes the owner while the mutex stays
        locked; only without waiters is the mutex seen free. */
    method Leave() returns (next: Task?)
      requires Valid()
      modifies this`locked, this`owner, this`grants, queue`Head, queue`Tail, queue`waiters
      ensures Valid() && arrivals == old(arrivals)
      ensures old(queue.waiters) == [] ==> next == null && !locked && grants == old(grants) && queue.waiters == []
      ensures old(queue.waiters) != [] ==>
        && next == old(queue.waiters)[0] && locked && owner == next
        && grants == old(grants) + [next] && queue.waiters == old(queue.waiters)[1..]
      ensures AsLock() == R.Released(old(AsLock()))
    {
      queue.HeadIsFirst();
      hide WaitQueue.Valid;
      if queue.Head != null {
        next := queue.Pop();
        owner := next;
        assert old(queue.waiters) == [next] + queue.waiters;
        assert grants + ([next] + queue.waiters) == grants + [next] + queue.waiters;
        grants := grants + [next];
      } else {
        next := null;
        locked := false;
        owner := null;
      }
    }
  }
}
