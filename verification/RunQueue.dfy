/** The CFS run queue of kernel/task/scheduler.cpp:25-90: the red-black tree keyed by
    vruntime, with a cached pointer to its leftmost task. */
module RunQueues {
  import opened RbShape
  import opened RbTrees
  import opened TaskModel
  import Q = StableQueue

  type Entries = seq<Q.Entry<Task>>

  ghost function EntryOf(t: Task): Q.Entry<Task>
    reads t`vruntime
  {
    Q.Entry(t, t.vruntime)
  }

  ghost function EntriesOf(s: seq<Task>): (e: Entries)
    reads s`vruntime
    ensures |e| == |s| && forall i :: 0 <= i < |s| ==> e[i] == Q.Entry(s[i], s[i].vruntime)
  {
    if s == [] then [] else [Q.Entry(s[0], s[0].vruntime)] + EntriesOf(s[1..])
  }

  class RunQueue {
    const rbt: RbTree
    var CFSLeftmost: Task?
    var MinVRuntime: nat
    var Current: Task?
    var ForceReschedule: bool
    /** The tasks in the tree, in order. */
    ghost var tasks: seq<Task>

    constructor ()
      ensures Valid() && fresh(rbt) && tasks == [] && Current == null && MinVRuntime == 0
    {
      rbt := new RbTree();
      CFSLeftmost := null;
      MinVRuntime := 0;
      Current := null;
      ForceReschedule := false;
      tasks := [];
    }

    ghost function Queue(): Entries
      reads this`tasks, tasks`vruntime
    {
      EntriesOf(tasks)
    }

    ghost predicate Valid()
      reads this`CFSLeftmost, this`tasks, rbt`Root, rbt`tree, tasks`vruntime, tasks`RbtLeft, tasks`RbtRight
      reads tasks`RbtParent, tasks`Color
    {
      && tasks == Inorder(rbt.tree) && (forall n <- Nodes(rbt.tree) :: n in tasks)
      && rbt.Shaped() && RedBlack(rbt.tree)
      && Q.Sorted(Queue())
      && CFSLeftmost == (if tasks == [] then null else tasks[0])
      && forall t <- tasks :: t.pid != PID_IDLE
    }

    /** What the order says around a position. */
    lemma OrderAround(p: Path<Task>, t: Tree<Task>)
      requires Q.Sorted(EntriesOf(Inorder(Plug(p, t)))) && t.Node?
      ensures forall x <- Inorder(t.left) :: x.vruntime <= t.item.vruntime
      ensures forall x <- Inorder(t.right) :: t.item.vruntime <= x.vruntime
    {
      PlugInorder(p, t);
      assert Inorder(t) == Inorder(t.left) + [t.item] + Inorder(t.right);
      hide *;
      SortedMiddle(Before(p), Inorder(t.left), t.item, Inorder(t.right), After(p));
    }

    lemma SortedMiddle(a: seq<Task>, b: seq<Task>, x: Task, c: seq<Task>, d: seq<Task>)
      requires Q.Sorted(EntriesOf(a + (b + [x] + c) + d))
      ensures forall y <- b :: y.vruntime <= x.vruntime
      ensures forall y <- c :: x.vruntime <= y.vruntime
    {
      hide *;
      var s, n, m := a + (b + [x] + c) + d, |a|, |b|;
      assert s[n + m] == x;
      forall y | y in b ensures y.vruntime <= x.vruntime {
        var i :| 0 <= i < m && b[i] == y;
        assert s[n + i] == y;
        SortedAt(s, n + i, n + m);
      }
      forall y | y in c ensures x.vruntime <= y.vruntime {
        var i :| 0 <= i < |c| && c[i] == y;
        assert s[n + m + 1 + i] == y;
        SortedAt(s, n + m, n + m + 1 + i);
      }
    }

    lemma SortedAt(s: seq<Task>, i: nat, j: nat)
      requires Q.Sorted(EntriesOf(s)) && i < j < |s|
      ensures s[i].vruntime <= s[j].vruntime
    {
      hide EntriesOf;
      assert EntriesOf(s)[i].key <= EntriesOf(s)[j].key;
    }

    /** Comparing with the task at a position bounds what lies on the other side of it. */
    lemma BoundsBelow(p: Path<Task>, t: Tree<Task>, n: Task)
      requires Q.Sorted(EntriesOf(Inorder(Plug(p, t)))) && t.Node?
      requires forall x <- Before(p) :: x.vruntime <= n.vruntime
      requires forall x <- After(p) :: n.vruntime < x.vruntime
      ensures n.vruntime < t.item.vruntime ==>
        forall x <- After(InLeft(p, t.item, t.color, t.right)) :: n.vruntime < x.vruntime
      ensures t.item.vruntime <= n.vruntime ==>
        forall x <- Before(InRight(p, t.item, t.color, t.left)) :: x.vruntime <= n.vruntime
    {
      OrderAround(p, t);
    }

    /** The place found by comparing keys on the way down is the place of a stable insertion. */
    lemma InsertedInOrder(p: Path<Task>, n: Task)
      requires Q.Sorted(EntriesOf(Inorder(Plug(p, Nil))))
      requires forall x <- Before(p) :: x.vruntime <= n.vruntime
      requires forall x <- After(p) :: n.vruntime < x.vruntime
      ensures var e := EntriesOf(Inorder(Plug(p, Node(Nil, n, Red, Nil))));
        e == Q.Insert(EntriesOf(Inorder(Plug(p, Nil))), Q.Entry(n, n.vruntime)) && Q.Sorted(e)
      ensures Inorder(Plug(p, Node(Nil, n, Red, Nil))) == Before(p) + [n] + After(p)
      ensures Inorder(Plug(p, Nil)) == Before(p) + After(p)
    {
      PlugInorder(p, Nil);
      PlugInorder(p, Node(Nil, n, Red, Nil));
      assert Inorder(Plug(p, Nil)) == Before(p) + After(p);
      assert Inorder(Node(Nil, n, Red, Nil)) == [n];
      SplicedOrder(Before(p), n, After(p));
    }

    lemma SplicedOrder(a: seq<Task>, n: Task, b: seq<Task>)
      requires Q.Sorted(EntriesOf(a + b))
      requires forall x <- a :: x.vruntime <= n.vruntime
      requires forall x <- b :: n.vruntime < x.vruntime
      ensures var e := EntriesOf(a + [n] + b);
        e == Q.Insert(EntriesOf(a + b), Q.Entry(n, n.vruntime)) && Q.Sorted(e)
    {
      hide EntriesOf, Q.Insert;
      var e, k, added := EntriesOf(a + b), |a|, Q.Entry(n, n.vruntime);
      assert forall i :: 0 <= i < k ==> (a + b)[i] in a;
      assert forall i :: k <= i < |e| ==> (a + b)[i] in b;
      Q.InsertHere(e, added, k);
      Q.InsertContents(e, added);
      var e' := EntriesOf(a + [n] + b);
      forall i | 0 <= i < |e'| ensures e'[i] == (e[..k] + [added] + e[k..])[i] {
        if i > k { assert (a + [n] + b)[i] == (a + b)[i - 1]; }
      }
    }

    /** The descent of CFSEnqueue to an empty place: right on equal keys. */
    method Descend(NewTask: Task) returns (parent: Task?, left: bool, leftmost: bool, ghost p: Path<Task>)
      requires Valid()
      ensures Valid() && rbt.tree == old(rbt.tree) && Queue() == old(Queue())
      ensures rbt.tree == Plug(p, Nil) && parent == ParentOf(p) && (!p.Top? ==> left == p.InLeft?)
      ensures leftmost <==> Before(p) == []
      ensures forall x <- Before(p) :: x.vruntime <= NewTask.vruntime
      ensures forall x <- After(p) :: NewTask.vruntime < x.vruntime
    {
      hide RedBlack, EntriesOf, RbTree.Shaped;
      rbt.Look(Top, rbt.tree);
      var link := rbt.Root;
      parent, left, leftmost := null, false, true;
      ghost var t;
      p, t := Top, rbt.tree;
      while link != null
        invariant Valid() == old(Valid())
        invariant Queue() == old(Queue())
        invariant rbt.tree == Plug(p, t) && link == RootOf(t)
        invariant parent == ParentOf(p) && (!p.Top? ==> left == p.InLeft?)
        invariant leftmost <==> Before(p) == []
        invariant forall x <- Before(p) :: x.vruntime <= NewTask.vruntime
        invariant forall x <- After(p) :: NewTask.vruntime < x.vruntime
        decreases t
      {
        rbt.Look(p, t);
        BoundsBelow(p, t, NewTask);
        parent := link;
        if NewTask.vruntime < parent.vruntime {
          link := parent.RbtLeft;
          left := true;
          p, t := InLeft(p, t.item, t.color, t.right), t.left;
        } else {
          link := parent.RbtRight;
          left := false;
          leftmost := false;
          p, t := InRight(p, t.item, t.color, t.left), t.right;
        }
      }
    }

    /** The descent, with what its place means for the order. */
    method FindPlace(NewTask: Task)
      returns (parent: Task?, left: bool, leftmost: bool, ghost p: Path<Task>, ghost s: seq<Task>)
      requires Valid() && NewTask !in tasks && NewTask.pid != PID_IDLE
      ensures Valid() && rbt.tree == old(rbt.tree) && Queue() == old(Queue())
      ensures rbt.tree == Plug(p, Nil) && parent == ParentOf(p) && (!p.Top? ==> left == p.InLeft?)
      ensures NewTask !in Nodes(rbt.tree) && s == Before(p) + [NewTask] + After(p)
      ensures EntriesOf(s) == Q.Insert(Queue(), Q.Entry(NewTask, NewTask.vruntime)) && Q.Sorted(EntriesOf(s))
      ensures forall x :: x in s <==> x in tasks || x == NewTask
      ensures s[0] == if leftmost then NewTask else CFSLeftmost
      ensures forall t <- s :: t.pid != PID_IDLE
    {
      parent, left, leftmost, p := Descend(NewTask);
      NodesAreInorder(rbt.tree, NewTask);
      InsertedInOrder(p, NewTask);
      s := Before(p) + [NewTask] + After(p);
      forall t | t in s ensures t.pid != PID_IDLE {
        assert t == NewTask || t in tasks;
      }
    }

    /** Linking in a leaf changes the order as said and no key. */
    method Link(n: Task, parent: Task?, left: bool, ghost p: Path<Task>, ghost s: seq<Task>)
      requires forall x <- Nodes(rbt.tree) :: x in tasks
      requires rbt.Shaped() && RedBlack(rbt.tree) && rbt.tree == Plug(p, Nil) && n !in Nodes(rbt.tree)
      requires parent == ParentOf(p) && (!p.Top? ==> left == p.InLeft?) && s == Before(p) + [n] + After(p)
      modifies this`tasks, rbt`Root, rbt`tree
      modifies tasks`RbtLeft, tasks`RbtRight, tasks`RbtParent, tasks`Color
      modifies n`RbtLeft, n`RbtRight, n`RbtParent, n`Color
      ensures rbt.Shaped() && RedBlack(rbt.tree) && Inorder(rbt.tree) == tasks == s && EntriesOf(s) == old(EntriesOf(s))
      ensures forall x <- Nodes(rbt.tree) :: x in tasks
    {
      hide RbTree.Shaped, RedBlack, EntriesOf;
      ghost var e := EntriesOf(s);
      rbt.InsertLeaf(n, parent, left, p);
      tasks := s;
      AllNodesInorder(rbt.tree);
      assert forall i :: 0 <= i < |s| ==> s[i].vruntime == e[i].key;
      assert EntriesOf(s) == e;
    }

    /** CFSEnqueue after its first line: down to an empty place, attach, repair. */
    method Insert(NewTask: Task)
      requires Valid() && NewTask !in tasks && NewTask.pid != PID_IDLE
      modifies this`CFSLeftmost, this`tasks, rbt`Root, rbt`tree
      modifies tasks`RbtLeft, tasks`RbtRight, tasks`RbtParent, tasks`Color
      modifies NewTask`RbtLeft, NewTask`RbtRight, NewTask`RbtParent, NewTask`Color
      ensures Valid()
      ensures Queue() == Q.Insert(old(Queue()), Q.Entry(NewTask, NewTask.vruntime))
      ensures forall x :: x in tasks <==> x in old(tasks) || x == NewTask
    {
      hide *;
      OpenValid();
      var parent, left, leftmost;
      ghost var p, s;
      parent, left, leftmost, p, s := FindPlace(NewTask);
      OpenValid();
      if leftmost {
        CFSLeftmost := NewTask;
      }
      Link(NewTask, parent, left, p, s);
      CloseValid();
    }

    method CFSEnqueue(NewTask: Task?)
      requires Valid() && (NewTask != null ==> NewTask !in tasks)
      modifies this`CFSLeftmost, this`ForceReschedule, this`tasks, rbt`Root, rbt`tree
      modifies tasks`RbtLeft, tasks`RbtRight, tasks`RbtParent, tasks`Color
      modifies (if NewTask == null then {} else {NewTask})`RbtLeft, (if NewTask == null then {} else {NewTask})`RbtRight
      modifies (if NewTask == null then {} else {NewTask})`RbtParent, (if NewTask == null then {} else {NewTask})`Color
      ensures Valid()
      ensures NewTask == null || NewTask.pid == PID_IDLE ==>
        tasks == old(tasks) && ForceReschedule == old(ForceReschedule)
      ensures NewTask != null && NewTask.pid != PID_IDLE ==>
        && Queue() == Q.Insert(old(Queue()), Q.Entry(NewTask, NewTask.vruntime))
        && (forall x :: x in tasks <==> x in old(tasks) || x == NewTask)
        && ForceReschedule == (old(ForceReschedule) || (Current != null && NewTask.vruntime < Current.vruntime))
    {
      hide Valid, Queue;
      if NewTask == null || NewTask.pid == PID_IDLE { return; }
      Enqueue(NewTask);
    }

    /** CFSEnqueue of a task that is there and not the idle task. */
    method Enqueue(NewTask: Task)
      requires Valid() && NewTask !in tasks && NewTask.pid != PID_IDLE
      modifies this`CFSLeftmost, this`ForceReschedule, this`tasks, rbt`Root, rbt`tree
      modifies tasks`RbtLeft, tasks`RbtRight, tasks`RbtParent, tasks`Color
      modifies NewTask`RbtLeft, NewTask`RbtRight, NewTask`RbtParent, NewTask`Color
      ensures Valid()
      ensures Queue() == Q.Insert(old(Queue()), Q.Entry(NewTask, NewTask.vruntime))
      ensures forall x :: x in tasks <==> x in old(tasks) || x == NewTask
      ensures ForceReschedule == (old(ForceReschedule) || (Current != null && NewTask.vruntime < Current.vruntime))
    {
      hide *;
      Insert(NewTask);
      if Current != null && NewTask.vruntime < Current.vruntime {
        ForceReschedule := true;
      }
    }

    /** Where the first task stands, and where the second. */
    lemma FirstTask(p: Path<Task>, t: Tree<Task>)
      requires tasks == Inorder(rbt.tree)
      requires Plug(p, t) == rbt.tree && t.Node? && Distinct(rbt.tree) && tasks != [] && tasks[0] == t.item
      ensures |tasks| == 1 <==> t.right.Nil? && p.Top?
      ensures t.right.Node? ==> Inorder(t.right) != [] && tasks[1] == Inorder(t.right)[0]
      ensures t.right.Nil? && !p.Top? ==> p.InLeft? && tasks[1] == p.item
    {
      PlugInorder(p, t);
      var k := |Before(p)| + |Inorder(t.left)|;
      DistinctInorder(rbt.tree);
      assert tasks[k] == t.item;
      assert Before(p) == [] && Inorder(t.left) == [];
      assert tasks == [t.item] + Inorder(t.right) + After(p);
      assert !p.Top? ==> p.InLeft? && After(p)[0] == p.item;
    }

    /** The first lines of CFSDequeue: who is first once the first task has left. */
    method SecondTask(T: Task, ghost s: seq<Task>) returns (next: Task?)
      requires Valid() && T == CFSLeftmost && s == tasks
      ensures Valid() && rbt.tree == old(rbt.tree) && Queue() == old(Queue()) && CFSLeftmost == old(CFSLeftmost)
      ensures next == if |tasks| == 1 then null else tasks[1]
    {
      NodesAreInorder(rbt.tree, T);
      ghost var p, t := Focus(Top, rbt.tree, T);
      rbt.Look(p, t);
      FirstTask(p, t);
      next := T.RbtRight;
      if next != null {
        ghost var q, u;
        next, q, u := rbt.Leftmost(next, InRight(p, T, t.color, t.left), t.right);
        SuccessorFirst(q, u);
      } else {
        next := T.RbtParent;
      }
    }

    lemma {:induction false} EntriesWithout(s: seq<Task>, t: Task)
      ensures EntriesOf(Without(s, t)) == Q.Remove(EntriesOf(s), t)
    {
      if s != [] {
        EntriesWithout(s[1..], t);
        assert EntriesOf(s)[1..] == EntriesOf(s[1..]);
        assert EntriesOf([s[0]] + Without(s[1..], t)) == [EntriesOf(s)[0]] + EntriesOf(Without(s[1..], t));
      }
    }

    /** Unlinking a task changes the order as said and no key. */
    method Unlink(t: Task, ghost s: seq<Task>)
      requires tasks == Inorder(rbt.tree) && forall x <- Nodes(rbt.tree) :: x in tasks
      requires rbt.Shaped() && RedBlack(rbt.tree) && t in Nodes(rbt.tree) && s == Without(tasks, t)
      modifies this`tasks, rbt`Root, rbt`tree
      modifies tasks`RbtLeft, tasks`RbtRight, tasks`RbtParent, tasks`Color
      ensures rbt.Shaped() && RedBlack(rbt.tree) && Inorder(rbt.tree) == tasks == s && EntriesOf(s) == old(EntriesOf(s))
      ensures forall x <- Nodes(rbt.tree) :: x in tasks
      ensures Nodes(rbt.tree) == old(Nodes(rbt.tree)) - {t}
      ensures t.RbtLeft == null && t.RbtRight == null && t.RbtParent == null
    {
      hide RbTree.Shaped, RedBlack, EntriesOf;
      ghost var e := EntriesOf(s);
      rbt.Erase(t);
      tasks := s;
      AllNodesInorder(rbt.tree);
      assert forall i :: 0 <= i < |s| ==> s[i].vruntime == e[i].key;
      assert EntriesOf(s) == e;
    }

    method CFSDequeue(T: Task)
      requires Valid() && T in tasks
      modifies this`CFSLeftmost, this`tasks, rbt`Root, rbt`tree
      modifies tasks`RbtLeft, tasks`RbtRight, tasks`RbtParent, tasks`Color
      ensures Valid() && tasks == Without(old(tasks), T) && T !in tasks
      ensures Queue() == Q.Remove(old(Queue()), T)
      ensures T.RbtLeft == null && T.RbtRight == null && T.RbtParent == null
    {
      hide *;
      OpenValid();
      AfterDequeue(T);
      if T == CFSLeftmost {
        var next := SecondTask(T, tasks);
        CFSLeftmost := next;
      }
      Unlink(T, Without(tasks, T));
      CloseValid();
    }

    lemma OpenValid()
      requires Valid()
      ensures tasks == Inorder(rbt.tree) && (forall n <- Nodes(rbt.tree) :: n in tasks) && rbt.Shaped()
      ensures RedBlack(rbt.tree)
      ensures Queue() == EntriesOf(tasks) && Q.Sorted(Queue())
      ensures CFSLeftmost == (if tasks == [] then null else tasks[0])
      ensures forall t <- tasks :: t.pid != PID_IDLE
    {
    }

    lemma CloseValid()
      requires tasks == Inorder(rbt.tree) && (forall n <- Nodes(rbt.tree) :: n in tasks) && rbt.Shaped()
      requires RedBlack(rbt.tree)
      requires Q.Sorted(EntriesOf(tasks)) && CFSLeftmost == (if tasks == [] then null else tasks[0])
      requires forall t <- tasks :: t.pid != PID_IDLE
      ensures Valid() && Queue() == EntriesOf(tasks)
    {
    }

    /** What leaving does to the order. */
    lemma AfterDequeue(T: Task)
      requires tasks == Inorder(rbt.tree) && rbt.Shaped() && Q.Sorted(Queue()) && T in tasks
      ensures var s := Without(tasks, T);
        && EntriesOf(s) == Q.Remove(Queue(), T) && Q.Sorted(EntriesOf(s))
        && T in Nodes(rbt.tree) && T !in s && (forall t <- s :: t in tasks)
        && s == if T == tasks[0] then tasks[1..] else [tasks[0]] + Without(tasks[1..], T)
    {
      NodesAreInorder(rbt.tree, T);
      EntriesWithout(tasks, T);
      Q.RemoveSorted(Queue(), T);
      DistinctInorder(rbt.tree);
      WithoutGone(tasks, T);
    }

    method CFSPickNext() returns (Next: Task?)
      requires Valid()
      modifies this`CFSLeftmost, this`tasks, rbt`Root, rbt`tree
      modifies tasks`RbtLeft, tasks`RbtRight, tasks`RbtParent, tasks`Color
      ensures Valid()
      ensures old(Queue()) == [] ==> Next == null && tasks == old(tasks) && Queue() == []
      ensures old(Queue()) != [] ==>
        && Next != null && old(Queue()) == [EntryOf(Next)] + Queue()
        && old(tasks) == [Next] + tasks && Next !in tasks && Next.pid != PID_IDLE
    {
      hide *;
      OpenValid();
      NoEntries();
      Next := CFSLeftmost;
      if Next != null {
        FirstOut();
        CFSDequeue(Next);
      }
    }

    lemma NoEntries()
      ensures EntriesOf([]) == []
    {
    }

    lemma FirstOut()
      requires Valid() && tasks != []
      ensures Queue() == [EntryOf(tasks[0])] + Q.Remove(Queue(), tasks[0])
      ensures tasks == [tasks[0]] + Without(tasks, tasks[0])
    {
      hide Valid;
      OpenValid();
      AfterDequeue(tasks[0]);
    }
  }
}
