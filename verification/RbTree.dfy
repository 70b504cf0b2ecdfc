/** The intrusive red-black tree of kernel/task/rbt.cpp, on the heap.

    `tree` is the ghost picture of what the pointers say: `LinkOf` gives, for every task in
    it, the four fields the task must hold. The primitive steps (a rotation, a recolouring,
    a transplant) are proved to replace the subtree at one position of the picture, so the
    balancing loops reason about values only. */
module RbTrees {
  import opened RbShape
  import opened TaskModel

  datatype Link = Link(left: Task?, right: Task?, parent: Task?, color: Color)

  ghost function RootOf(t: Tree<Task>): Task? {
    if t.Nil? then null else t.item
  }

  ghost function ParentOf(p: Path<Task>): Task? {
    if p.Top? then null else p.item
  }

  /** The root of a plugged tree, given the root of what is in the hole. */
  ghost function TopOf(p: Path<Task>, hole: Task?): Task? {
    if p.Top? then hole else TopOf(p.up, p.item)
  }

  /** The fields of task n of t, when t hangs below `parent`. */
  ghost function LinkOf(t: Tree<Task>, parent: Task?, n: Task): Link
    requires n in Nodes(t)
  {
    if n == t.item then Link(RootOf(t.left), RootOf(t.right), parent, t.color)
    else if n in Nodes(t.left) then LinkOf(t.left, t.item, n)
    else LinkOf(t.right, t.item, n)
  }

  /** The fields of p's own task, when `hole` is the root of what is plugged in. */
  ghost function HoleLink(p: Path<Task>, hole: Task?): Link
    requires !p.Top?
  {
    if p.InLeft? then Link(hole, RootOf(p.sibling), ParentOf(p.up), p.color)
    else Link(RootOf(p.sibling), hole, ParentOf(p.up), p.color)
  }

  /** The fields of task n on p. */
  ghost function PathLinkOf(p: Path<Task>, hole: Task?, n: Task): Link
    requires n in PathNodes(p)
  {
    if n == p.item then HoleLink(p, hole)
    else if n in Nodes(p.sibling) then LinkOf(p.sibling, p.item, n)
    else PathLinkOf(p.up, p.item, n)
  }

  lemma {:induction false} PlugLinks(p: Path<Task>, t: Tree<Task>, n: Task)
    requires Distinct(Plug(p, t)) && n in Nodes(Plug(p, t))
    ensures n in Nodes(t) || n in PathNodes(p)
    ensures n in Nodes(t) ==> n !in PathNodes(p) && LinkOf(Plug(p, t), null, n) == LinkOf(t, ParentOf(p), n)
    ensures n in PathNodes(p) ==> LinkOf(Plug(p, t), null, n) == PathLinkOf(p, RootOf(t), n)
  {
    PlugNodes(p, t);
    match p
    case Top =>
    case InLeft(up, x, c, s) => PlugLinks(up, Node(t, x, c, s), n);
    case InRight(up, x, c, s) => PlugLinks(up, Node(s, x, c, t), n);
  }

  lemma {:induction false} PlugRoot(p: Path<Task>, t: Tree<Task>)
    ensures RootOf(Plug(p, t)) == TopOf(p, RootOf(t))
  {
    match p
    case Top =>
    case InLeft(up, x, c, s) => PlugRoot(up, Node(t, x, c, s));
    case InRight(up, x, c, s) => PlugRoot(up, Node(s, x, c, t));
  }

  /** The five parts of a rotation: x with y below it on the right, or y with x below it on
      the left, and the subtrees a < x < b < y < e. */
  datatype Turn = Turn(a: Tree<Task>, x: Task, c: Color, b: Tree<Task>, y: Task, d: Color, e: Tree<Task>) {
    function Lefty(): Tree<Task> { Node(Node(a, x, c, b), y, d, e) }
    function Righty(): Tree<Task> { Node(a, x, c, Node(b, y, d, e)) }

    ghost predicate Apart() {
      && Distinct(a) && Distinct(b) && Distinct(e) && x != y
      && x !in Nodes(a) && x !in Nodes(b) && x !in Nodes(e)
      && y !in Nodes(a) && y !in Nodes(b) && y !in Nodes(e)
      && Nodes(a) !! Nodes(b) && Nodes(a) !! Nodes(e) && Nodes(b) !! Nodes(e)
    }
  }

  lemma TurnNodes(r: Turn)
    ensures Nodes(r.Lefty()) == Nodes(r.Righty()) == Nodes(r.a) + {r.x} + Nodes(r.b) + {r.y} + Nodes(r.e)
    ensures Distinct(r.Lefty()) <==> r.Apart()
    ensures Distinct(r.Righty()) <==> r.Apart()
  {
    assert Distinct(Node(r.a, r.x, r.c, r.b)) <==>
      Distinct(r.a) && Distinct(r.b) && r.x !in Nodes(r.a) && r.x !in Nodes(r.b) && Nodes(r.a) !! Nodes(r.b);
    assert Distinct(Node(r.b, r.y, r.d, r.e)) <==>
      Distinct(r.b) && Distinct(r.e) && r.y !in Nodes(r.b) && r.y !in Nodes(r.e) && Nodes(r.b) !! Nodes(r.e);
  }

  lemma RotationNodes(p: Path<Task>, r: Turn)
    ensures Nodes(Plug(p, r.Lefty())) == Nodes(Plug(p, r.Righty())) == PathNodes(p) + Nodes(r.Lefty())
    ensures Distinct(Plug(p, r.Lefty())) <==> Distinct(Plug(p, r.Righty()))
    ensures Distinct(Plug(p, r.Lefty())) ==> r.Apart() && PathDistinct(p) && PathNodes(p) !! Nodes(r.Lefty())
    ensures RootOf(Plug(p, r.Lefty())) == TopOf(p, r.y)
    ensures RootOf(Plug(p, r.Righty())) == TopOf(p, r.x)
    ensures Inorder(Plug(p, r.Lefty())) == Inorder(Plug(p, r.Righty()))
  {
    PlugInorder(p, r.Lefty());
    PlugInorder(p, r.Righty());
    RotationsKeepOrder(r.a, r.x, r.c, r.b, r.y, r.d, r.e);
    TurnNodes(r);
    PlugNodes(p, r.Lefty());
    PlugNodes(p, r.Righty());
    PlugRoot(p, r.Lefty());
    PlugRoot(p, r.Righty());
  }

  /** Only the root of a subtree knows its parent. */
  lemma Reparent(t: Tree<Task>, parent: Task?, parent': Task?, n: Task)
    requires n in Nodes(t)
    ensures LinkOf(t, parent', n)
         == if n == RootOf(t) then LinkOf(t, parent, n).(parent := parent') else LinkOf(t, parent, n)
  {
  }

  /** Every field in which the two sides of a rotation differ. */
  lemma TurnLinks(r: Turn, parent: Task?, n: Task)
    requires r.Apart() && n in Nodes(r.Lefty()) && n in Nodes(r.Righty())
    ensures var left, right := LinkOf(r.Lefty(), parent, n), LinkOf(r.Righty(), parent, n);
            if n == r.x then left == Link(RootOf(r.a), RootOf(r.b), r.y, r.c) && right == Link(RootOf(r.a), r.y, parent, r.c)
            else if n == r.y then left == Link(r.x, RootOf(r.e), parent, r.d) && right == Link(RootOf(r.b), RootOf(r.e), r.x, r.d)
            else if n == RootOf(r.b) then left == right.(parent := r.x) && right.parent == r.y
            else left == right
  {
    TurnNodes(r);
    assert Nodes(Node(r.a, r.x, r.c, r.b)) == Nodes(r.a) + {r.x} + Nodes(r.b);
    assert Nodes(Node(r.b, r.y, r.d, r.e)) == Nodes(r.b) + {r.y} + Nodes(r.e);
    if n in Nodes(r.a) || n == r.x || n in Nodes(r.b) {
      assert LinkOf(r.Lefty(), parent, n) == LinkOf(Node(r.a, r.x, r.c, r.b), r.y, n);
    }
    if n in Nodes(r.b) { Reparent(r.b, r.x, r.y, n); }
    if n in Nodes(r.b) || n == r.y || n in Nodes(r.e) {
      assert LinkOf(r.Righty(), parent, n) == LinkOf(Node(r.b, r.y, r.d, r.e), r.x, n);
    }
  }

  lemma RotationLinks(p: Path<Task>, r: Turn, n: Task)
    requires Distinct(Plug(p, r.Lefty())) && Distinct(Plug(p, r.Righty()))
    requires n in Nodes(Plug(p, r.Lefty())) && n in Nodes(Plug(p, r.Righty()))
    ensures var left, right := LinkOf(Plug(p, r.Lefty()), null, n), LinkOf(Plug(p, r.Righty()), null, n);
            if n == r.x then left == Link(RootOf(r.a), RootOf(r.b), r.y, r.c) && right == Link(RootOf(r.a), r.y, ParentOf(p), r.c)
            else if n == r.y then
              left == Link(r.x, RootOf(r.e), ParentOf(p), r.d) && right == Link(RootOf(r.b), RootOf(r.e), r.x, r.d)
            else if n == RootOf(r.b) then left == right.(parent := r.x) && right.parent == r.y
            else if n == ParentOf(p) then left == HoleLink(p, r.y) && right == HoleLink(p, r.x)
            else left == right
  {
    RotationNodes(p, r);
    PlugLinks(p, r.Lefty(), n);
    PlugLinks(p, r.Righty(), n);
    if n in Nodes(r.Lefty()) {
      TurnNodes(r);
      TurnLinks(r, ParentOf(p), n);
    }
  }

  class RbTree {
    var Root: Task?
    ghost var tree: Tree<Task>

    constructor ()
      ensures Shaped() && tree == Nil
    {
      Root := null;
      tree := Nil;
    }

    ghost predicate Shaped()
      reads this`Root, this`tree, Nodes(tree)`RbtLeft, Nodes(tree)`RbtRight, Nodes(tree)`RbtParent, Nodes(tree)`Color
    {
      && Root == RootOf(tree) && Distinct(tree)
      && forall n <- Nodes(tree) :: LinkOf(tree, null, n) == Held(n)
    }

    ghost function Held(n: Task): Link
      reads n`RbtLeft, n`RbtRight, n`RbtParent, n`Color
    {
      Link(n.RbtLeft, n.RbtRight, n.RbtParent, n.Color)
    }

    /** What the fields are where a rotation is about to change some, for either side. */
    lemma BeforeTurn(p: Path<Task>, r: Turn, from: Tree<Task>, to: Tree<Task>)
      requires Shaped() && tree == Plug(p, from)
      requires (from == r.Lefty() && to == r.Righty()) || (from == r.Righty() && to == r.Lefty())
      ensures Nodes(Plug(p, to)) == Nodes(tree) && Distinct(Plug(p, to)) && Inorder(Plug(p, to)) == Inorder(tree)
      ensures Root == TopOf(p, RootOf(from)) && RootOf(Plug(p, to)) == TopOf(p, RootOf(to))
      ensures r.x in Nodes(tree) && r.y in Nodes(tree) && r.x != r.y
      ensures r.b.Node? ==> r.b.item in Nodes(tree) && r.b.item != r.x && r.b.item != r.y
      ensures !p.Top? ==> p.item in Nodes(tree) && p.item != r.x && p.item != r.y && p.item != RootOf(r.b)
      ensures !p.Top? ==>
        Held(p.item) == HoleLink(p, RootOf(from)) && (p.InRight? ==> RootOf(p.sibling) != RootOf(from))
      ensures !p.Top? ==> p.InLeft? ==> RootOf(p.sibling) != RootOf(from)
      ensures Held(r.x) == Link(RootOf(r.a), if from == r.Lefty() then RootOf(r.b) else r.y,
                                if from == r.Lefty() then r.y else ParentOf(p), r.c)
      ensures Held(r.y) == Link(if from == r.Lefty() then r.x else RootOf(r.b), RootOf(r.e),
                                if from == r.Lefty() then ParentOf(p) else r.x, r.d)
      ensures forall n <- Nodes(tree) ::
        n in Nodes(Plug(p, to)) && LinkOf(Plug(p, to), null, n) == TurnedLink(p, r, to == r.Lefty(), n)
    {
      RotationNodes(p, r);
      TurnNodes(r);
      PlugNodes(p, from);
      PlugNodes(p, to);
      forall n <- Nodes(tree)
        ensures n in Nodes(Plug(p, to)) && LinkOf(Plug(p, to), null, n) == TurnedLink(p, r, to == r.Lefty(), n)
      {
        RotationLinks(p, r, n);
      }
      RotationLinks(p, r, r.x);
      RotationLinks(p, r, r.y);
      if !p.Top? { RotationLinks(p, r, p.item); }
    }

    /** The fields of task n after a rotation, given what they are before. */
    ghost function TurnedLink(p: Path<Task>, r: Turn, lefty: bool, n: Task): Link
      reads n`RbtLeft, n`RbtRight, n`RbtParent, n`Color
    {
      if n == r.x then Link(RootOf(r.a), if lefty then RootOf(r.b) else r.y, if lefty then r.y else ParentOf(p), r.c)
      else if n == r.y then Link(if lefty then r.x else RootOf(r.b), RootOf(r.e), if lefty then ParentOf(p) else r.x, r.d)
      else if n == RootOf(r.b) then Held(n).(parent := if lefty then r.x else r.y)
      else if n == ParentOf(p) then HoleLink(p, if lefty then r.y else r.x)
      else Held(n)
    }

    method LeftRotate(X: Task, ghost p: Path<Task>, ghost t: Tree<Task>)
      requires Shaped() && tree == Plug(p, t) && t.Node? && t.item == X && t.right.Node?
      modifies this`Root, this`tree, Nodes(tree)`RbtLeft, Nodes(tree)`RbtRight, Nodes(tree)`RbtParent
      ensures Shaped() && tree == Plug(p, RotatedLeft(t))
      ensures Nodes(tree) == old(Nodes(tree)) && Inorder(tree) == old(Inorder(tree))
    {
      hide Plug, Inorder, Distinct, PathNodes, PathDistinct, LinkOf, Nodes, TopOf;
      ghost var r := Turn(t.left, X, t.color, t.right.left, t.right.item, t.right.color, t.right.right);
      BeforeTurn(p, r, r.Righty(), r.Lefty());
      ghost var tree' := Plug(p, r.Lefty());
      var y := X.RbtRight;
      X.RbtRight := y.RbtLeft;
      if y.RbtLeft != null {
        y.RbtLeft.RbtParent := X;
      }
      y.RbtParent := X.RbtParent;
      if X.RbtParent == null {
        Root := y;
      } else if X == X.RbtParent.RbtLeft {
        X.RbtParent.RbtLeft := y;
      } else {
        X.RbtParent.RbtRight := y;
      }
      y.RbtLeft := X;
      X.RbtParent := y;
      tree := tree';
      TopIs(p, X);
      TopIs(p, y);
    }

    lemma TopIs(p: Path<Task>, n: Task)
      ensures p.Top? ==> TopOf(p, n) == n
      ensures !p.Top? ==> forall m :: TopOf(p, m) == TopOf(p, n)
    {
    }

    method RightRotate(y: Task, ghost p: Path<Task>, ghost t: Tree<Task>)
      requires Shaped() && tree == Plug(p, t) && t.Node? && t.item == y && t.left.Node?
      modifies this`Root, this`tree, Nodes(tree)`RbtLeft, Nodes(tree)`RbtRight, Nodes(tree)`RbtParent
      ensures Shaped() && tree == Plug(p, RotatedRight(t))
      ensures Nodes(tree) == old(Nodes(tree)) && Inorder(tree) == old(Inorder(tree))
    {
      hide Plug, Inorder, Distinct, PathNodes, PathDistinct, LinkOf, Nodes, TopOf;
      ghost var r := Turn(t.left.left, t.left.item, t.left.color, t.left.right, y, t.color, t.right);
      BeforeTurn(p, r, r.Lefty(), r.Righty());
      ghost var tree' := Plug(p, r.Righty());
      var x := y.RbtLeft;
      y.RbtLeft := x.RbtRight;
      if x.RbtRight != null {
        x.RbtRight.RbtParent := y;
      }
      x.RbtParent := y.RbtParent;
      if y.RbtParent == null {
        Root := x;
      } else if y == y.RbtParent.RbtRight {
        y.RbtParent.RbtRight := x;
      } else {
        y.RbtParent.RbtLeft := x;
      }
      x.RbtRight := y;
      y.RbtParent := x;
      tree := tree';
      TopIs(p, x);
      TopIs(p, y);
    }

    method Paint(n: Task, c: Color, ghost p: Path<Task>, ghost t: Tree<Task>)
      requires Shaped() && tree == Plug(p, t) && t.Node? && t.item == n
      modifies this`tree, n`Color
      ensures Shaped() && tree == Plug(p, Painted(t, c))
      ensures Nodes(tree) == old(Nodes(tree)) && Inorder(tree) == old(Inorder(tree))
    {
      PlugInorder(p, t);
      PlugInorder(p, Painted(t, c));
      PlugNodes(p, t);
      PlugNodes(p, Painted(t, c));
      PlugRoot(p, t);
      PlugRoot(p, Painted(t, c));
      ghost var tree' := Plug(p, Painted(t, c));
      forall m <- Nodes(tree)
        ensures LinkOf(tree', null, m) == if m == n then LinkOf(tree, null, m).(color := c) else LinkOf(tree, null, m)
      {
        PlugLinks(p, t, m);
        PlugLinks(p, Painted(t, c), m);
      }
      n.Color := c;
      tree := tree';
    }

    /** What the pointers around a position say. */
    lemma Look(p: Path<Task>, t: Tree<Task>)
      requires Shaped() && tree == Plug(p, t)
      ensures Root == TopOf(p, RootOf(t))
      ensures Nodes(tree) == PathNodes(p) + Nodes(t) && PathNodes(p) !! Nodes(t)
      ensures t.Node? ==>
        && t.item.RbtLeft == RootOf(t.left) && t.item.RbtRight == RootOf(t.right)
        && t.item.RbtParent == ParentOf(p) && t.item.Color == t.color
      ensures !p.Top? ==>
        && p.item.RbtParent == ParentOf(p.up) && p.item.Color == p.color
        && p.item.RbtLeft == (if p.InLeft? then RootOf(t) else RootOf(p.sibling))
        && p.item.RbtRight == (if p.InLeft? then RootOf(p.sibling) else RootOf(t))
        && RootOf(t) != p.item && (p.sibling.Node? ==> RootOf(t) != RootOf(p.sibling))
        && (p.sibling.Node? ==>
              && p.sibling.item.Color == p.sibling.color
              && p.sibling.item.RbtLeft == RootOf(p.sibling.left)
              && p.sibling.item.RbtRight == RootOf(p.sibling.right))
    {
      PlugNodes(p, t);
      PlugRoot(p, t);
      if t.Node? { PlugLinks(p, t, t.item); }
      if !p.Top? {
        PlugLinks(p, t, p.item);
        if p.sibling.Node? { PlugLinks(p, t, p.sibling.item); }
      }
    }

    /** Case 1 of the insertion loop, the same on both sides: parent and uncle y turn
        black, the grandparent turns red. */
    method Recolor(z: Task, y: Task, ghost p: Path<Task>, ghost t: Tree<Task>)
      returns (ghost p': Path<Task>, ghost t': Tree<Task>)
      requires Shaped() && tree == Plug(p, t) && t.Node? && t.item == z && InsertInvariant(p, t)
      requires !p.Top? && !p.up.Top? && p.color.Red? && IsRed(p.up.sibling) && y == p.up.sibling.item
      modifies this`tree, Nodes(tree)`Color
      ensures Shaped() && tree == Plug(p', t') && InsertInvariant(p', t') && Depth(p') < Depth(p)
      ensures z.RbtParent == p.item && t'.item == p.up.item == p.item.RbtParent
      ensures Nodes(tree) == old(Nodes(tree)) && Inorder(tree) == old(Inorder(tree))
    {
      assert p.up.sibling.Node?;
      hide *;
      InsertCase1(p, t);
      Case1Links(p, t);
      Case1Paints(p, t);
      BlackenBelow(z.RbtParent, y, p.up, Raise(p, t));
      Paint(z.RbtParent.RbtParent, Red, p.up.up, Painted(Case1(p, t), p.up.color));
      p', t' := p.up.up, Case1(p, t);
    }

    lemma Case1Links(p: Path<Task>, t: Tree<Task>)
      requires Shaped() && tree == Plug(p, t) && t.Node? && !p.Top? && !p.up.Top? && p.up.sibling.Node?
      ensures t.item.RbtParent == p.item && p.item.RbtParent == p.up.item && tree == Plug(p.up, Raise(p, t))
      ensures p.item in Nodes(tree) && p.up.item in Nodes(tree) && p.up.sibling.item in Nodes(tree)
    {
      hide Shaped, Nodes, Inorder;
      Look(p, t);
      Look(p.up, Raise(p, t));
      OnPath(p);
      OnPath(p.up);
    }

    lemma OnPath(p: Path<Task>)
      requires !p.Top?
      ensures p.item in PathNodes(p) && PathNodes(p.up) <= PathNodes(p)
      ensures (p.sibling.Node? ==> p.sibling.item in PathNodes(p))
    {
    }

    /** A node and its sibling turn black. */
    method BlackenBelow(x: Task, y: Task, ghost p: Path<Task>, ghost t: Tree<Task>)
      requires Shaped() && tree == Plug(p, t) && t.Node? && t.item == x && !p.Top? && p.sibling.Node?
      requires p.sibling.item == y
      modifies this`tree, x`Color, y`Color
      ensures Shaped()
      ensures var a, b := Painted(t, Black), Painted(p.sibling, Black);
        tree == Plug(p.up, if p.InLeft? then Node(a, p.item, p.color, b) else Node(b, p.item, p.color, a))
      ensures Nodes(tree) == old(Nodes(tree)) && Inorder(tree) == old(Inorder(tree))
    {
      hide Shaped, Nodes, Inorder;
      Paint(x, Black, p, t);
      Paint(y, Black, Across(p, Painted(t, Black)), p.sibling);
    }

    /** Case 3: z is a left child of a left child. */
    method StraightenLeft(z: Task, ghost p: Path<Task>, ghost t: Tree<Task>) returns (ghost p': Path<Task>)
      requires Shaped() && tree == Plug(p, t) && t.Node? && t.item == z && InsertInvariant(p, t)
      requires p.InLeft? && p.up.InLeft? && p.color.Red? && !IsRed(p.up.sibling)
      modifies this`Root, this`tree, Nodes(tree)`RbtLeft, Nodes(tree)`RbtRight, Nodes(tree)`RbtParent, Nodes(tree)`Color
      ensures Shaped() && tree == Plug(p', t) && InsertInvariant(p', t) && !p'.Top? && p'.color.Black?
      ensures Depth(p') < Depth(p)
      ensures Nodes(tree) == old(Nodes(tree)) && Inorder(tree) == old(Inorder(tree))
    {
      InsertCase3(p, t);
      Look(p, t);
      Paint(z.RbtParent, Black, p.up, Raise(p, t));
      ghost var q := InLeft(p.up, p.item, Black, p.sibling);
      Look(q.up, Raise(q, t));
      Look(q, t);
      Paint(z.RbtParent.RbtParent, Red, q.up.up, Raise(q.up, Raise(q, t)));
      q := InLeft(PathPainted(p.up, Red), p.item, Black, p.sibling);
      Look(q, t);
      RightRotate(z.RbtParent.RbtParent, q.up.up, Raise(q.up, Raise(q, t)));
      p' := InLeft(p.up.up, p.item, Black, Node(p.sibling, p.up.item, Red, p.up.sibling));
    }

    /** Case 3, mirrored: z is a right child of a right child. */
    method StraightenRight(z: Task, ghost p: Path<Task>, ghost t: Tree<Task>) returns (ghost p': Path<Task>)
      requires Shaped() && tree == Plug(p, t) && t.Node? && t.item == z && InsertInvariant(p, t)
      requires p.InRight? && p.up.InRight? && p.color.Red? && !IsRed(p.up.sibling)
      modifies this`Root, this`tree, Nodes(tree)`RbtLeft, Nodes(tree)`RbtRight, Nodes(tree)`RbtParent, Nodes(tree)`Color
      ensures Shaped() && tree == Plug(p', t) && InsertInvariant(p', t) && !p'.Top? && p'.color.Black?
      ensures Depth(p') < Depth(p)
      ensures Nodes(tree) == old(Nodes(tree)) && Inorder(tree) == old(Inorder(tree))
    {
      InsertCase3(p, t);
      Look(p, t);
      Paint(z.RbtParent, Black, p.up, Raise(p, t));
      ghost var q := InRight(p.up, p.item, Black, p.sibling);
      Look(q.up, Raise(q, t));
      Look(q, t);
      Paint(z.RbtParent.RbtParent, Red, q.up.up, Raise(q.up, Raise(q, t)));
      q := InRight(PathPainted(p.up, Red), p.item, Black, p.sibling);
      Look(q, t);
      LeftRotate(z.RbtParent.RbtParent, q.up.up, Raise(q.up, Raise(q, t)));
      p' := InRight(p.up.up, p.item, Black, Node(p.up.sibling, p.up.item, Red, p.sibling));
    }

    /** Cases 2 and 3 below a left child. */
    method RotateUnderLeft(z0: Task, ghost p: Path<Task>, ghost t: Tree<Task>)
      returns (z: Task, ghost p': Path<Task>, ghost t': Tree<Task>)
      requires Shaped() && tree == Plug(p, t) && t.Node? && t.item == z0 && InsertInvariant(p, t)
      requires !p.Top? && p.up.InLeft? && p.color.Red? && !IsRed(p.up.sibling)
      modifies this`Root, this`tree, Nodes(tree)`RbtLeft, Nodes(tree)`RbtRight, Nodes(tree)`RbtParent, Nodes(tree)`Color
      ensures Shaped() && tree == Plug(p', t') && t'.Node? && t'.item == z && InsertInvariant(p', t')
      ensures !p'.Top? && p'.color.Black? && Depth(p') < Depth(p)
      ensures Nodes(tree) == old(Nodes(tree)) && Inorder(tree) == old(Inorder(tree))
    {
      z, p', t' := z0, p, t;
      Look(p, t);
      if z == z.RbtParent.RbtRight {
        z := z.RbtParent;
        InsertCase2(p, t);
        LeftRotate(z, p.up, Raise(p, t));
        p', t' := InLeft(p.up, t.item, t.color, t.right), Node(p.sibling, p.item, p.color, t.left);
      }
      p' := StraightenLeft(z, p', t');
    }

    /** Cases 2 and 3 below a right child. */
    method RotateUnderRight(z0: Task, ghost p: Path<Task>, ghost t: Tree<Task>)
      returns (z: Task, ghost p': Path<Task>, ghost t': Tree<Task>)
      requires Shaped() && tree == Plug(p, t) && t.Node? && t.item == z0 && InsertInvariant(p, t)
      requires !p.Top? && p.up.InRight? && p.color.Red? && !IsRed(p.up.sibling)
      modifies this`Root, this`tree, Nodes(tree)`RbtLeft, Nodes(tree)`RbtRight, Nodes(tree)`RbtParent, Nodes(tree)`Color
      ensures Shaped() && tree == Plug(p', t') && t'.Node? && t'.item == z && InsertInvariant(p', t')
      ensures !p'.Top? && p'.color.Black? && Depth(p') < Depth(p)
      ensures Nodes(tree) == old(Nodes(tree)) && Inorder(tree) == old(Inorder(tree))
    {
      z, p', t' := z0, p, t;
      Look(p, t);
      if z == z.RbtParent.RbtLeft {
        z := z.RbtParent;
        InsertCase2(p, t);
        RightRotate(z, p.up, Raise(p, t));
        p', t' := InRight(p.up, t.item, t.color, t.left), Node(t.right, p.item, p.color, p.sibling);
      }
      p' := StraightenRight(z, p', t');
    }

    /** One iteration of the insertion loop. */
    method InsertStep(z0: Task, ghost p: Path<Task>, ghost t: Tree<Task>)
      returns (z: Task, ghost p': Path<Task>, ghost t': Tree<Task>)
      requires Shaped() && tree == Plug(p, t) && t.Node? && t.item == z0 && InsertInvariant(p, t)
      requires !p.Top? && p.color.Red?
      modifies this`Root, this`tree, Nodes(tree)`RbtLeft, Nodes(tree)`RbtRight, Nodes(tree)`RbtParent, Nodes(tree)`Color
      ensures Shaped() && tree == Plug(p', t') && t'.Node? && t'.item == z && InsertInvariant(p', t')
      ensures Depth(p') < Depth(p)
      ensures Nodes(tree) == old(Nodes(tree)) && Inorder(tree) == old(Inorder(tree))
    {
      z := z0;
      Look(p, t);
      InsertHasGrandparent(p, t);
      Look(p.up, Raise(p, t));
      if z.RbtParent == z.RbtParent.RbtParent.RbtLeft {
        assert p.up.InLeft?;
        var y := z.RbtParent.RbtParent.RbtRight;
        if y != null && y.Color == Red {
          p', t' := Recolor(z, y, p, t);
          z := z.RbtParent.RbtParent;
        } else {
          z, p', t' := RotateUnderLeft(z, p, t);
        }
      } else {
        assert p.up.InRight?;
        var y := z.RbtParent.RbtParent.RbtLeft;
        if y != null && y.Color == Red {
          p', t' := Recolor(z, y, p, t);
          z := z.RbtParent.RbtParent;
        } else {
          z, p', t' := RotateUnderRight(z, p, t);
        }
      }
    }

    /** The last assignment of the insertion: the root turns black. */
    method BlackenRoot(ghost p: Path<Task>, ghost t: Tree<Task>)
      requires Shaped() && tree == Plug(p, t) && InsertInvariant(p, t) && (p.Top? || p.color.Black?)
      modifies this`tree, Nodes(tree)`Color
      ensures Shaped() && RedBlack(tree) && Nodes(tree) == old(Nodes(tree)) && Inorder(tree) == old(Inorder(tree))
    {
      InsertDone(p, t);
      Look(Top, tree);
      hide InsertInvariant, RedBlack;
      Paint(Root, Black, Top, tree);
    }

    /** RBT_InsertFixup: from a tree whose only fault is a red node under a red parent. */
    method InsertFixup(z0: Task, ghost p0: Path<Task>, ghost t0: Tree<Task>)
      requires Shaped() && tree == Plug(p0, t0) && t0.Node? && t0.item == z0 && InsertInvariant(p0, t0)
      modifies this`Root, this`tree, Nodes(tree)`RbtLeft, Nodes(tree)`RbtRight, Nodes(tree)`RbtParent, Nodes(tree)`Color
      ensures Shaped() && RedBlack(tree) && Nodes(tree) == old(Nodes(tree)) && Inorder(tree) == old(Inorder(tree))
    {
      hide Shaped, Plug, InsertInvariant, RedBlack, Nodes, Inorder;
      var z := z0;
      ghost var p, t := p0, t0;
      Look(p, t);
      while z.RbtParent != null && z.RbtParent.Color == Red
        invariant Shaped() && tree == Plug(p, t) && t.Node? && t.item == z && InsertInvariant(p, t)
        invariant z.RbtParent == ParentOf(p) && (!p.Top? ==> p.item.Color == p.color)
        invariant Nodes(tree) == old(Nodes(tree)) && Inorder(tree) == old(Inorder(tree))
        decreases Depth(p)
      {
        z, p, t := InsertStep(z, p, t);
        Look(p, t);
      }
      BlackenRoot(p, t);
    }

    ghost function EraseMeasure(p: Path<Task>, t: Tree<Task>): nat {
      2 * Depth(p) + if IsRed(t) then 0 else 1
    }

    /** What the pointers two steps away from a position say: the sibling's children. */
    lemma Nephews(p: Path<Task>, t: Tree<Task>)
      requires Shaped() && tree == Plug(p, t) && !p.Top? && p.sibling.Node?
      ensures p.item in Nodes(tree) && p.sibling.item in Nodes(tree)
      ensures p.item.Color == p.color && p.sibling.item.Color == p.sibling.color
      ensures p.sibling.item.RbtLeft == RootOf(p.sibling.left) && p.sibling.item.RbtRight == RootOf(p.sibling.right)
      ensures p.sibling.left.Node? ==>
        p.sibling.left.item in Nodes(tree) && p.sibling.left.item.Color == p.sibling.left.color
      ensures p.sibling.right.Node? ==>
        p.sibling.right.item in Nodes(tree) && p.sibling.right.item.Color == p.sibling.right.color
    {
      Look(p, t);
      var q, s := Across(p, t), p.sibling;
      Look(InLeft(q, s.item, s.color, s.right), s.left);
      Look(InRight(q, s.item, s.color, s.left), s.right);
    }

    /** Case 1 with x a left child: a red sibling is rotated above xParent. */
    method RedSiblingLeft(xParent: Task, w0: Task, ghost p: Path<Task>, ghost t: Tree<Task>)
      returns (w: Task, ghost p': Path<Task>)
      requires Shaped() && tree == Plug(p, t) && EraseInvariant(p, t) && p.InLeft? && !IsRed(t)
      requires IsRed(p.sibling) && w0 == p.sibling.item && xParent == p.item
      modifies this`Root, this`tree, Nodes(tree)`RbtLeft, Nodes(tree)`RbtRight, Nodes(tree)`RbtParent, Nodes(tree)`Color
      ensures Shaped() && tree == Plug(p', t) && p' == RedSiblingPath(p) && EraseInvariant(p', t)
      ensures p'.InLeft? && p'.item == xParent && p'.color.Red? && p'.sibling.Node? && !IsRed(p'.sibling)
      ensures w == p'.sibling.item
      ensures Depth(p') == Depth(p) + 1
      ensures Nodes(tree) == old(Nodes(tree)) && Inorder(tree) == old(Inorder(tree))
    {
      EraseHasSibling(p, t);
      EraseCase1(p, t);
      Look(p, t);
      w := w0;
      Paint(w, Black, Across(p, t), p.sibling);
      ghost var q := InLeft(p.up, p.item, p.color, Painted(p.sibling, Black));
      Paint(xParent, Red, p.up, Raise(q, t));
      LeftRotate(xParent, p.up, Painted(Raise(q, t), Red));
      p' := RedSiblingPath(p);
      Look(p', t);
      w := xParent.RbtRight;
    }

    /** Case 3 with x a left child: the red left nephew is rotated above the sibling. */
    method NearNephewLeft(xParent: Task, w0: Task, ghost p: Path<Task>, ghost t: Tree<Task>)
      returns (w: Task, ghost p': Path<Task>)
      requires Shaped() && tree == Plug(p, t) && EraseInvariant(p, t) && p.InLeft? && !IsRed(t)
      requires p.sibling.Node? && !IsRed(p.sibling) && w0 == p.sibling.item && xParent == p.item
      requires IsRed(p.sibling.left) && !IsRed(p.sibling.right)
      modifies this`Root, this`tree, Nodes(tree)`RbtLeft, Nodes(tree)`RbtRight, Nodes(tree)`RbtParent, Nodes(tree)`Color
      ensures Shaped() && tree == Plug(p', t) && EraseInvariant(p', t)
      ensures p'.InLeft? && p'.item == xParent && Depth(p') == Depth(p)
      ensures p'.sibling.Node? && !IsRed(p'.sibling) && IsRed(p'.sibling.right) && w == p'.sibling.item
      ensures Nodes(tree) == old(Nodes(tree)) && Inorder(tree) == old(Inorder(tree))
    {
      EraseCase3(p, t);
      Nephews(p, t);
      w := w0;
      if w.RbtLeft != null {
        Paint(w.RbtLeft, Black, InLeft(Across(p, t), p.sibling.item, p.sibling.color, p.sibling.right), p.sibling.left);
      }
      ghost var s := p.sibling.(left := Painted(p.sibling.left, Black));
      Paint(w, Red, Across(p, t), s);
      RightRotate(w, Across(p, t), Painted(s, Red));
      p' := Resibling(p, InnerUp(p));
      Look(p', t);
      w := xParent.RbtRight;
    }

    /** Case 4 with x a left child: the last rotation, after which the tree is whole again. */
    method FarNephewLeft(xParent: Task, w: Task, ghost p: Path<Task>, ghost t: Tree<Task>)
      requires Shaped() && tree == Plug(p, t) && EraseInvariant(p, t) && p.InLeft? && !IsRed(t)
      requires p.sibling.Node? && !IsRed(p.sibling) && IsRed(p.sibling.right) && w == p.sibling.item
      requires xParent == p.item
      modifies this`Root, this`tree, Nodes(tree)`RbtLeft, Nodes(tree)`RbtRight, Nodes(tree)`RbtParent, Nodes(tree)`Color
      ensures Shaped() && RedBlack(tree)
      ensures Nodes(tree) == old(Nodes(tree)) && Inorder(tree) == old(Inorder(tree))
    {
      EraseCase4(p, t);
      Nephews(p, t);
      ghost var s := Painted(p.sibling, p.color);
      Paint(w, xParent.Color, Across(p, t), p.sibling);
      Paint(xParent, Black, p.up, Raise(Resibling(p, s), t));
      ghost var q := InLeft(p.up, p.item, Black, s);
      Look(Across(q, t), s);
      if w.RbtRight != null {
        Paint(w.RbtRight, Black, InRight(Across(q, t), s.item, s.color, s.left), s.right);
      }
      ghost var s' := s.(right := Painted(s.right, Black));
      LeftRotate(xParent, p.up, Raise(InLeft(p.up, p.item, Black, s'), t));
    }

    /** Cases 2 to 4 with x a left child. */
    method BlackSiblingLeft(x0: Task?, xParent0: Task, w0: Task, ghost p: Path<Task>, ghost t: Tree<Task>)
      returns (x: Task?, xParent: Task?, ghost p': Path<Task>, ghost t': Tree<Task>)
      requires Shaped() && tree == Plug(p, t) && RootOf(t) == x0 && xParent0 == ParentOf(p)
      requires EraseInvariant(p, t) && p.InLeft? && !IsRed(t)
      requires p.sibling.Node? && !IsRed(p.sibling) && w0 == p.sibling.item
      modifies this`Root, this`tree, Nodes(tree)`RbtLeft, Nodes(tree)`RbtRight, Nodes(tree)`RbtParent, Nodes(tree)`Color
      ensures Shaped() && tree == Plug(p', t') && RootOf(t') == x && EraseInvariant(p', t')
      ensures !p'.Top? ==> xParent == ParentOf(p')
      ensures Depth(p') < Depth(p) && (!p'.Top? && p.color.Red? ==> IsRed(t'))
      ensures Nodes(tree) == old(Nodes(tree)) && Inorder(tree) == old(Inorder(tree))
    {
      x, xParent := x0, xParent0;
      var w := w0;
      Nephews(p, t);
      if (w.RbtLeft == null || w.RbtLeft.Color == Black) && (w.RbtRight == null || w.RbtRight.Color == Black) {
        EraseCase2(p, t);
        Paint(w, Red, Across(p, t), p.sibling);
        p', t' := p.up, Raise(InLeft(p.up, p.item, p.color, Painted(p.sibling, Red)), t);
        x := xParent;
        Look(p', t');
        xParent := x.RbtParent;
      } else {
        ghost var q := p;
        if w.RbtRight == null || w.RbtRight.Color == Black {
          w, q := NearNephewLeft(xParent, w, p, t);
        }
        FarNephewLeft(xParent, w, q, t);
        x := Root;
        p', t' := Top, tree;
      }
    }

    /** One iteration of the erase loop with x a left child. */
    method EraseLeft(x0: Task?, xParent0: Task, ghost p0: Path<Task>, ghost t: Tree<Task>)
      returns (x: Task?, xParent: Task?, ghost p': Path<Task>, ghost t': Tree<Task>)
      requires Shaped() && tree == Plug(p0, t) && RootOf(t) == x0 && xParent0 == ParentOf(p0)
      requires EraseInvariant(p0, t) && p0.InLeft? && !IsRed(t)
      modifies this`Root, this`tree, Nodes(tree)`RbtLeft, Nodes(tree)`RbtRight, Nodes(tree)`RbtParent, Nodes(tree)`Color
      ensures Shaped() && tree == Plug(p', t') && RootOf(t') == x && EraseInvariant(p', t')
      ensures !p'.Top? ==> xParent == ParentOf(p')
      ensures EraseMeasure(p', t') < EraseMeasure(p0, t)
      ensures Nodes(tree) == old(Nodes(tree)) && Inorder(tree) == old(Inorder(tree))
    {
      ghost var p := p0;
      EraseHasSibling(p, t);
      Look(p, t);
      var w := xParent0.RbtRight;
      if w.Color == Red {
        w, p := RedSiblingLeft(xParent0, w, p, t);
      }
      x, xParent, p', t' := BlackSiblingLeft(x0, xParent0, w, p, t);
    }

    /** Case 1 with x a right child: a red sibling is rotated above xParent. */
    method RedSiblingRight(xParent: Task, w0: Task, ghost p: Path<Task>, ghost t: Tree<Task>)
      returns (w: Task, ghost p': Path<Task>)
      requires Shaped() && tree == Plug(p, t) && EraseInvariant(p, t) && p.InRight? && !IsRed(t)
      requires IsRed(p.sibling) && w0 == p.sibling.item && xParent == p.item
      modifies this`Root, this`tree, Nodes(tree)`RbtLeft, Nodes(tree)`RbtRight, Nodes(tree)`RbtParent, Nodes(tree)`Color
      ensures Shaped() && tree == Plug(p', t) && p' == RedSiblingPath(p) && EraseInvariant(p', t)
      ensures p'.InRight? && p'.item == xParent && p'.color.Red? && p'.sibling.Node? && !IsRed(p'.sibling)
      ensures w == p'.sibling.item
      ensures Depth(p') == Depth(p) + 1
      ensures Nodes(tree) == old(Nodes(tree)) && Inorder(tree) == old(Inorder(tree))
    {
      EraseHasSibling(p, t);
      EraseCase1(p, t);
      Look(p, t);
      w := w0;
      Paint(w, Black, Across(p, t), p.sibling);
      ghost var q := InRight(p.up, p.item, p.color, Painted(p.sibling, Black));
      Paint(xParent, Red, p.up, Raise(q, t));
      RightRotate(xParent, p.up, Painted(Raise(q, t), Red));
      p' := RedSiblingPath(p);
      Look(p', t);
      w := xParent.RbtLeft;
    }

    /** Case 3 with x a right child: the red right nephew is rotated above the sibling. */
    method NearNephewRight(xParent: Task, w0: Task, ghost p: Path<Task>, ghost t: Tree<Task>)
      returns (w: Task, ghost p': Path<Task>)
      requires Shaped() && tree == Plug(p, t) && EraseInvariant(p, t) && p.InRight? && !IsRed(t)
      requires p.sibling.Node? && !IsRed(p.sibling) && w0 == p.sibling.item && xParent == p.item
      requires IsRed(p.sibling.right) && !IsRed(p.sibling.left)
      modifies this`Root, this`tree, Nodes(tree)`RbtLeft, Nodes(tree)`RbtRight, Nodes(tree)`RbtParent, Nodes(tree)`Color
      ensures Shaped() && tree == Plug(p', t) && EraseInvariant(p', t)
      ensures p'.InRight? && p'.item == xParent && Depth(p') == Depth(p)
      ensures p'.sibling.Node? && !IsRed(p'.sibling) && IsRed(p'.sibling.left) && w == p'.sibling.item
      ensures Nodes(tree) == old(Nodes(tree)) && Inorder(tree) == old(Inorder(tree))
    {
      EraseCase3(p, t);
      Nephews(p, t);
      w := w0;
      if w.RbtRight != null {
        Paint(w.RbtRight, Black, InRight(Across(p, t), p.sibling.item, p.sibling.color, p.sibling.left), p.sibling.right);
      }
      ghost var s := p.sibling.(right := Painted(p.sibling.right, Black));
      Paint(w, Red, Across(p, t), s);
      LeftRotate(w, Across(p, t), Painted(s, Red));
      p' := Resibling(p, InnerUp(p));
      Look(p', t);
      w := xParent.RbtLeft;
    }

    /** Case 4 with x a right child: the last rotation, after which the tree is whole again. */
    method FarNephewRight(xParent: Task, w: Task, ghost p: Path<Task>, ghost t: Tree<Task>)
      requires Shaped() && tree == Plug(p, t) && EraseInvariant(p, t) && p.InRight? && !IsRed(t)
      requires p.sibling.Node? && !IsRed(p.sibling) && IsRed(p.sibling.left) && w == p.sibling.item && xParent == p.item
      modifies this`Root, this`tree, Nodes(tree)`RbtLeft, Nodes(tree)`RbtRight, Nodes(tree)`RbtParent, Nodes(tree)`Color
      ensures Shaped() && RedBlack(tree)
      ensures Nodes(tree) == old(Nodes(tree)) && Inorder(tree) == old(Inorder(tree))
    {
      EraseCase4(p, t);
      Nephews(p, t);
      ghost var s := Painted(p.sibling, p.color);
      Paint(w, xParent.Color, Across(p, t), p.sibling);
      Paint(xParent, Black, p.up, Raise(Resibling(p, s), t));
      ghost var q := InRight(p.up, p.item, Black, s);
      Look(Across(q, t), s);
      if w.RbtLeft != null {
        Paint(w.RbtLeft, Black, InLeft(Across(q, t), s.item, s.color, s.right), s.left);
      }
      ghost var s' := s.(left := Painted(s.left, Black));
      RightRotate(xParent, p.up, Raise(InRight(p.up, p.item, Black, s'), t));
    }

    /** Cases 2 to 4 with x a right child. */
    method BlackSiblingRight(x0: Task?, xParent0: Task, w0: Task, ghost p: Path<Task>, ghost t: Tree<Task>)
      returns (x: Task?, xParent: Task?, ghost p': Path<Task>, ghost t': Tree<Task>)
      requires Shaped() && tree == Plug(p, t) && RootOf(t) == x0 && xParent0 == ParentOf(p)
      requires EraseInvariant(p, t) && p.InRight? && !IsRed(t)
      requires p.sibling.Node? && !IsRed(p.sibling) && w0 == p.sibling.item
      modifies this`Root, this`tree, Nodes(tree)`RbtLeft, Nodes(tree)`RbtRight, Nodes(tree)`RbtParent, Nodes(tree)`Color
      ensures Shaped() && tree == Plug(p', t') && RootOf(t') == x && EraseInvariant(p', t')
      ensures !p'.Top? ==> xParent == ParentOf(p')
      ensures Depth(p') < Depth(p) && (!p'.Top? && p.color.Red? ==> IsRed(t'))
      ensures Nodes(tree) == old(Nodes(tree)) && Inorder(tree) == old(Inorder(tree))
    {
      x, xParent := x0, xParent0;
      var w := w0;
      Nephews(p, t);
      if (w.RbtRight == null || w.RbtRight.Color == Black) && (w.RbtLeft == null || w.RbtLeft.Color == Black) {
        EraseCase2(p, t);
        Paint(w, Red, Across(p, t), p.sibling);
        p', t' := p.up, Raise(InRight(p.up, p.item, p.color, Painted(p.sibling, Red)), t);
        x := xParent;
        Look(p', t');
        xParent := x.RbtParent;
      } else {
        ghost var q := p;
        if w.RbtLeft == null || w.RbtLeft.Color == Black {
          w, q := NearNephewRight(xParent, w, p, t);
        }
        FarNephewRight(xParent, w, q, t);
        x := Root;
        p', t' := Top, tree;
      }
    }

    /** One iteration of the erase loop with x a right child. */
    method EraseRight(x0: Task?, xParent0: Task, ghost p0: Path<Task>, ghost t: Tree<Task>)
      returns (x: Task?, xParent: Task?, ghost p': Path<Task>, ghost t': Tree<Task>)
      requires Shaped() && tree == Plug(p0, t) && RootOf(t) == x0 && xParent0 == ParentOf(p0)
      requires EraseInvariant(p0, t) && p0.InRight? && !IsRed(t)
      modifies this`Root, this`tree, Nodes(tree)`RbtLeft, Nodes(tree)`RbtRight, Nodes(tree)`RbtParent, Nodes(tree)`Color
      ensures Shaped() && tree == Plug(p', t') && RootOf(t') == x && EraseInvariant(p', t')
      ensures !p'.Top? ==> xParent == ParentOf(p')
      ensures EraseMeasure(p', t') < EraseMeasure(p0, t)
      ensures Nodes(tree) == old(Nodes(tree)) && Inorder(tree) == old(Inorder(tree))
    {
      ghost var p := p0;
      EraseHasSibling(p, t);
      Look(p, t);
      var w := xParent0.RbtLeft;
      if w.Color == Red {
        w, p := RedSiblingRight(xParent0, w, p, t);
      }
      x, xParent, p', t' := BlackSiblingRight(x0, xParent0, w, p, t);
    }

    /** RBT_EraseFixup: from a tree with one black too few below the position of x. */
    method EraseFixup(x0: Task?, xParent0: Task?, ghost p0: Path<Task>, ghost t0: Tree<Task>)
      requires Shaped() && tree == Plug(p0, t0) && RootOf(t0) == x0 && xParent0 == ParentOf(p0)
      requires EraseInvariant(p0, t0)
      modifies this`Root, this`tree, Nodes(tree)`RbtLeft, Nodes(tree)`RbtRight, Nodes(tree)`RbtParent, Nodes(tree)`Color
      ensures Shaped() && RedBlack(tree)
      ensures Nodes(tree) == old(Nodes(tree)) && Inorder(tree) == old(Inorder(tree))
    {
      var x, xParent := x0, xParent0;
      ghost var p, t := p0, t0;
      while x != Root && (x == null || x.Color == Black)
        invariant Shaped() && tree == Plug(p, t) && RootOf(t) == x && EraseInvariant(p, t)
        invariant !p.Top? ==> xParent == ParentOf(p)
        invariant Nodes(tree) == old(Nodes(tree)) && Inorder(tree) == old(Inorder(tree))
        decreases EraseMeasure(p, t)
      {
        Look(p, t);
        EraseHasSibling(p, t);
        if x == xParent.RbtLeft {
          x, xParent, p, t := EraseLeft(x, xParent, p, t);
        } else {
          x, xParent, p, t := EraseRight(x, xParent, p, t);
        }
      }
      Look(p, t);
      RootAbove(p, t);
      EraseDone(p, t);
      if x != null {
        Paint(x, Black, p, t);
      }
    }

    /** Only an empty path leads to the root. */
    lemma RootAbove(p: Path<Task>, t: Tree<Task>)
      requires Shaped() && tree == Plug(p, t)
      ensures RootOf(t) == Root <==> p.Top?
    {
      Look(p, t);
      TopIsOnPath(p, RootOf(t));
    }

    /** RBT_Transplant: u's place on the path p is given to v. Of the tasks in `rest`, all
        off the path, only v changes, and only in its parent link. */
    method Transplant(u: Task, v: Task?, ghost p: Path<Task>, ghost rest: set<Task>)
      requires u.RbtParent == ParentOf(p) && Root == TopOf(p, u)
      requires PathDistinct(p) && u !in PathNodes(p) && (v != null ==> v !in PathNodes(p) && v != u)
      requires forall n <- PathNodes(p) :: Held(n) == PathLinkOf(p, u, n)
      modifies this`Root, PathNodes(p)`RbtLeft, PathNodes(p)`RbtRight, (if v == null then {} else {v})`RbtParent
      ensures Root == TopOf(p, v)
      ensures forall n <- PathNodes(p) :: Held(n) == PathLinkOf(p, v, n)
      requires rest !! PathNodes(p)
      ensures v != null ==> v.RbtParent == ParentOf(p)
      ensures forall n <- rest :: Held(n) == if n == v then old(Held(n)).(parent := ParentOf(p)) else old(Held(n))
    {
      if u.RbtParent == null {
        Root := v;
      } else if u == u.RbtParent.RbtLeft {
        u.RbtParent.RbtLeft := v;
      } else {
        u.RbtParent.RbtRight := v;
      }
      if v != null {
        v.RbtParent := u.RbtParent;
      }
    }

    /** Putting the picture together again from a path and a subtree. */
    lemma Assemble(p: Path<Task>, t: Tree<Task>)
      requires Distinct(t) && PathDistinct(p) && PathNodes(p) !! Nodes(t)
      requires Root == TopOf(p, RootOf(t))
      requires forall n <- PathNodes(p) :: Held(n) == PathLinkOf(p, RootOf(t), n)
      requires forall n <- Nodes(t) :: Held(n) == LinkOf(t, ParentOf(p), n)
      ensures Root == RootOf(Plug(p, t)) && Distinct(Plug(p, t)) && Nodes(Plug(p, t)) == PathNodes(p) + Nodes(t)
      ensures forall n <- Nodes(Plug(p, t)) :: Held(n) == LinkOf(Plug(p, t), null, n)
    {
      PlugNodes(p, t);
      PlugRoot(p, t);
      forall n <- Nodes(Plug(p, t)) ensures Held(n) == LinkOf(Plug(p, t), null, n) {
        PlugLinks(p, t, n);
      }
    }

    /** Taking the picture apart. */
    lemma Dissect(p: Path<Task>, t: Tree<Task>)
      requires Shaped() && tree == Plug(p, t)
      ensures Distinct(t) && PathDistinct(p) && PathNodes(p) !! Nodes(t) && Nodes(tree) == PathNodes(p) + Nodes(t)
      ensures Root == TopOf(p, RootOf(t))
      ensures forall n <- PathNodes(p) :: Held(n) == PathLinkOf(p, RootOf(t), n)
      ensures forall n <- Nodes(t) :: Held(n) == LinkOf(t, ParentOf(p), n)
    {
      PlugNodes(p, t);
      PlugRoot(p, t);
      forall n <- PathNodes(p) ensures Held(n) == PathLinkOf(p, RootOf(t), n) { PlugLinks(p, t, n); }
      forall n <- Nodes(t) ensures Held(n) == LinkOf(t, ParentOf(p), n) { PlugLinks(p, t, n); }
    }

    lemma SplicedLinks(p: Path<Task>, t: Tree<Task>, r: Tree<Task>)
      requires t.Node? && ((t.left.Nil? && r == t.right) || (t.right.Nil? && r == t.left))
      requires Distinct(t) && PathDistinct(p) && PathNodes(p) !! Nodes(t) && Root == TopOf(p, RootOf(r))
      requires forall n <- PathNodes(p) :: Held(n) == PathLinkOf(p, RootOf(r), n)
      requires forall n <- Nodes(t) ::
        Held(n) == if n == RootOf(r) then LinkOf(t, ParentOf(p), n).(parent := ParentOf(p))
                   else LinkOf(t, ParentOf(p), n)
      ensures Root == RootOf(Plug(p, r)) && Distinct(Plug(p, r))
      ensures Nodes(Plug(p, r)) == PathNodes(p) + Nodes(t) - {t.item}
      ensures forall n <- Nodes(Plug(p, r)) :: Held(n) == LinkOf(Plug(p, r), null, n)
    {
      assert Nodes(r) == Nodes(t) - {t.item};
      forall n <- Nodes(r) ensures Held(n) == LinkOf(r, ParentOf(p), n) {
        assert LinkOf(t, ParentOf(p), n) == LinkOf(r, t.item, n);
        Reparent(r, t.item, ParentOf(p), n);
      }
      Assemble(p, r);
    }

    /** Splicing out a node with at most one child. */
    method Splice(u: Task, v: Task?, ghost p: Path<Task>, ghost t: Tree<Task>, ghost r: Tree<Task>)
      requires Shaped() && tree == Plug(p, t) && t.Node? && t.item == u && RootOf(r) == v
      requires (t.left.Nil? && r == t.right) || (t.right.Nil? && r == t.left)
      modifies this`Root, this`tree, Nodes(tree)`RbtLeft, Nodes(tree)`RbtRight, Nodes(tree)`RbtParent
      ensures Shaped() && tree == Plug(p, r) && Nodes(tree) == old(Nodes(tree)) - {u}
      ensures u.RbtLeft == old(u.RbtLeft) && u.RbtRight == old(u.RbtRight) && u.RbtParent == old(u.RbtParent)
    {
      Dissect(p, t);
      Transplant(u, v, p, Nodes(t));
      SplicedLinks(p, t, r);
      tree := Plug(p, r);
    }

    /** The state in the middle of an erasure: z still has its left subtree l and its place,
        and y already has what is to be its right subtree r. */
    ghost predicate Ready(z: Task, y: Task, p: Path<Task>, l: Tree<Task>, c: Color, r: Tree<Task>)
      reads this`Root, {y, z}`RbtLeft, {y, z}`RbtRight, {y, z}`RbtParent, {y, z}`Color
      reads (PathNodes(p) + Nodes(l) + Nodes(r))`RbtLeft, (PathNodes(p) + Nodes(l) + Nodes(r))`RbtRight
      reads (PathNodes(p) + Nodes(l) + Nodes(r))`RbtParent, (PathNodes(p) + Nodes(l) + Nodes(r))`Color
    {
      && Distinct(l) && Distinct(r) && PathDistinct(p) && z != y
      && PathNodes(p) !! Nodes(l) && PathNodes(p) !! Nodes(r) && Nodes(l) !! Nodes(r)
      && z !in PathNodes(p) && z !in Nodes(l) && z !in Nodes(r)
      && y !in PathNodes(p) && y !in Nodes(l) && y !in Nodes(r)
      && Root == TopOf(p, z)
      && (forall n <- PathNodes(p) :: Held(n) == PathLinkOf(p, z, n))
      && (forall n <- Nodes(l) :: Held(n) == LinkOf(l, z, n))
      && (forall n <- Nodes(r) :: Held(n) == LinkOf(r, y, n))
      && z.RbtLeft == RootOf(l) && z.RbtParent == ParentOf(p) && z.Color == c && y.RbtRight == RootOf(r)
    }

    lemma SettledLinks(z: Task, y: Task, p: Path<Task>, l: Tree<Task>, c: Color, r: Tree<Task>)
      requires Distinct(l) && Distinct(r) && PathDistinct(p) && l.Node?
      requires PathNodes(p) !! Nodes(l) && PathNodes(p) !! Nodes(r) && Nodes(l) !! Nodes(r)
      requires y !in PathNodes(p) && y !in Nodes(l) && y !in Nodes(r)
      requires Root == TopOf(p, y) && Held(y) == Link(l.item, RootOf(r), ParentOf(p), c)
      requires forall n <- PathNodes(p) :: Held(n) == PathLinkOf(p, y, n)
      requires forall n <- Nodes(l) :: Held(n) == if n == l.item then LinkOf(l, z, n).(parent := y) else LinkOf(l, z, n)
      requires forall n <- Nodes(r) :: Held(n) == LinkOf(r, y, n)
      ensures var t := Node(l, y, c, r);
        && Root == RootOf(Plug(p, t)) && Distinct(Plug(p, t))
        && Nodes(Plug(p, t)) == PathNodes(p) + Nodes(l) + {y} + Nodes(r)
        && forall n <- Nodes(Plug(p, t)) :: Held(n) == LinkOf(Plug(p, t), null, n)
    {
      var t := Node(l, y, c, r);
      forall n <- Nodes(t) ensures Held(n) == LinkOf(t, ParentOf(p), n) {
        if n in Nodes(l) { Reparent(l, z, y, n); }
      }
      Assemble(p, t);
    }

    /** y, already in z's place, takes over z's left subtree and colour. */
    method Inherit(z: Task, y: Task, ghost p: Path<Task>, ghost l: Tree<Task>, ghost c: Color, ghost r: Tree<Task>)
      requires Distinct(l) && Distinct(r) && PathDistinct(p) && l.Node? && z != y
      requires PathNodes(p) !! Nodes(l) && PathNodes(p) !! Nodes(r) && Nodes(l) !! Nodes(r)
      requires y !in PathNodes(p) && y !in Nodes(l) && y !in Nodes(r)
      requires Root == TopOf(p, y) && z.RbtLeft == l.item && z.Color == c
      requires y.RbtRight == RootOf(r) && y.RbtParent == ParentOf(p)
      requires forall n <- PathNodes(p) :: Held(n) == PathLinkOf(p, y, n)
      requires forall n <- Nodes(l) :: Held(n) == LinkOf(l, z, n)
      requires forall n <- Nodes(r) :: Held(n) == LinkOf(r, y, n)
      modifies this`tree, y`RbtLeft, y`Color, z.RbtLeft`RbtParent
      ensures Shaped() && tree == Plug(p, Node(l, y, c, r))
      ensures Nodes(tree) == PathNodes(p) + Nodes(l) + {y} + Nodes(r)
    {
      y.RbtLeft := z.RbtLeft;
      y.RbtLeft.RbtParent := y;
      y.Color := z.Color;
      SettledLinks(z, y, p, l, c, r);
      tree := Plug(p, Node(l, y, c, r));
    }

    /** The second half of an erasure with two children: y takes z's place and colour. */
    method Settle(z: Task, y: Task, ghost p: Path<Task>, ghost l: Tree<Task>, ghost c: Color, ghost r: Tree<Task>)
      requires Ready(z, y, p, l, c, r) && l.Node?
      modifies this`Root, this`tree, y`RbtLeft, y`RbtParent, y`Color, (PathNodes(p) + Nodes(l))`RbtLeft
      modifies (PathNodes(p) + Nodes(l))`RbtRight
      modifies (PathNodes(p) + Nodes(l))`RbtParent
      ensures Shaped() && tree == Plug(p, Node(l, y, c, r))
      ensures Nodes(tree) == PathNodes(p) + Nodes(l) + {y} + Nodes(r)
    {
      Transplant(z, y, p, Nodes(l) + Nodes(r) + {y, z});
      Inherit(z, y, p, l, c, r);
    }

    /** The leftmost task of the subtree at p, found by following RbtLeft. */
    method Leftmost(start: Task, ghost p: Path<Task>, ghost r: Tree<Task>)
      returns (y: Task, ghost q: Path<Task>, ghost t: Tree<Task>)
      requires Shaped() && tree == Plug(p, r) && r.Node? && start == r.item
      ensures Shaped() && tree == old(tree)
      ensures t.Node? && t.item == y && t.left.Nil? && Plug(q, t) == r && tree == Plug(Append(p, q), t)
      ensures Before(q) == []
    {
      y, q, t := start, Top, r;
      Look(p, r);
      while y.RbtLeft != null
        invariant Shaped() && tree == old(tree)
        invariant t.Node? && t.item == y && Plug(q, t) == r && tree == Plug(Append(p, q), t) && Before(q) == []
        invariant y.RbtLeft == RootOf(t.left)
        decreases t
      {
        y, q, t := y.RbtLeft, InLeft(q, t.item, t.color, t.right), t.left;
        Look(Append(p, q), t);
      }
    }

    /** The first half of an erasure with two children: the successor y of z leaves its own
        place, unless it is z's right child, and takes z's right subtree. */
    method Detach(z: Task, y: Task, ghost p: Path<Task>, ghost t: Tree<Task>, ghost q: Path<Task>, ghost u: Tree<Task>)
      requires Shaped() && tree == Plug(p, t) && t.Node? && t.item == z && t.left.Node? && t.right.Node?
      requires u.Node? && u.item == y && u.left.Nil? && Plug(q, u) == t.right
      modifies this`Root, this`tree, Nodes(tree)`RbtLeft, Nodes(tree)`RbtRight, Nodes(tree)`RbtParent
      ensures Ready(z, y, p, t.left, t.color, Plug(q, u.right))
      ensures PathNodes(p) + Nodes(t.left) + {y, z} + Nodes(Plug(q, u.right)) == old(Nodes(tree))
    {
      LookSuccessor(p, t, q, u);
      SuccessorNodes(p, t, q, u);
      if y.RbtParent == z {
        ReadyDirect(z, y, p, t);
      } else {
        ghost var base := InRight(p, z, t.color, t.left);
        Splice(y, y.RbtRight, Append(base, q), u, u.right);
        PlugAppend(base, q, u.right);
        TakeRight(z, y, p, Node(t.left, z, t.color, Plug(q, u.right)));
      }
    }

    /** What is known about the successor of the task at p. */
    lemma LookSuccessor(p: Path<Task>, t: Tree<Task>, q: Path<Task>, u: Tree<Task>)
      requires Shaped() && tree == Plug(p, t) && t.Node? && t.right.Node?
      requires u.Node? && u.left.Nil? && Plug(q, u) == t.right
      ensures tree == Plug(Append(InRight(p, t.item, t.color, t.left), q), u)
      ensures u.item.RbtParent == ParentOf(Append(InRight(p, t.item, t.color, t.left), q))
      ensures u.item.RbtParent == t.item <==> q.Top?
      ensures !q.Top? ==> u.item.RbtParent == q.item && Plug(q, u.right).Node?
      ensures u.item.RbtRight == RootOf(u.right) && u.item.Color == u.color
    {
      var base := InRight(p, t.item, t.color, t.left);
      PlugAppend(base, q, u);
      SuccessorNodes(p, t, q, u);
      assert ParentOf(Append(base, q)) == if q.Top? then t.item else q.item;
      Look(Append(base, q), u);
    }

    lemma ReadyDirect(z: Task, y: Task, p: Path<Task>, t: Tree<Task>)
      requires Shaped() && tree == Plug(p, t) && t.Node? && t.item == z
      requires t.right.Node? && t.right.item == y && t.right.left.Nil?
      ensures Ready(z, y, p, t.left, t.color, t.right.right)
      ensures PathNodes(p) + Nodes(t.left) + {y, z} + Nodes(t.right.right) == Nodes(tree)
    {
      Dissect(p, t);
      var r := t.right.right;
      assert LinkOf(t, ParentOf(p), y) == LinkOf(t.right, z, y);
      forall n <- Nodes(r) ensures Held(n) == LinkOf(r, y, n) {
        assert LinkOf(t, ParentOf(p), n) == LinkOf(t.right, z, n);
      }
      forall n <- Nodes(t.left) ensures Held(n) == LinkOf(t.left, z, n) {
        assert Held(n) == LinkOf(t, ParentOf(p), n);
      }
    }

    /** y, already out of the tree, takes over z's right subtree. */
    method TakeRight(z: Task, y: Task, ghost p: Path<Task>, ghost t: Tree<Task>)
      requires Shaped() && tree == Plug(p, t) && t.Node? && t.item == z && t.right.Node? && y !in Nodes(tree)
      modifies y`RbtRight, t.right.item`RbtParent
      ensures Ready(z, y, p, t.left, t.color, t.right)
      ensures tree == old(tree) && Nodes(tree) == PathNodes(p) + Nodes(t.left) + {z} + Nodes(t.right)
    {
      Dissect(p, t);
      y.RbtRight := z.RbtRight;
      y.RbtRight.RbtParent := y;
      ghost var r := t.right;
      forall n <- Nodes(r) ensures Held(n) == LinkOf(r, y, n) { Reparent(r, z, y, n); }
    }

    /** RBT_Erase up to the fixup, when z has at most one child. */
    method EraseOuter(z: Task, ghost p: Path<Task>, ghost t: Tree<Task>)
      returns (x: Task?, xParent: Task?, lost: Color, ghost q: Path<Task>, ghost rest: Tree<Task>)
      requires Shaped() && RedBlack(tree) && tree == Plug(p, t) && t.Node? && t.item == z
      requires t.left.Nil? || t.right.Nil?
      modifies this`Root, this`tree, Nodes(tree)`RbtLeft, Nodes(tree)`RbtRight, Nodes(tree)`RbtParent
      ensures Shaped() && tree == Plug(q, rest) && RootOf(rest) == x && xParent == ParentOf(q)
      ensures if lost == Black then EraseInvariant(q, rest) else RedBlack(tree)
      ensures Inorder(tree) == Without(old(Inorder(tree)), z) && Nodes(tree) == old(Nodes(tree)) - {z}
    {
      Look(p, t);
      lost, xParent := z.Color, z.RbtParent;
      q := p;
      if z.RbtLeft == null {
        x, rest := z.RbtRight, t.right;
        Splice(z, z.RbtRight, p, t, t.right);
      } else {
        x, rest := z.RbtLeft, t.left;
        Splice(z, z.RbtLeft, p, t, t.left);
      }
      SpliceOut(p, t, rest);
      SpliceOrder(p, t, rest);
      PlugBalanced(p, rest);
      PlugColors(p, rest);
    }

    /** y, the successor of z, moves into z's place. */
    method Replace(z: Task, y: Task, ghost p: Path<Task>, ghost t: Tree<Task>, ghost q: Path<Task>, ghost u: Tree<Task>)
      requires Shaped() && tree == Plug(p, t) && t.Node? && t.item == z && t.left.Node? && t.right.Node?
      requires u.Node? && u.item == y && u.left.Nil? && Plug(q, u) == t.right
      modifies this`Root, this`tree, Nodes(tree)`RbtLeft, Nodes(tree)`RbtRight, Nodes(tree)`RbtParent, Nodes(tree)`Color
      ensures Shaped() && tree == Plug(p, Node(t.left, y, t.color, Plug(q, u.right)))
      ensures Nodes(tree) == old(Nodes(tree)) - {z}
    {
      hide Plug, Nodes, Inorder, PathNodes, Distinct, LinkOf, TopOf;
      SuccessorNodes(p, t, q, u);
      Detach(z, y, p, t, q, u);
      Settle(z, y, p, t.left, t.color, Plug(q, u.right));
    }

    /** RBT_Erase up to the fixup, when z has two children. */
    method EraseInner(z: Task, ghost p: Path<Task>, ghost t: Tree<Task>)
      returns (x: Task?, xParent: Task?, lost: Color, ghost q: Path<Task>, ghost rest: Tree<Task>)
      requires Shaped() && RedBlack(tree) && tree == Plug(p, t) && t.Node? && t.item == z
      requires t.left.Node? && t.right.Node?
      modifies this`Root, this`tree, Nodes(tree)`RbtLeft, Nodes(tree)`RbtRight, Nodes(tree)`RbtParent, Nodes(tree)`Color
      ensures Shaped() && tree == Plug(q, rest) && RootOf(rest) == x && xParent == ParentOf(q)
      ensures if lost == Black then EraseInvariant(q, rest) else RedBlack(tree)
      ensures Inorder(tree) == Without(old(Inorder(tree)), z) && Nodes(tree) == old(Nodes(tree)) - {z}
    {
      Look(p, t);
      var y;
      ghost var w, u;
      y, w, u := Leftmost(z.RbtRight, InRight(p, z, t.color, t.left), t.right);
      LookSuccessor(p, t, w, u);
      lost, x := y.Color, y.RbtRight;
      xParent := if y.RbtParent == z then y else y.RbtParent;
      SuccessorOrder(p, t.left, z, t.color, w, u);
      SuccessorColors(p, t.left, z, t.color, w, u);
      Replace(z, y, p, t, w, u);
      q, rest := Append(InRight(p, y, t.color, t.left), w), u.right;
    }

    /** RBT_Erase without its last three lines. */
    method TakeOut(z: Task)
      requires Shaped() && RedBlack(tree) && z in Nodes(tree)
      modifies this`Root, this`tree, Nodes(tree)`RbtLeft, Nodes(tree)`RbtRight, Nodes(tree)`RbtParent, Nodes(tree)`Color
      ensures Shaped() && RedBlack(tree)
      ensures Inorder(tree) == Without(old(Inorder(tree)), z) && Nodes(tree) == old(Nodes(tree)) - {z}
    {
      ghost var p, t := Focus(Top, tree, z);
      Look(p, t);
      ghost var q, rest;
      var x, xParent, lost;
      if z.RbtLeft == null || z.RbtRight == null {
        x, xParent, lost, q, rest := EraseOuter(z, p, t);
      } else {
        x, xParent, lost, q, rest := EraseInner(z, p, t);
      }
      if lost == Black {
        EraseFixup(x, xParent, q, rest);
      }
    }

    /** RBT_Erase. */
    method Erase(z: Task)
      requires Shaped() && RedBlack(tree) && z in Nodes(tree)
      modifies this`Root, this`tree, Nodes(tree)`RbtLeft, Nodes(tree)`RbtRight, Nodes(tree)`RbtParent, Nodes(tree)`Color
      ensures Shaped() && RedBlack(tree)
      ensures Inorder(tree) == Without(old(Inorder(tree)), z) && Nodes(tree) == old(Nodes(tree)) - {z}
      ensures z.RbtLeft == null && z.RbtRight == null && z.RbtParent == null
    {
      TakeOut(z);
      z.RbtLeft := null;
      z.RbtRight := null;
      z.RbtParent := null;
    }

    /** The last lines of CFSEnqueue before the fixup: a new red leaf in an empty place. */
    method Attach(n: Task, parent: Task?, left: bool, ghost p: Path<Task>)
      requires Shaped() && tree == Plug(p, Nil) && n !in Nodes(tree)
      requires parent == ParentOf(p) && (!p.Top? ==> left == p.InLeft?)
      modifies this`Root, this`tree, Nodes(tree)`RbtLeft, Nodes(tree)`RbtRight, n`RbtLeft, n`RbtRight, n`RbtParent
      modifies n`Color
      ensures Shaped() && tree == Plug(p, Node(Nil, n, Red, Nil)) && Nodes(tree) == old(Nodes(tree)) + {n}
    {
      Dissect(p, Nil);
      n.RbtParent := parent;
      n.RbtLeft := null;
      n.RbtRight := null;
      n.Color := Red;
      if parent == null {
        Root := n;
      } else if left {
        parent.RbtLeft := n;
      } else {
        parent.RbtRight := n;
      }
      Assemble(p, Node(Nil, n, Red, Nil));
      tree := Plug(p, Node(Nil, n, Red, Nil));
    }

    /** A new leaf, and the repair that follows. */
    method InsertLeaf(n: Task, parent: Task?, left: bool, ghost p: Path<Task>)
      requires Shaped() && RedBlack(tree) && tree == Plug(p, Nil) && n !in Nodes(tree)
      requires parent == ParentOf(p) && (!p.Top? ==> left == p.InLeft?)
      modifies this`Root, this`tree, Nodes(tree)`RbtLeft, Nodes(tree)`RbtRight, Nodes(tree)`RbtParent, Nodes(tree)`Color
      modifies n`RbtLeft, n`RbtRight, n`RbtParent, n`Color
      ensures Shaped() && RedBlack(tree)
      ensures Nodes(tree) == old(Nodes(tree)) + {n} && Inorder(tree) == Before(p) + [n] + After(p)
    {
      InsertStart(p, n);
      PlugInorder(p, Node(Nil, n, Red, Nil));
      Attach(n, parent, left, p);
      InsertFixup(n, p, Node(Nil, n, Red, Nil));
    }
  }

  lemma SuccessorNodes(p: Path<Task>, t: Tree<Task>, q: Path<Task>, u: Tree<Task>)
    requires Distinct(Plug(p, t)) && t.Node? && t.right.Node? && u.Node? && u.left.Nil? && Plug(q, u) == t.right
    ensures u.item in Nodes(t.right) && u.item !in Nodes(Plug(q, u.right)) && u.item != t.item
    ensures PathNodes(p) + Nodes(t.left) + {u.item, t.item} + Nodes(Plug(q, u.right)) == Nodes(Plug(p, t))
    ensures t.item !in PathNodes(p) + Nodes(t.left) + {u.item} + Nodes(Plug(q, u.right))
    ensures !q.Top? ==> q.item != t.item && Plug(q, u.right).Node?
  {
    hide *;
    PlugNodes(p, t);
    NodeParts(t);
    UnderSuccessor(q, u);
    SetShuffle(PathNodes(p), Nodes(t.left), t.item, Nodes(t.right), u.item, Nodes(Plug(q, u.right)));
  }

  lemma NodeParts(t: Tree<Task>)
    requires Distinct(t) && t.Node?
    ensures Nodes(t) == Nodes(t.left) + {t.item} + Nodes(t.right)
    ensures t.item !in Nodes(t.left) && t.item !in Nodes(t.right) && Distinct(t.right)
  {
  }

  lemma UnderSuccessor(q: Path<Task>, u: Tree<Task>)
    requires Distinct(Plug(q, u)) && u.Node? && u.left.Nil?
    ensures Nodes(Plug(q, u)) == {u.item} + Nodes(Plug(q, u.right)) && u.item !in Nodes(Plug(q, u.right))
    ensures !q.Top? ==> q.item in Nodes(Plug(q, u)) && Plug(q, u.right).Node?
  {
    PlugNodes(q, u);
    PlugNodes(q, u.right);
    if !q.Top? { PlugIsNode(q.up, Raise(q, u.right)); }
  }

  lemma SetShuffle(a: set<Task>, l: set<Task>, z: Task, r: set<Task>, y: Task, v: set<Task>)
    requires r == {y} + v
    ensures a + l + {y, z} + v == a + (l + {z} + r)
  {
  }

  lemma {:induction false} TopIsOnPath(p: Path<Task>, hole: Task?)
    ensures !p.Top? ==> TopOf(p, hole) in PathNodes(p)
  {
    if !p.Top? { TopIsOnPath(p.up, p.item); }
  }
}
