/** Red-black trees as values: the ghost picture of the intrusive tree that
    kernel/task/rbt.cpp keeps through RbtLeft, RbtRight and RbtParent.

    A position in a tree is a `Path` (the way from a subtree up to the root) and the
    subtree that hangs there; `Plug` puts the two together again. Every balancing loop
    walks such a position up the tree, so each loop invariant below is a predicate on a
    path and a subtree. */
module RbShape {
  import opened Basics

  datatype Color = Red | Black

  datatype Tree<T> = Nil | Node(left: Tree<T>, item: T, color: Color, right: Tree<T>)

  /** `InLeft(up, x, c, s)`: the hole is the left child of x, whose right subtree is s. */
  datatype Path<T> =
    | Top
    | InLeft(up: Path<T>, item: T, color: Color, sibling: Tree<T>)
    | InRight(up: Path<T>, item: T, color: Color, sibling: Tree<T>)

  // ----- positions

  function Plug<T>(p: Path<T>, t: Tree<T>): Tree<T> {
    match p
    case Top => t
    case InLeft(up, x, c, s) => Plug(up, Node(t, x, c, s))
    case InRight(up, x, c, s) => Plug(up, Node(s, x, c, t))
  }

  function Depth<T>(p: Path<T>): nat {
    if p.Top? then 0 else 1 + Depth(p.up)
  }

  // ----- contents

  function Inorder<T>(t: Tree<T>): seq<T> {
    if t.Nil? then [] else Inorder(t.left) + [t.item] + Inorder(t.right)
  }

  /** The elements that come before, and after, everything in the hole. */
  function Before<T>(p: Path<T>): seq<T> {
    match p
    case Top => []
    case InLeft(up, _, _, _) => Before(up)
    case InRight(up, x, _, s) => Before(up) + Inorder(s) + [x]
  }

  function After<T>(p: Path<T>): seq<T> {
    match p
    case Top => []
    case InLeft(up, x, _, s) => [x] + Inorder(s) + After(up)
    case InRight(up, _, _, _) => After(up)
  }

  lemma {:induction false} PlugInorder<T>(p: Path<T>, t: Tree<T>)
    ensures Inorder(Plug(p, t)) == Before(p) + Inorder(t) + After(p)
  {
    match p
    case Top =>
    case InLeft(up, x, c, s) =>
      PlugInorder(up, Node(t, x, c, s));
      Regroup(Before(up), Inorder(t), [x], Inorder(s), After(up));
    case InRight(up, x, c, s) =>
      PlugInorder(up, Node(s, x, c, t));
      Regroup(Before(up), Inorder(s), [x], Inorder(t), After(up));
  }

  lemma Regroup<T>(a: seq<T>, b: seq<T>, c: seq<T>, d: seq<T>, e: seq<T>)
    ensures a + (b + c + d) + e == a + b + (c + d + e)
    ensures a + (b + c + d) + e == (a + b + c) + d + e
  {
  }

  ghost function Nodes<T>(t: Tree<T>): set<T> {
    if t.Nil? then {} else Nodes(t.left) + {t.item} + Nodes(t.right)
  }

  ghost function PathNodes<T>(p: Path<T>): set<T> {
    if p.Top? then {} else PathNodes(p.up) + {p.item} + Nodes(p.sibling)
  }

  ghost predicate Distinct<T>(t: Tree<T>) {
    t.Node? ==>
      && Distinct(t.left) && Distinct(t.right)
      && t.item !in Nodes(t.left) && t.item !in Nodes(t.right)
      && Nodes(t.left) !! Nodes(t.right)
  }

  ghost predicate PathDistinct<T>(p: Path<T>) {
    !p.Top? ==>
      && PathDistinct(p.up) && Distinct(p.sibling)
      && p.item !in PathNodes(p.up) && p.item !in Nodes(p.sibling)
      && PathNodes(p.up) !! Nodes(p.sibling)
  }

  lemma {:induction false} PlugNodes<T>(p: Path<T>, t: Tree<T>)
    ensures Nodes(Plug(p, t)) == PathNodes(p) + Nodes(t)
    ensures Distinct(Plug(p, t)) <==> Distinct(t) && PathDistinct(p) && PathNodes(p) !! Nodes(t)
  {
    match p
    case Top =>
    case InLeft(up, x, c, s) => PlugNodes(up, Node(t, x, c, s));
    case InRight(up, x, c, s) => PlugNodes(up, Node(s, x, c, t));
  }

  lemma {:induction false} NodesAreInorder<T>(t: Tree<T>, x: T)
    ensures x in Nodes(t) <==> x in Inorder(t)
  {
    if t.Node? {
      NodesAreInorder(t.left, x);
      NodesAreInorder(t.right, x);
    }
  }

  lemma AllNodesInorder<T>(t: Tree<T>)
    ensures forall x <- Nodes(t) :: x in Inorder(t)
  {
    forall x | x in Nodes(t) ensures x in Inorder(t) { NodesAreInorder(t, x); }
  }

  lemma {:induction false} DistinctInorder<T>(t: Tree<T>)
    requires Distinct(t)
    ensures NoDuplicates(Inorder(t))
  {
    if t.Node? {
      DistinctInorder(t.left);
      DistinctInorder(t.right);
      var l, r := Inorder(t.left), Inorder(t.right);
      var s := l + [t.item] + r;
      forall i, j | 0 <= i < j < |s| ensures s[i] != s[j] {
        var a, b := s[i], s[j];
        if j < |l| {
          assert l[i] != l[j];
        } else if i > |l| {
          assert r[i - |l| - 1] != r[j - |l| - 1];
        } else {
          assert i < |l| ==> a in l;
          assert j > |l| ==> b in r;
          NodesAreInorder(t.left, a);
          NodesAreInorder(t.right, b);
        }
      }
    }
  }

  /** Every element of a tree has a position. */
  lemma {:induction false} Focus<T>(p: Path<T>, t: Tree<T>, x: T) returns (q: Path<T>, u: Tree<T>)
    requires x in Nodes(t)
    ensures u.Node? && u.item == x && Plug(q, u) == Plug(p, t)
    decreases t
  {
    if t.item == x {
      q, u := p, t;
    } else if x in Nodes(t.left) {
      q, u := Focus(InLeft(p, t.item, t.color, t.right), t.left, x);
    } else {
      q, u := Focus(InRight(p, t.item, t.color, t.left), t.right, x);
    }
  }

  // ----- the red-black rules

  predicate IsRed<T>(t: Tree<T>) {
    t.Node? && t.color.Red?
  }

  function Blacks(c: Color): nat {
    if c.Black? then 1 else 0
  }

  function BlackHeight<T>(t: Tree<T>): nat {
    if t.Nil? then 0 else BlackHeight(t.left) + Blacks(t.color)
  }

  predicate Balanced<T>(t: Tree<T>) {
    t.Node? ==> Balanced(t.left) && Balanced(t.right) && BlackHeight(t.left) == BlackHeight(t.right)
  }

  predicate NoRedRed<T>(t: Tree<T>) {
    t.Node? ==>
      && NoRedRed(t.left) && NoRedRed(t.right)
      && (t.color.Red? ==> !IsRed(t.left) && !IsRed(t.right))
  }

  predicate RedBlack<T>(t: Tree<T>) {
    Balanced(t) && NoRedRed(t) && !IsRed(t)
  }

  /** A path into whose hole a subtree of black height h fits. */
  predicate PathBalanced<T>(p: Path<T>, h: nat) {
    !p.Top? ==> Balanced(p.sibling) && BlackHeight(p.sibling) == h && PathBalanced(p.up, h + Blacks(p.color))
  }

  predicate PathNoRedRed<T>(p: Path<T>, redHole: bool) {
    !p.Top? ==>
      && NoRedRed(p.sibling)
      && (p.color.Red? ==> !redHole && !IsRed(p.sibling))
      && PathNoRedRed(p.up, p.color.Red?)
  }

  /** The colour of the root of the plugged tree, given the colour of what is in the hole. */
  predicate RootRed<T>(p: Path<T>, redHole: bool) {
    if p.Top? then redHole else RootRed(p.up, p.color.Red?)
  }

  lemma {:induction false} PlugBalanced<T>(p: Path<T>, t: Tree<T>)
    ensures Balanced(Plug(p, t)) <==> Balanced(t) && PathBalanced(p, BlackHeight(t))
  {
    match p
    case Top =>
    case InLeft(up, x, c, s) => PlugBalanced(up, Node(t, x, c, s));
    case InRight(up, x, c, s) => PlugBalanced(up, Node(s, x, c, t));
  }

  lemma {:induction false} PlugColors<T>(p: Path<T>, t: Tree<T>)
    ensures NoRedRed(Plug(p, t)) <==> NoRedRed(t) && PathNoRedRed(p, IsRed(t))
    ensures IsRed(Plug(p, t)) == RootRed(p, IsRed(t))
  {
    match p
    case Top =>
    case InLeft(up, x, c, s) => PlugColors(up, Node(t, x, c, s));
    case InRight(up, x, c, s) => PlugColors(up, Node(s, x, c, t));
  }

  // ----- what a red-black tree is for: its height is logarithmic

  function Size<T>(t: Tree<T>): nat {
    if t.Nil? then 0 else Size(t.left) + 1 + Size(t.right)
  }

  function Height<T>(t: Tree<T>): nat {
    if t.Nil? then 0
    else 1 + if Height(t.left) < Height(t.right) then Height(t.right) else Height(t.left)
  }

  function Pow2(n: nat): nat {
    if n == 0 then 1 else 2 * Pow2(n - 1)
  }

  lemma {:induction false} Pow2Monotone(m: nat, n: nat)
    requires m <= n
    ensures 1 <= Pow2(m) <= Pow2(n)
  {
    if n > 0 {
      if m == n { Pow2Monotone(m - 1, n - 1); } else { Pow2Monotone(m, n - 1); }
    }
  }

  lemma {:induction false} Pow2Add(m: nat, n: nat)
    ensures Pow2(m + n) == Pow2(m) * Pow2(n)
  {
    if m > 0 {
      Pow2Add(m - 1, n);
      assert Pow2(m + n) == 2 * Pow2(m - 1 + n);
    }
  }

  lemma {:induction false} SizeBound<T>(t: Tree<T>)
    requires Balanced(t)
    ensures Size(t) + 1 >= Pow2(BlackHeight(t))
    ensures |Inorder(t)| == Size(t)
  {
    if t.Node? {
      SizeBound(t.left);
      SizeBound(t.right);
    }
  }

  lemma {:induction false} HeightBound<T>(t: Tree<T>)
    requires Balanced(t) && NoRedRed(t)
    ensures Height(t) <= 2 * BlackHeight(t) + (if IsRed(t) then 1 else 0)
  {
    if t.Node? {
      HeightBound(t.left);
      HeightBound(t.right);
    }
  }

  /** height <= 2 * log2(n + 1), with both sides raised to powers of two. */
  lemma {:induction false} LogarithmicHeight<T>(t: Tree<T>)
    requires RedBlack(t)
    ensures Pow2(Height(t)) <= (|Inorder(t)| + 1) * (|Inorder(t)| + 1)
  {
    SizeBound(t);
    HeightBound(t);
    var n, h := Size(t) + 1, BlackHeight(t);
    Pow2Monotone(Height(t), 2 * h);
    Pow2Add(h, h);
    Squares(Pow2(h), n);
  }

  /** No subtree hangs deeper than the height allows. */
  lemma {:induction false} NoDeeper<T>(p: Path<T>, t: Tree<T>)
    ensures Depth(p) + Height(t) <= Height(Plug(p, t))
    decreases p
  {
    match p
    case Top =>
    case InLeft(up, x, c, s) => NoDeeper(up, Node(t, x, c, s));
    case InRight(up, x, c, s) => NoDeeper(up, Node(s, x, c, t));
  }

  /** So a search that goes down from the root, wherever it goes, is over after 2 * log2(n + 1)
      steps. */
  lemma LogarithmicSearch<T>(p: Path<T>, t: Tree<T>)
    requires RedBlack(Plug(p, t))
    ensures Pow2(Depth(p)) <= (|Inorder(Plug(p, t))| + 1) * (|Inorder(Plug(p, t))| + 1)
  {
    NoDeeper(p, t);
    Pow2Monotone(Depth(p), Height(Plug(p, t)));
    LogarithmicHeight(Plug(p, t));
  }

  lemma Squares(a: nat, b: nat)
    requires a <= b
    ensures a * a <= b * b
  {
    assert a * a <= a * b <= b * b;
  }

  // ----- rotations

  function RotatedLeft<T>(t: Tree<T>): Tree<T>
    requires t.Node? && t.right.Node?
  {
    Node(Node(t.left, t.item, t.color, t.right.left), t.right.item, t.right.color, t.right.right)
  }

  function RotatedRight<T>(t: Tree<T>): Tree<T>
    requires t.Node? && t.left.Node?
  {
    Node(t.left.left, t.left.item, t.left.color, Node(t.left.right, t.item, t.color, t.right))
  }

  function Painted<T>(t: Tree<T>, c: Color): Tree<T>
    requires t.Node?
  {
    t.(color := c)
  }

  /** Rotating keeps the order of the elements, and the two rotations undo each other. */
  lemma RotationsKeepOrder<T>(a: Tree<T>, x: T, c: Color, b: Tree<T>, y: T, d: Color, e: Tree<T>)
    ensures Inorder(Node(Node(a, x, c, b), y, d, e)) == Inorder(Node(a, x, c, Node(b, y, d, e)))
    ensures RotatedLeft(Node(a, x, c, Node(b, y, d, e))) == Node(Node(a, x, c, b), y, d, e)
    ensures RotatedRight(Node(Node(a, x, c, b), y, d, e)) == Node(a, x, c, Node(b, y, d, e))
  {
    var l, r := Node(a, x, c, b), Node(b, y, d, e);
    calc {
      Inorder(Node(l, y, d, e));
      Inorder(l) + [y] + Inorder(e);
      Inorder(a) + [x] + Inorder(b) + [y] + Inorder(e);
      Inorder(a) + [x] + (Inorder(b) + [y] + Inorder(e));
      Inorder(a) + [x] + Inorder(r);
      Inorder(Node(a, x, c, r));
    }
  }

  // ----- loop invariants of the two fixups

  /** Insertion: only the red subtree in the hole may sit under a red parent. */
  predicate InsertInvariant<T>(p: Path<T>, t: Tree<T>) {
    && IsRed(t) && Balanced(t) && NoRedRed(t)
    && PathBalanced(p, BlackHeight(t)) && PathNoRedRed(p, false)
    && (p.Top? || !RootRed(p, true))
  }

  function Blackened<T>(t: Tree<T>): Tree<T> {
    if t.Nil? then Nil else Painted(t, Black)
  }

  /** Erasure: the hole wants one more black than the subtree in it has. A red subtree can
      pay by turning black, which ends the loop. */
  predicate EraseInvariant<T>(p: Path<T>, t: Tree<T>) {
    && Balanced(t) && NoRedRed(Blackened(t))
    && PathBalanced(p, BlackHeight(t) + 1) && PathNoRedRed(p, false)
    && (p.Top? || !RootRed(p, true))
  }

  /** The subtree one step up the path. */
  function Raise<T>(p: Path<T>, t: Tree<T>): Tree<T>
    requires !p.Top?
  {
    if p.InLeft? then Node(t, p.item, p.color, p.sibling) else Node(p.sibling, p.item, p.color, t)
  }

  function PathPainted<T>(p: Path<T>, c: Color): Path<T>
    requires !p.Top?
  {
    if p.InLeft? then InLeft(p.up, p.item, c, p.sibling) else InRight(p.up, p.item, c, p.sibling)
  }

  /** The position of the sibling of what hangs at p. */
  function Across<T>(p: Path<T>, t: Tree<T>): Path<T>
    requires !p.Top?
  {
    if p.InLeft? then InRight(p.up, p.item, p.color, t) else InLeft(p.up, p.item, p.color, t)
  }

  // ----- the pure content of each case of the insertion loop

  /** The subtree at the grandparent after case 1. */
  function Case1<T>(p: Path<T>, t: Tree<T>): Tree<T>
    requires !p.Top? && !p.up.Top? && p.up.sibling.Node?
  {
    var parent, uncle := Painted(Raise(p, t), Black), Painted(p.up.sibling, Black);
    if p.up.InLeft? then Node(parent, p.up.item, Red, uncle) else Node(uncle, p.up.item, Red, parent)
  }

  /** Case 1 in colours: parent and uncle black, grandparent red. */
  lemma Case1Paints<T>(p: Path<T>, t: Tree<T>)
    requires !p.Top? && !p.up.Top? && p.up.sibling.Node?
    ensures var a, b, g := Painted(Raise(p, t), Black), Painted(p.up.sibling, Black), p.up.item;
      && Raise(p, t).Node? && Raise(p, t).item == p.item
      && Painted(Case1(p, t), p.up.color) == (if p.up.InLeft? then Node(a, g, p.up.color, b)
                                              else Node(b, g, p.up.color, a))
    ensures var c := Painted(Case1(p, t), p.up.color);
      Case1(p, t).Node? && c.Node? && c.item == Case1(p, t).item == p.up.item && Painted(c, Red) == Case1(p, t)
    ensures Depth(p.up.up) < Depth(p)
  {
  }

  /** Under a red parent there is a grandparent, and it is black. */
  lemma InsertHasGrandparent<T>(p: Path<T>, t: Tree<T>)
    requires InsertInvariant(p, t) && !p.Top? && p.color.Red?
    ensures !p.up.Top? && p.up.color.Black?
    ensures PathBalanced(p.up, BlackHeight(t)) && PathNoRedRed(p.up, true)
    ensures PathBalanced(p.up.up, BlackHeight(t) + 1) && PathNoRedRed(p.up.up, false)
    ensures p.up.up.Top? || !RootRed(p.up.up, true)
  {
    assert RootRed(p, true) == RootRed(p.up, true);
    assert PathNoRedRed(p.up, true) && PathBalanced(p.up, BlackHeight(t));
    assert !p.up.Top? ==> RootRed(p.up, true) == RootRed(p.up.up, p.up.color.Red?);
  }

  /** Case 1: parent and uncle turn black, and the red grandparent is the new suspect. */
  lemma InsertCase1<T>(p: Path<T>, t: Tree<T>)
    requires InsertInvariant(p, t) && !p.Top? && !p.up.Top? && p.color.Red? && IsRed(p.up.sibling)
    ensures InsertInvariant(p.up.up, Case1(p, t))
  {
    InsertHasGrandparent(p, t);
    var parent, uncle := Painted(Raise(p, t), Black), Painted(p.up.sibling, Black);
    assert Balanced(parent) && NoRedRed(parent) && BlackHeight(parent) == BlackHeight(t) + 1;
    assert Balanced(uncle) && NoRedRed(uncle) && BlackHeight(uncle) == BlackHeight(t) + 1;
  }

  /** Case 2: an inner grandchild becomes an outer one. */
  lemma InsertCase2<T>(p: Path<T>, t: Tree<T>)
    requires InsertInvariant(p, t) && !p.Top? && !p.up.Top? && p.color.Red?
    ensures p.InRight? ==>
      InsertInvariant(InLeft(p.up, t.item, t.color, t.right), Node(p.sibling, p.item, p.color, t.left))
    ensures p.InLeft? ==>
      InsertInvariant(InRight(p.up, t.item, t.color, t.left), Node(t.right, p.item, p.color, p.sibling))
  {
    InsertHasGrandparent(p, t);
  }

  /** Case 3: rotating the grandparent away ends the loop under a black parent. */
  lemma InsertCase3<T>(p: Path<T>, t: Tree<T>)
    requires InsertInvariant(p, t) && !p.Top? && !p.up.Top? && p.color.Red? && !IsRed(p.up.sibling)
    ensures p.InLeft? && p.up.InLeft? ==>
      InsertInvariant(InLeft(p.up.up, p.item, Black, Node(p.sibling, p.up.item, Red, p.up.sibling)), t)
    ensures p.InRight? && p.up.InRight? ==>
      InsertInvariant(InRight(p.up.up, p.item, Black, Node(p.up.sibling, p.up.item, Red, p.sibling)), t)
  {
    InsertHasGrandparent(p, t);
  }

  /** A red leaf in an empty place of a red-black tree is all that the loop has to repair. */
  lemma InsertStart<T>(p: Path<T>, x: T)
    requires RedBlack(Plug(p, Nil))
    ensures InsertInvariant(p, Node(Nil, x, Red, Nil))
  {
    PlugBalanced(p, Nil);
    PlugColors(p, Nil);
    assert !p.Top? ==> RootRed(p, false) == RootRed(p, true);
  }

  /** Painting the root black ends the insertion. */
  lemma InsertDone<T>(p: Path<T>, t: Tree<T>)
    requires InsertInvariant(p, t) && (p.Top? || p.color.Black?)
    ensures Plug(p, t).Node? && RedBlack(Painted(Plug(p, t), Black))
  {
    PlugBalanced(p, t);
    PlugColors(p, t);
    PlugIsNode(p, t);
  }

  lemma {:induction false} PlugIsNode<T>(p: Path<T>, t: Tree<T>)
    requires t.Node?
    ensures Plug(p, t).Node?
  {
    if !p.Top? { PlugIsNode(p.up, Raise(p, t)); }
  }

  // ----- erasure: taking one element out

  function Append<T>(p: Path<T>, q: Path<T>): Path<T> {
    match q
    case Top => p
    case InLeft(up, x, c, s) => InLeft(Append(p, up), x, c, s)
    case InRight(up, x, c, s) => InRight(Append(p, up), x, c, s)
  }

  lemma {:induction false} PlugAppend<T>(p: Path<T>, q: Path<T>, t: Tree<T>)
    ensures Plug(Append(p, q), t) == Plug(p, Plug(q, t))
  {
    if !q.Top? {
      PlugAppend(p, q.up, Raise(q, t));
      assert Plug(Append(p, q), t) == Plug(Append(p, q.up), Raise(q, t));
    }
  }

  /** The erase invariant looks at colours only, not at which element sits where. */
  lemma {:induction false} SwapItem<T>(p: Path<T>, x: T, y: T, c: Color, l: Tree<T>, q: Path<T>, h: nat, red: bool)
    ensures var a, b := Append(InRight(p, x, c, l), q), Append(InRight(p, y, c, l), q);
      && (PathBalanced(a, h) <==> PathBalanced(b, h))
      && (PathNoRedRed(a, red) <==> PathNoRedRed(b, red))
      && (RootRed(a, red) <==> RootRed(b, red))
  {
    if !q.Top? {
      var a, b := Append(InRight(p, x, c, l), q.up), Append(InRight(p, y, c, l), q.up);
      assert Append(InRight(p, x, c, l), q) == (if q.InLeft? then InLeft(a, q.item, q.color, q.sibling)
                                                else InRight(a, q.item, q.color, q.sibling));
      assert Append(InRight(p, y, c, l), q) == (if q.InLeft? then InLeft(b, q.item, q.color, q.sibling)
                                                else InRight(b, q.item, q.color, q.sibling));
      hide Append, BlackHeight, Balanced, NoRedRed;
      SwapItem(p, x, y, c, l, q.up, h + Blacks(q.color), q.color.Red?);
    }
  }

  lemma {:induction false} PathColorsWeaken<T>(p: Path<T>)
    requires PathNoRedRed(p, true)
    ensures PathNoRedRed(p, false)
  {
  }

  /** Splicing out a node with at most one child either needs nothing more, or leaves the
      fault that the erase loop repairs. */
  lemma SpliceOut<T>(p: Path<T>, t: Tree<T>, rest: Tree<T>)
    requires t.Node? && RedBlack(Plug(p, t))
    requires (t.left.Nil? && rest == t.right) || (t.right.Nil? && rest == t.left)
    ensures t.color.Red? ==>
      Balanced(rest) && NoRedRed(rest) && PathBalanced(p, BlackHeight(rest)) && PathNoRedRed(p, IsRed(rest)) && !RootRed(p, IsRed(rest))
    ensures t.color.Black? ==> EraseInvariant(p, rest)
  {
    PlugBalanced(p, t);
    PlugColors(p, t);
  }

  /** A missing black means that the sibling is there, and so are its children if it is red. */
  lemma EraseHasSibling<T>(p: Path<T>, t: Tree<T>)
    requires EraseInvariant(p, t) && !p.Top? && !IsRed(t)
    ensures p.sibling.Node? && NoRedRed(t) && Blackened(t) == t
    ensures IsRed(p.sibling) ==> p.color.Black? && p.sibling.left.Node? && p.sibling.right.Node?
  {
    assert BlackHeight(p.sibling) == BlackHeight(t) + 1;
  }

  /** The position of the hole after a red sibling has been rotated above it. */
  function RedSiblingPath<T>(p: Path<T>): Path<T>
    requires !p.Top? && p.sibling.Node?
  {
    var w := p.sibling;
    if p.InLeft? then InLeft(InLeft(p.up, w.item, Black, w.right), p.item, Red, w.left)
    else InRight(InRight(p.up, w.item, Black, w.left), p.item, Red, w.right)
  }

  lemma EraseCase1<T>(p: Path<T>, t: Tree<T>)
    requires EraseInvariant(p, t) && !p.Top? && !IsRed(t) && IsRed(p.sibling)
    ensures EraseInvariant(RedSiblingPath(p), t)
    ensures RedSiblingPath(p).sibling.Node? && !IsRed(RedSiblingPath(p).sibling)
  {
    EraseHasSibling(p, t);
    var q, w := RedSiblingPath(p), p.sibling;
    assert BlackHeight(w.left) == BlackHeight(w.right) == BlackHeight(t) + 1;
    assert Balanced(w.left) && Balanced(w.right) && NoRedRed(w.left) && NoRedRed(w.right);
    assert PathBalanced(q.up, BlackHeight(t) + 1) && PathNoRedRed(q.up, true);
    assert !RootRed(q, true) by {
      assert RootRed(q, true) == RootRed(q.up, true) == RootRed(p.up, false);
      assert RootRed(p, true) == RootRed(p.up, false);
    }
  }

  /** Case 2: the sibling turns red and the missing black moves up. */
  lemma EraseCase2<T>(p: Path<T>, t: Tree<T>)
    requires EraseInvariant(p, t) && !p.Top? && !IsRed(t) && p.sibling.Node?
    requires !IsRed(p.sibling) && !IsRed(p.sibling.left) && !IsRed(p.sibling.right)
    ensures var q := if p.InLeft? then InLeft(p.up, p.item, p.color, Painted(p.sibling, Red))
                     else InRight(p.up, p.item, p.color, Painted(p.sibling, Red));
            EraseInvariant(p.up, Raise(q, t))
  {
    EraseHasSibling(p, t);
    var w := Painted(p.sibling, Red);
    assert Balanced(w) && NoRedRed(w) && BlackHeight(w) == BlackHeight(t);
    assert !p.up.Top? ==> RootRed(p, true) == RootRed(p.up, p.color.Red?);
    if p.color.Red? { PathColorsWeaken(p.up); }
  }

  /** The sibling after its red inner child has been rotated to its top. */
  function InnerUp<T>(p: Path<T>): Tree<T>
    requires !p.Top? && p.sibling.Node?
  {
    var w := p.sibling;
    if p.InLeft? && w.left.Node? then Node(w.left.left, w.left.item, Black, Node(w.left.right, w.item, Red, w.right))
    else if p.InRight? && w.right.Node? then Node(Node(w.left, w.item, Red, w.right.left), w.right.item, Black, w.right.right)
    else w
  }

  function Resibling<T>(p: Path<T>, s: Tree<T>): Path<T>
    requires !p.Top?
  {
    if p.InLeft? then InLeft(p.up, p.item, p.color, s) else InRight(p.up, p.item, p.color, s)
  }

  /** Case 3: with the far nephew black, the near one is red and becomes the sibling. */
  lemma EraseCase3<T>(p: Path<T>, t: Tree<T>)
    requires EraseInvariant(p, t) && !p.Top? && !IsRed(t) && p.sibling.Node? && !IsRed(p.sibling)
    requires if p.InLeft? then IsRed(p.sibling.left) && !IsRed(p.sibling.right)
             else IsRed(p.sibling.right) && !IsRed(p.sibling.left)
    ensures EraseInvariant(Resibling(p, InnerUp(p)), t)
  {
    hide Balanced, NoRedRed, BlackHeight, InnerUp;
    InnerUpFits(p);
  }

  /** The near nephew is as good a sibling. */
  lemma InnerUpFits<T>(p: Path<T>)
    requires !p.Top? && p.sibling.Node? && !IsRed(p.sibling) && Balanced(p.sibling) && NoRedRed(p.sibling)
    requires if p.InLeft? then IsRed(p.sibling.left) && !IsRed(p.sibling.right)
             else IsRed(p.sibling.right) && !IsRed(p.sibling.left)
    ensures var s := InnerUp(p);
      s.Node? && !IsRed(s) && Balanced(s) && NoRedRed(s) && BlackHeight(s) == BlackHeight(p.sibling)
  {
  }

  /** The subtree after the last rotation of the erase loop. */
  function Case4<T>(p: Path<T>, t: Tree<T>): Tree<T>
    requires !p.Top? && p.sibling.Node?
  {
    var w := p.sibling;
    if p.InLeft? then Node(Node(t, p.item, Black, w.left), w.item, p.color, Blackened(w.right))
    else Node(Blackened(w.left), w.item, p.color, Node(w.right, p.item, Black, t))
  }

  /** Case 4: with the far nephew red, one rotation repairs the whole tree. */
  lemma EraseCase4<T>(p: Path<T>, t: Tree<T>)
    requires EraseInvariant(p, t) && !p.Top? && !IsRed(t) && p.sibling.Node? && !IsRed(p.sibling)
    requires if p.InLeft? then IsRed(p.sibling.right) else IsRed(p.sibling.left)
    ensures RedBlack(Plug(p.up, Case4(p, t)))
  {
    EraseHasSibling(p, t);
    var w, u := p.sibling, Case4(p, t);
    var far := if p.InLeft? then w.right else w.left;
    assert Balanced(far) && NoRedRed(far) && BlackHeight(far) == BlackHeight(t);
    assert Balanced(Painted(far, Black)) && NoRedRed(Painted(far, Black)) && BlackHeight(Painted(far, Black)) == BlackHeight(t) + 1;
    var near := if p.InLeft? then u.left else u.right;
    assert Balanced(near) && NoRedRed(near) && BlackHeight(near) == BlackHeight(t) + 1;
    assert Balanced(u) && NoRedRed(u) && BlackHeight(u) == BlackHeight(t) + 1 + Blacks(p.color);
    PlugBalanced(p.up, u);
    PlugColors(p.up, u);
    assert RootRed(p, true) == RootRed(p.up, p.color.Red?);
  }

  /** Painting the subtree black ends the erasure. */
  lemma EraseDone<T>(p: Path<T>, t: Tree<T>)
    requires EraseInvariant(p, t) && (p.Top? || IsRed(t))
    ensures RedBlack(Plug(p, Blackened(t)))
  {
    PlugBalanced(p, Blackened(t));
    PlugColors(p, Blackened(t));
    assert !p.Top? ==> RootRed(p, true) == RootRed(p, false);
  }

  function Without<T(==)>(s: seq<T>, x: T): seq<T> {
    if s == [] then [] else if s[0] == x then s[1..] else [s[0]] + Without(s[1..], x)
  }

  lemma {:induction false} WithoutMiddle<T>(a: seq<T>, x: T, b: seq<T>)
    requires x !in a
    ensures Without(a + [x] + b, x) == a + b
  {
    if a == [] {
      assert [] + [x] + b == [x] + b;
    } else {
      WithoutMiddle(a[1..], x, b);
      assert (a + [x] + b)[1..] == a[1..] + [x] + b;
    }
  }

  lemma WithoutUnique<T>(a: seq<T>, x: T, b: seq<T>)
    requires NoDuplicates(a + [x] + b)
    ensures Without(a + [x] + b, x) == a + b
  {
    var s := a + [x] + b;
    forall i | 0 <= i < |a| ensures a[i] != x {
      assert s[i] != s[|a|];
    }
    WithoutMiddle(a, x, b);
  }

  lemma RegroupMiddle<T>(a: seq<T>, b: seq<T>, x: T, c: seq<T>, d: seq<T>)
    ensures a + (b + [x] + c) + d == (a + b) + [x] + (c + d)
    ensures a + (b + c) + d == (a + b) + (c + d)
  {
  }

  lemma {:induction false} WithoutGone<T>(s: seq<T>, x: T)
    requires NoDuplicates(s)
    ensures x !in Without(s, x) && forall y <- Without(s, x) :: y in s
  {
    if s != [] { WithoutGone(s[1..], x); }
  }

  lemma MiddleDistinct<T>(a: seq<T>, x: T, b: seq<T>)
    requires NoDuplicates(a + [x] + b)
    ensures x !in a && x !in b && NoDuplicates(a + b)
  {
    var s := a + [x] + b;
    assert s[|a|] == x;
    forall i | 0 <= i < |a| ensures a[i] != x { assert s[i] == a[i]; }
    forall i | 0 <= i < |b| ensures b[i] != x { assert s[|a| + 1 + i] == b[i]; }
    forall i, j | 0 <= i < j < |a + b| ensures (a + b)[i] != (a + b)[j] {
      assert (a + b)[i] == s[if i < |a| then i else i + 1] && (a + b)[j] == s[if j < |a| then j else j + 1];
    }
  }

  lemma OnlyChild<T>(t: Tree<T>, rest: Tree<T>)
    requires t.Node? && ((t.left.Nil? && rest == t.right) || (t.right.Nil? && rest == t.left))
    ensures Inorder(t) == Inorder(t.left) + [t.item] + Inorder(t.right)
    ensures Inorder(rest) == Inorder(t.left) + Inorder(t.right)
  {
  }

  /** Splicing out a node with at most one child takes its element out of the order. */
  lemma SpliceOrder<T>(p: Path<T>, t: Tree<T>, rest: Tree<T>)
    requires t.Node? && Distinct(Plug(p, t))
    requires (t.left.Nil? && rest == t.right) || (t.right.Nil? && rest == t.left)
    ensures Inorder(Plug(p, rest)) == Without(Inorder(Plug(p, t)), t.item)
  {
    hide *;
    DistinctInorder(Plug(p, t));
    PlugInorder(p, t);
    PlugInorder(p, rest);
    OnlyChild(t, rest);
    RegroupMiddle(Before(p), Inorder(t.left), t.item, Inorder(t.right), After(p));
    WithoutUnique(Before(p) + Inorder(t.left), t.item, Inorder(t.right) + After(p));
  }

  /** Moving the successor of x into x's place takes x out of the order. */
  lemma SuccessorOrder<T>(p: Path<T>, l: Tree<T>, x: T, c: Color, q: Path<T>, u: Tree<T>)
    requires u.Node? && u.left.Nil? && Before(q) == [] && Distinct(Plug(p, Node(l, x, c, Plug(q, u))))
    ensures Inorder(Plug(p, Node(l, u.item, c, Plug(q, u.right)))) == Without(Inorder(Plug(p, Node(l, x, c, Plug(q, u)))), x)
  {
    var r, r' := Plug(q, u), Plug(q, u.right);
    SuccessorFirst(q, u);
    PlugNodeOrder(p, l, x, c, r);
    PlugNodeOrder(p, l, u.item, c, r');
    var a, b, b' := Before(p) + Inorder(l), Inorder(r) + After(p), Inorder(r') + After(p);
    RegroupFirst(a, u.item, Inorder(r'), After(p));
    DistinctInorder(Plug(p, Node(l, x, c, r)));
    WithoutUnique(a, x, b);
  }

  lemma RegroupFirst<T>(a: seq<T>, x: T, b: seq<T>, c: seq<T>)
    ensures a + ([x] + b + c) == a + [x] + (b + c)
  {
  }

  lemma PlugNodeOrder<T>(p: Path<T>, l: Tree<T>, x: T, c: Color, r: Tree<T>)
    ensures Inorder(Plug(p, Node(l, x, c, r))) == (Before(p) + Inorder(l)) + [x] + (Inorder(r) + After(p))
  {
    PlugInorder(p, Node(l, x, c, r));
    RegroupMiddle(Before(p), Inorder(l), x, Inorder(r), After(p));
  }

  lemma SuccessorFirst<T>(q: Path<T>, u: Tree<T>)
    requires u.Node? && u.left.Nil? && Before(q) == []
    ensures Inorder(Plug(q, u)) == [u.item] + Inorder(Plug(q, u.right))
  {
    PlugInorder(q, u);
    PlugInorder(q, u.right);
    assert Inorder(u) == [u.item] + Inorder(u.right);
  }

  /** Moving the successor of x into x's place, in x's colour, costs at most one black, and
      that at the place the successor has left. */
  lemma SuccessorColors<T>(p: Path<T>, l: Tree<T>, x: T, c: Color, q: Path<T>, u: Tree<T>)
    requires u.Node? && u.left.Nil? && RedBlack(Plug(p, Node(l, x, c, Plug(q, u))))
    ensures var q' := Append(InRight(p, u.item, c, l), q);
      && Plug(q', u.right) == Plug(p, Node(l, u.item, c, Plug(q, u.right)))
      && (u.color.Black? ==> EraseInvariant(q', u.right))
      && (u.color.Red? ==> RedBlack(Plug(q', u.right)))
  {
    var old', new' := Append(InRight(p, x, c, l), q), Append(InRight(p, u.item, c, l), q);
    assert Plug(old', u) == Plug(p, Node(l, x, c, Plug(q, u))) by { PlugAppend(InRight(p, x, c, l), q, u); }
    PlugAppend(InRight(p, u.item, c, l), q, u.right);
    hide *;
    SpliceOut(old', u, u.right);
    if u.color.Black? {
      SwapInvariant(p, x, u.item, c, l, q, u.right);
    } else {
      SwapItem(p, x, u.item, c, l, q, BlackHeight(u.right), IsRed(u.right));
      ColorsSound(new', u.right);
    }
  }

  lemma SwapInvariant<T>(p: Path<T>, x: T, y: T, c: Color, l: Tree<T>, q: Path<T>, t: Tree<T>)
    requires EraseInvariant(Append(InRight(p, x, c, l), q), t)
    ensures EraseInvariant(Append(InRight(p, y, c, l), q), t)
  {
    SwapItem(p, x, y, c, l, q, BlackHeight(t) + 1, false);
    SwapItem(p, x, y, c, l, q, BlackHeight(t) + 1, true);
  }

  lemma ColorsSound<T>(p: Path<T>, t: Tree<T>)
    requires Balanced(t) && NoRedRed(t) && PathBalanced(p, BlackHeight(t)) && PathNoRedRed(p, IsRed(t))
    requires !RootRed(p, IsRed(t))
    ensures RedBlack(Plug(p, t))
  {
    PlugBalanced(p, t);
    PlugColors(p, t);
  }
}
