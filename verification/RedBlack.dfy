/**
  Red-black trees as values, shared by the two pointer implementations of the
  library. A `Tree` is the shape, the colours and the nodes of a pointer tree;
  a `Path` is the way from the root to a subtree (a zipper), which is what a
  loop that climbs along parent links has above it.
 */
module RedBlack {

  datatype Tree<N> =
    | Leaf
    | Branch(left: Tree<N>, node: N, red: bool, right: Tree<N>)

  datatype Path<N> =
    | Top
    | InLeft(up: Path<N>, node: N, red: bool, right: Tree<N>)
    | InRight(up: Path<N>, left: Tree<N>, node: N, red: bool)

  // ----- trees -----

  ghost predicate IsRed<N>(t: Tree<N>) {
    t.Branch? && t.red
  }

  function Blacken<N>(t: Tree<N>): Tree<N> {
    if t.Leaf? then t else t.(red := false)
  }

  ghost function Inorder<N>(t: Tree<N>): seq<N> {
    if t.Leaf? then [] else Inorder(t.left) + [t.node] + Inorder(t.right)
  }

  ghost function Nodes<N>(t: Tree<N>): set<N> {
    if t.Leaf? then {} else Nodes(t.left) + {t.node} + Nodes(t.right)
  }

  ghost function BlackHeight<N>(t: Tree<N>): nat {
    if t.Leaf? then 0 else BlackHeight(t.left) + if t.red then 0 else 1
  }

  ghost function Height<N>(t: Tree<N>): nat {
    if t.Leaf? then 0
    else if Height(t.left) < Height(t.right) then Height(t.right) + 1
    else Height(t.left) + 1
  }

  /** Every way down from the root meets the same number of black nodes. */
  ghost predicate Balanced<N>(t: Tree<N>) {
    t.Branch? ==>
      Balanced(t.left) && Balanced(t.right) && BlackHeight(t.left) == BlackHeight(t.right)
  }

  ghost predicate NoRedRed<N>(t: Tree<N>) {
    t.Branch? ==>
      && NoRedRed(t.left) && NoRedRed(t.right)
      && (t.red ==> !IsRed(t.left) && !IsRed(t.right))
  }

  ghost predicate RedBlackTree<N>(t: Tree<N>) {
    !IsRed(t) && NoRedRed(t) && Balanced(t)
  }

  /** No node occurs twice. */
  ghost predicate Distinct<N>(t: Tree<N>) {
    t.Branch? ==>
      && Distinct(t.left) && Distinct(t.right)
      && t.node !in Nodes(t.left) && t.node !in Nodes(t.right)
      && Nodes(t.left) !! Nodes(t.right)
  }

  // ----- paths -----

  /** The whole tree, when `t` hangs at the end of `p`. */
  ghost function Plug<N>(p: Path<N>, t: Tree<N>): Tree<N> {
    match p
    case Top => t
    case InLeft(up, n, c, r) => Plug(up, Branch(t, n, c, r))
    case InRight(up, l, n, c) => Plug(up, Branch(l, n, c, t))
  }

  /** The subtree one step up the path. */
  ghost function Join<N>(p: Path<N>, t: Tree<N>): (s: Tree<N>)
    requires p != Top
    ensures s.Branch?
  {
    match p
    case InLeft(_, n, c, r) => Branch(t, n, c, r)
    case InRight(_, l, n, c) => Branch(l, n, c, t)
  }

  ghost function Sibling<N>(p: Path<N>): Tree<N>
    requires p != Top
  {
    if p.InLeft? then p.right else p.left
  }

  /** The path to the sibling of `t`. */
  ghost function Across<N>(p: Path<N>, t: Tree<N>): Path<N>
    requires p != Top
  {
    match p
    case InLeft(up, n, c, _) => InRight(up, t, n, c)
    case InRight(up, _, n, c) => InLeft(up, n, c, t)
  }

  /** A step up the path, with new colours for its node and the sibling. */
  ghost function JoinPainted<N>(p: Path<N>, t: Tree<N>, red: bool): (s: Tree<N>)
    requires p != Top
    ensures s.Branch?
  {
    match p
    case InLeft(_, n, _, r) => Branch(t, n, red, Blacken(r))
    case InRight(_, l, n, _) => Branch(Blacken(l), n, red, t)
  }

  ghost function RootOf<N>(p: Path<N>): N
    requires p != Top
  {
    if p.up.Top? then p.node else RootOf(p.up)
  }

  lemma {:induction false} PlugRoot<N>(p: Path<N>, t: Tree<N>)
    requires p != Top
    ensures Plug(p, t).Branch? && Plug(p, t).node == RootOf(p) && RootOf(p) in PathNodes(p)
  {
    if p.up != Top {
      PlugRoot(p.up, Join(p, t));
    }
  }

  lemma {:induction false} PlugBranch<N>(p: Path<N>, t: Tree<N>)
    requires t.Branch?
    ensures Plug(p, t).Branch?
  {
    if p != Top {
      PlugRoot(p, t);
    }
  }

  lemma PlugTop<N>(t: Tree<N>)
    ensures Plug(Top, t) == t
  {
  }

  lemma PlugStep<N>(p: Path<N>, t: Tree<N>)
    requires p != Top
    ensures Plug(p, t) == Plug(p.up, Join(p, t)) == Plug(Across(p, t), Sibling(p))
  {
  }

  ghost function Depth<N>(p: Path<N>): nat {
    if p.Top? then 0 else Depth(p.up) + 1
  }

  /** The in-order sequence to the left of the end of the path. */
  ghost function Before<N>(p: Path<N>): seq<N> {
    match p
    case Top => []
    case InLeft(up, _, _, _) => Before(up)
    case InRight(up, l, n, _) => Before(up) + Inorder(l) + [n]
  }

  /** The in-order sequence to the right of the end of the path. */
  ghost function After<N>(p: Path<N>): seq<N> {
    match p
    case Top => []
    case InLeft(up, n, _, r) => [n] + Inorder(r) + After(up)
    case InRight(up, _, _, _) => After(up)
  }

  ghost function PathNodes<N>(p: Path<N>): set<N> {
    match p
    case Top => {}
    case InLeft(up, n, _, r) => PathNodes(up) + {n} + Nodes(r)
    case InRight(up, l, n, _) => PathNodes(up) + {n} + Nodes(l)
  }

  ghost predicate PathDistinct<N>(p: Path<N>) {
    match p
    case Top => true
    case InLeft(up, n, _, r) =>
      && PathDistinct(up) && Distinct(r)
      && n !in PathNodes(up) && n !in Nodes(r) && PathNodes(up) !! Nodes(r)
    case InRight(up, l, n, _) =>
      && PathDistinct(up) && Distinct(l)
      && n !in PathNodes(up) && n !in Nodes(l) && PathNodes(up) !! Nodes(l)
  }

  /** A balanced tree of black height `h` makes the whole balanced. */
  ghost predicate PathBalanced<N>(p: Path<N>, h: nat) {
    match p
    case Top => true
    case InLeft(up, _, c, r) =>
      Balanced(r) && BlackHeight(r) == h && PathBalanced(up, if c then h else h + 1)
    case InRight(up, l, _, c) =>
      Balanced(l) && BlackHeight(l) == h && PathBalanced(up, if c then h else h + 1)
  }

  /** A subtree whose root is red or not, as `red` says, breaks no colour rule. */
  ghost predicate PathNoRedRed<N>(p: Path<N>, red: bool) {
    match p
    case Top => !red
    case InLeft(up, _, c, r) =>
      NoRedRed(r) && (c ==> !red && !IsRed(r)) && PathNoRedRed(up, c)
    case InRight(up, l, _, c) =>
      NoRedRed(l) && (c ==> !red && !IsRed(l)) && PathNoRedRed(up, c)
  }

  lemma Regroup<N>(a: seq<N>, b: seq<N>, c: seq<N>, d: seq<N>, e: seq<N>)
    ensures a + (b + c + d) + e == a + b + (c + d + e) == (a + b + c) + d + e
  {
  }

  lemma {:induction false} PlugInorder<N>(p: Path<N>, t: Tree<N>)
    ensures Inorder(Plug(p, t)) == Before(p) + Inorder(t) + After(p)
  {
    match p
    case Top =>
    case InLeft(up, n, c, r) =>
      PlugInorder(up, Branch(t, n, c, r));
      Regroup(Before(up), Inorder(t), [n], Inorder(r), After(up));
    case InRight(up, l, n, c) =>
      PlugInorder(up, Branch(l, n, c, t));
      Regroup(Before(up), Inorder(l), [n], Inorder(t), After(up));
  }

  lemma {:induction false} PlugNodes<N>(p: Path<N>, t: Tree<N>)
    ensures Nodes(Plug(p, t)) == PathNodes(p) + Nodes(t)
  {
    match p
    case Top =>
    case InLeft(up, n, c, r) => PlugNodes(up, Branch(t, n, c, r));
    case InRight(up, l, n, c) => PlugNodes(up, Branch(l, n, c, t));
  }

  lemma {:induction false} PlugDistinct<N>(p: Path<N>, t: Tree<N>)
    ensures Distinct(Plug(p, t)) <==> Distinct(t) && PathDistinct(p) && Nodes(t) !! PathNodes(p)
  {
    match p
    case Top =>
    case InLeft(up, n, c, r) => PlugDistinct(up, Branch(t, n, c, r));
    case InRight(up, l, n, c) => PlugDistinct(up, Branch(l, n, c, t));
  }

  lemma {:induction false} PlugBalanced<N>(p: Path<N>, t: Tree<N>)
    ensures Balanced(Plug(p, t)) <==> Balanced(t) && PathBalanced(p, BlackHeight(t))
  {
    match p
    case Top =>
    case InLeft(up, n, c, r) => PlugBalanced(up, Branch(t, n, c, r));
    case InRight(up, l, n, c) => PlugBalanced(up, Branch(l, n, c, t));
  }

  lemma {:induction false} PlugNoRedRed<N>(p: Path<N>, t: Tree<N>)
    ensures NoRedRed(Plug(p, t)) && !IsRed(Plug(p, t)) <==> NoRedRed(t) && PathNoRedRed(p, IsRed(t))
  {
    match p
    case Top =>
    case InLeft(up, n, c, r) => PlugNoRedRed(up, Branch(t, n, c, r));
    case InRight(up, l, n, c) => PlugNoRedRed(up, Branch(l, n, c, t));
  }

  /** A tree is red-black exactly when a subtree and the path to it are. */
  lemma {:induction false} PlugRedBlack<N>(p: Path<N>, t: Tree<N>)
    ensures RedBlackTree(Plug(p, t)) <==>
      && NoRedRed(t) && Balanced(t)
      && PathNoRedRed(p, IsRed(t)) && PathBalanced(p, BlackHeight(t))
  {
    PlugBalanced(p, t);
    PlugNoRedRed(p, t);
  }

  lemma {:induction false} NodeIsInorder<N>(t: Tree<N>, n: N)
    ensures n in Nodes(t) <==> n in Inorder(t)
  {
    if t.Branch? {
      NodeIsInorder(t.left, n);
      NodeIsInorder(t.right, n);
    }
  }

  lemma NodesAreInorder<N>(t: Tree<N>)
    ensures forall n :: n in Nodes(t) <==> n in Inorder(t)
  {
    forall n ensures n in Nodes(t) <==> n in Inorder(t) {
      NodeIsInorder(t, n);
    }
  }

  ghost predicate NoDuplicates<N>(s: seq<N>) {
    forall i, j :: 0 <= i < j < |s| ==> s[i] != s[j]
  }

  lemma NoDuplicatesConcat<N>(a: seq<N>, b: seq<N>)
    ensures NoDuplicates(a + b) <==>
      NoDuplicates(a) && NoDuplicates(b) && forall n :: n in a ==> n !in b
  {
    var s := a + b;
    assert forall i :: 0 <= i < |a| ==> s[i] == a[i];
    assert forall i :: 0 <= i < |b| ==> s[|a| + i] == b[i];
    if NoDuplicates(s) {
      forall i, j | 0 <= i < j < |b| ensures b[i] != b[j] {
        assert s[|a| + i] != s[|a| + j];
      }
      forall n | n in a ensures n !in b {
        var i :| 0 <= i < |a| && a[i] == n;
        forall j | 0 <= j < |b| ensures b[j] != n {
          assert s[i] != s[|a| + j];
        }
      }
    }
    if NoDuplicates(a) && NoDuplicates(b) && forall n :: n in a ==> n !in b {
      forall i, j | 0 <= i < j < |s| ensures s[i] != s[j] {
        assert i < |a| ==> s[i] in a;
        assert j >= |a| ==> s[j] in b;
      }
    }
  }

  lemma {:induction false} DistinctInorder<N>(t: Tree<N>)
    ensures Distinct(t) <==> NoDuplicates(Inorder(t))
  {
    if t.Branch? {
      var l, m, r := Inorder(t.left), [t.node], Inorder(t.right);
      DistinctInorder(t.left);
      DistinctInorder(t.right);
      NoDuplicatesConcat(l, m);
      NoDuplicatesConcat(l + m, r);
      ApartInorder(t.left, t.right);
      NodeIsInorder(t.left, t.node);
      NodeIsInorder(t.right, t.node);
      assert forall n :: n in l + m <==> n in l || n == t.node;
    }
  }

  lemma ApartInorder<N>(t: Tree<N>, u: Tree<N>)
    ensures Nodes(t) !! Nodes(u) <==> forall n :: n in Inorder(t) ==> n !in Inorder(u)
  {
    hide Inorder, Nodes;
    if Nodes(t) !! Nodes(u) {
      forall n | n in Inorder(t) ensures n !in Inorder(u) {
        NodeIsInorder(t, n);
        NodeIsInorder(u, n);
      }
    } else {
      var n :| n in Nodes(t) && n in Nodes(u);
      NodeIsInorder(t, n);
      NodeIsInorder(u, n);
    }
  }

  /** The way to a node of the tree, and the subtree it is the root of. */
  lemma {:induction false} Locate<N>(p: Path<N>, t: Tree<N>, n: N) returns (q: Path<N>, s: Tree<N>)
    requires n in Nodes(t)
    ensures s.Branch? && s.node == n && Plug(q, s) == Plug(p, t)
    decreases t
  {
    if n == t.node {
      q, s := p, t;
    } else if n in Nodes(t.left) {
      q, s := Locate(InLeft(p, t.node, t.red, t.right), t.left, n);
    } else {
      q, s := Locate(InRight(p, t.left, t.node, t.red), t.right, n);
    }
  }

  // ----- links -----

  /** What a node of a pointer tree stores. */
  datatype Cell<N> = Cell(left: N, right: N, parent: N, red: bool)

  /** The pointers at the rim: what stands for a leaf, and the root's parent. */
  datatype Rim<N> = Rim(nil: N, outer: N)

  ghost function Ptr<N>(t: Tree<N>, rim: Rim<N>): N {
    if t.Leaf? then rim.nil else t.node
  }

  /** The node whose child link is the end of the path. */
  ghost function Parent<N>(p: Path<N>, rim: Rim<N>): N {
    if p.Top? then rim.outer else p.node
  }

  /** What node `n` stores when `t` hangs from `parent`. */
  ghost function CellOf<N>(t: Tree<N>, parent: N, rim: Rim<N>, n: N): Cell<N>
    requires n in Nodes(t)
  {
    if n == t.node then Cell(Ptr(t.left, rim), Ptr(t.right, rim), parent, t.red)
    else if n in Nodes(t.left) then CellOf(t.left, t.node, rim, n)
    else CellOf(t.right, t.node, rim, n)
  }

  /** What node `n` of the whole tree stores. */
  ghost function Stored<N>(t: Tree<N>, rim: Rim<N>, n: N): Cell<N>
    requires n in Nodes(t)
  {
    CellOf(t, rim.outer, rim, n)
  }

  /** What path node `n` stores when the link at the end of the path holds `hole`. */
  ghost function PathCellOf<N>(p: Path<N>, hole: N, rim: Rim<N>, n: N): Cell<N>
    requires n in PathNodes(p)
  {
    match p
    case InLeft(up, m, c, r) =>
      if n == m then Cell(hole, Ptr(r, rim), Parent(up, rim), c)
      else if n in Nodes(r) then CellOf(r, m, rim, n)
      else PathCellOf(up, m, rim, n)
    case InRight(up, l, m, c) =>
      if n == m then Cell(Ptr(l, rim), hole, Parent(up, rim), c)
      else if n in Nodes(l) then CellOf(l, m, rim, n)
      else PathCellOf(up, m, rim, n)
  }

  lemma {:induction false} PlugCells<N>(p: Path<N>, t: Tree<N>, rim: Rim<N>, n: N)
    requires Distinct(Plug(p, t)) && n in Nodes(Plug(p, t))
    ensures n in Nodes(t) || n in PathNodes(p)
    ensures Stored(Plug(p, t), rim, n) ==
      if n in Nodes(t) then CellOf(t, Parent(p, rim), rim, n) else PathCellOf(p, Ptr(t, rim), rim, n)
  {
    PlugNodes(p, t);
    PlugDistinct(p, t);
    if p != Top {
      PlugCells(p.up, Join(p, t), rim, n);
    }
  }

  // ----- rotations -----

  ghost function RotateLeft<N>(t: Tree<N>): Tree<N>
    requires t.Branch? && t.right.Branch?
  {
    var r := t.right;
    Branch(Branch(t.left, t.node, t.red, r.left), r.node, r.red, r.right)
  }

  ghost function RotateRight<N>(t: Tree<N>): Tree<N>
    requires t.Branch? && t.left.Branch?
  {
    var l := t.left;
    Branch(l.left, l.node, l.red, Branch(l.right, t.node, t.red, t.right))
  }

  lemma RotateLeftInorder<N>(t: Tree<N>)
    requires t.Branch? && t.right.Branch?
    ensures Inorder(RotateLeft(t)) == Inorder(t)
  {
    var r := t.right;
    assert Inorder(t) == Inorder(t.left) + [t.node] + (Inorder(r.left) + [r.node] + Inorder(r.right));
  }

  lemma RotateRightInorder<N>(t: Tree<N>)
    requires t.Branch? && t.left.Branch?
    ensures Inorder(RotateRight(t)) == Inorder(t)
  {
    RotateLeftInorder(RotateRight(t));
  }

  /** The in-order sequence fixes the nodes and whether they are distinct. */
  lemma SameInorder<N>(t: Tree<N>, t': Tree<N>)
    requires Inorder(t) == Inorder(t')
    ensures Nodes(t) == Nodes(t')
    ensures Distinct(t) <==> Distinct(t')
  {
    DistinctInorder(t);
    DistinctInorder(t');
    hide Inorder, Nodes, Distinct;
    forall n | n in Nodes(t) ensures n in Nodes(t') {
      NodeIsInorder(t, n);
      NodeIsInorder(t', n);
    }
    forall n | n in Nodes(t') ensures n in Nodes(t) {
      NodeIsInorder(t, n);
      NodeIsInorder(t', n);
    }
  }

  /** Replacing a subtree by one with the same in-order sequence. */
  lemma PlugSame<N>(p: Path<N>, t: Tree<N>, t': Tree<N>)
    requires Inorder(t) == Inorder(t')
    ensures Inorder(Plug(p, t)) == Inorder(Plug(p, t'))
    ensures Nodes(Plug(p, t)) == Nodes(Plug(p, t')) && Nodes(t) == Nodes(t')
    ensures Distinct(Plug(p, t)) <==> Distinct(Plug(p, t'))
  {
    PlugInorder(p, t);
    PlugInorder(p, t');
    SameInorder(t, t');
    SameInorder(Plug(p, t), Plug(p, t'));
  }

  lemma RotateLeftInside<N>(t: Tree<N>, parent: N, rim: Rim<N>, n: N)
    requires t.Branch? && t.right.Branch? && Distinct(t)
    requires n in Nodes(t) && n in Nodes(RotateLeft(t))
    ensures CellOf(RotateLeft(t), parent, rim, n) ==
      var c := CellOf(t, parent, rim, n);
      if n == t.node then Cell(c.left, Ptr(t.right.left, rim), t.right.node, c.red)
      else if n == t.right.node then Cell(t.node, c.right, parent, c.red)
      else if t.right.left.Branch? && n == t.right.left.node then c.(parent := t.node)
      else c
  {
    var a, b, c, t' := t.left, t.right.left, t.right.right, RotateLeft(t);
    assert Nodes(t.right) == Nodes(b) + {t.right.node} + Nodes(c);
    assert Nodes(t'.left) == Nodes(a) + {t.node} + Nodes(b);
    if n in Nodes(t.right) {
      assert CellOf(t, parent, rim, n) == CellOf(t.right, t.node, rim, n);
      if n in Nodes(b) {
        assert CellOf(t.right, t.node, rim, n) == CellOf(b, t.right.node, rim, n);
        assert CellOf(t', parent, rim, n) == CellOf(t'.left, t'.node, rim, n) == CellOf(b, t.node, rim, n);
      }
    }
  }

  /** The nodes whose links a left rotation changes. */
  lemma RotateLeftApart<N>(t: Tree<N>, parent: N, rim: Rim<N>)
    requires t.Branch? && t.right.Branch? && Distinct(t)
    ensures Distinct(RotateLeft(t)) && Nodes(RotateLeft(t)) == Nodes(t)
    ensures
      var x, y, b := t.node, t.right.node, t.right.left;
      && x != y && x in Nodes(t) && y in Nodes(t)
      && CellOf(t, parent, rim, x) == Cell(Ptr(t.left, rim), y, parent, t.red)
      && CellOf(t, parent, rim, y) == Cell(Ptr(b, rim), Ptr(t.right.right, rim), x, t.right.red)
      && (b.Branch? ==> b.node in Nodes(t) && b.node != x && b.node != y)
  {
    RotateLeftInorder(t);
    SameInorder(t, RotateLeft(t));
    assert t.right.left.Branch? ==> t.right.left.node in Nodes(t.right);
  }

  /** What a left rotation leaves as it was. */
  lemma RotateLeftWhole<N>(p: Path<N>, t: Tree<N>)
    requires t.Branch? && t.right.Branch? && Distinct(t)
    ensures var t' := RotateLeft(t);
      && Distinct(t') && Nodes(t') == Nodes(t)
      && Nodes(Plug(p, t')) == Nodes(Plug(p, t)) && Inorder(Plug(p, t')) == Inorder(Plug(p, t))
  {
    RotateLeftInorder(t);
    SameInorder(t, RotateLeft(t));
    PlugSame(p, t, RotateLeft(t));
  }

  lemma RotateRightWhole<N>(p: Path<N>, t: Tree<N>)
    requires t.Branch? && t.left.Branch? && Distinct(t)
    ensures var t' := RotateRight(t);
      && Distinct(t') && Nodes(t') == Nodes(t)
      && Nodes(Plug(p, t')) == Nodes(Plug(p, t)) && Inorder(Plug(p, t')) == Inorder(Plug(p, t))
  {
    RotateRightInorder(t);
    SameInorder(t, RotateRight(t));
    PlugSame(p, t, RotateRight(t));
  }

  lemma RotateRightInside<N>(t: Tree<N>, parent: N, rim: Rim<N>, n: N)
    requires t.Branch? && t.left.Branch? && Distinct(t)
    requires n in Nodes(t) && n in Nodes(RotateRight(t))
    ensures CellOf(RotateRight(t), parent, rim, n) ==
      var c := CellOf(t, parent, rim, n);
      if n == t.node then Cell(Ptr(t.left.right, rim), c.right, t.left.node, c.red)
      else if n == t.left.node then Cell(c.left, t.node, parent, c.red)
      else if t.left.right.Branch? && n == t.left.right.node then c.(parent := t.node)
      else c
  {
    var a, b, c, t' := t.left.left, t.left.right, t.right, RotateRight(t);
    assert Nodes(t.left) == Nodes(a) + {t.left.node} + Nodes(b);
    assert Nodes(t'.right) == Nodes(b) + {t.node} + Nodes(c);
    if n in Nodes(t.left) {
      assert CellOf(t, parent, rim, n) == CellOf(t.left, t.node, rim, n);
      if n in Nodes(b) {
        assert CellOf(t.left, t.node, rim, n) == CellOf(b, t.left.node, rim, n);
        assert CellOf(t', parent, rim, n) == CellOf(t'.right, t'.node, rim, n) == CellOf(b, t.node, rim, n);
      }
    }
  }

  lemma RotateRightApart<N>(t: Tree<N>, parent: N, rim: Rim<N>)
    requires t.Branch? && t.left.Branch? && Distinct(t)
    ensures Distinct(RotateRight(t)) && Nodes(RotateRight(t)) == Nodes(t)
    ensures
      var x, y, b := t.node, t.left.node, t.left.right;
      && x != y && x in Nodes(t) && y in Nodes(t)
      && CellOf(t, parent, rim, x) == Cell(y, Ptr(t.right, rim), parent, t.red)
      && CellOf(t, parent, rim, y) == Cell(Ptr(t.left.left, rim), Ptr(b, rim), x, t.left.red)
      && (b.Branch? ==> b.node in Nodes(t) && b.node != x && b.node != y)
  {
    RotateRightInorder(t);
    SameInorder(t, RotateRight(t));
    assert t.left.right.Branch? ==> t.left.right.node in Nodes(t.left);
  }

  /** Recolouring the root of a subtree. */
  lemma PaintInside<N>(t: Tree<N>, red: bool, parent: N, rim: Rim<N>)
    requires t.Branch?
    ensures Inorder(t.(red := red)) == Inorder(t) && Nodes(t.(red := red)) == Nodes(t)
    ensures Distinct(t.(red := red)) <==> Distinct(t)
    ensures t.node in Nodes(t)
    ensures forall n :: n in Nodes(t) ==>
      var c := CellOf(t, parent, rim, n);
      CellOf(t.(red := red), parent, rim, n) == if n == t.node then c.(red := red) else c
  {
  }

  // ----- restoring the colours after an insertion -----

  /** The only possible fault: `t` is red under a red parent, or at the root. */
  ghost predicate InsertPending<N>(p: Path<N>, t: Tree<N>) {
    && IsRed(t) && NoRedRed(t) && Balanced(t)
    && PathBalanced(p, BlackHeight(t)) && PathNoRedRed(p, false)
  }

  lemma InsertDone<N>(p: Path<N>, t: Tree<N>)
    requires InsertPending(p, t)
    requires p.Top? || !p.red
    ensures Plug(p, t).Branch? && RedBlackTree(Blacken(Plug(p, t)))
    ensures p != Top ==> RedBlackTree(Plug(p, t))
  {
    if p != Top {
      PlugRedBlack(p, t);
      PlugRoot(p, t);
    }
  }

  /** A red parent is not the root. */
  lemma InsertGrandparent<N>(p: Path<N>, t: Tree<N>)
    requires InsertPending(p, t)
    requires p != Top && p.red
    ensures p.up != Top && !p.up.red
  {
    assert PathNoRedRed(p.up, true);
  }

  /** Parent and uncle red: recolouring moves the fault two steps up. */
  lemma InsertRecoloured<N>(p: Path<N>, t: Tree<N>)
    requires InsertPending(p, t) && p != Top && p.red
    requires p.up != Top && IsRed(Sibling(p.up))
    ensures InsertPending(p.up.up, JoinPainted(p.up, Blacken(Join(p, t)), true))
  {
    var s, u := Blacken(Join(p, t)), Sibling(p.up);
    assert PathNoRedRed(p.up, true) && PathBalanced(p.up, BlackHeight(t));
    assert NoRedRed(s) && Balanced(s) && BlackHeight(s) == BlackHeight(t) + 1;
    assert NoRedRed(Blacken(u)) && Balanced(Blacken(u)) && BlackHeight(Blacken(u)) == BlackHeight(t) + 1;
  }

  /** Parent red, uncle black, all three on the left: one rotation ends it. */
  lemma InsertRotatedRight<N>(up: Path<N>, t: Tree<N>, par: N, sib: Tree<N>, g: N, u: Tree<N>)
    requires InsertPending(InLeft(InLeft(up, g, false, u), par, true, sib), t) && !IsRed(u)
    ensures InsertPending(InLeft(up, par, false, Branch(sib, g, true, u)), t)
  {
    assert PathNoRedRed(InLeft(up, g, false, u), true);
    assert PathBalanced(InLeft(up, g, false, u), BlackHeight(t));
  }

  lemma InsertRotatedLeft<N>(up: Path<N>, t: Tree<N>, par: N, sib: Tree<N>, g: N, u: Tree<N>)
    requires InsertPending(InRight(InRight(up, u, g, false), sib, par, true), t) && !IsRed(u)
    ensures InsertPending(InRight(up, Branch(u, g, true, sib), par, false), t)
  {
    assert PathNoRedRed(InRight(up, u, g, false), true);
    assert PathBalanced(InRight(up, u, g, false), BlackHeight(t));
  }

  /** An inner grandchild becomes an outer one. */
  lemma InsertTurnedLeft<N>(up: Path<N>, l: Tree<N>, par: N, t: Tree<N>)
    requires InsertPending(InRight(up, l, par, true), t)
    ensures InsertPending(InLeft(up, t.node, true, t.right), Branch(l, par, true, t.left))
  {
  }

  lemma InsertTurnedRight<N>(up: Path<N>, t: Tree<N>, par: N, r: Tree<N>)
    requires InsertPending(InLeft(up, par, true, r), t)
    ensures InsertPending(InRight(up, t.left, t.node, true), Branch(t.right, par, true, r))
  {
  }

  /** With a black uncle: the parent `t.node` takes the place of the grandparent. */
  ghost function Lifted<N>(q: Path<N>, t: Tree<N>): Tree<N>
    requires q != Top && t.Branch?
  {
    match q
    case InLeft(_, g, _, u) => Branch(t.left, t.node, false, Branch(t.right, g, true, u))
    case InRight(_, u, g, _) => Branch(Branch(u, g, true, t.left), t.node, false, t.right)
  }

  /** The tree at the end of `q`, with the inner grandchild turned outwards if `inner`. */
  ghost function Uncoiled<N>(q: Path<N>, t: Tree<N>, inner: bool): Tree<N>
    requires q != Top && t.Branch? && (inner ==> if q.InLeft? then t.right.Branch? else t.left.Branch?)
  {
    if !inner then t else if q.InLeft? then RotateLeft(t) else RotateRight(t)
  }

  /** One round of the repair: the fault moves two levels up, or is gone after one rotation or two. */
  lemma {:induction false} InsertRound<N>(p: Path<N>, t: Tree<N>) returns (p': Path<N>, t': Tree<N>)
    requires InsertPending(p, t) && p != Top && p.red
    ensures p.up != Top && !p.up.red
    ensures InsertPending(p', t') && Depth(p') < Depth(p)
    ensures IsRed(Sibling(p.up)) ==> p' == p.up.up && t' == JoinPainted(p.up, Blacken(Join(p, t)), true)
    ensures !IsRed(Sibling(p.up)) ==>
      var inner := p.InLeft? != p.up.InLeft?;
      && p' != Top && !p'.red && t'.node == (if inner then p.node else t.node)
      && Plug(p', t') == Plug(p.up.up, Lifted(p.up, Uncoiled(p.up, Join(p, t), inner)))
  {
    hide NoRedRed, PathNoRedRed, Balanced, PathBalanced, BlackHeight;
    InsertGrandparent(p, t);
    var q, s, f := p.up, Join(p, t), t;
    if IsRed(Sibling(q)) {
      InsertRecoloured(p, t);
      p', t' := q.up, JoinPainted(q, Blacken(s), true);
    } else if q.InLeft? {
      if p.InRight? {
        InsertTurnedLeft(q, p.left, p.node, t);
        s := RotateLeft(s);
        f := s.left;
      }
      InsertRotatedRight(q.up, f, s.node, s.right, q.node, q.right);
      p', t' := InLeft(q.up, s.node, false, Branch(s.right, q.node, true, q.right)), f;
    } else {
      if p.InLeft? {
        InsertTurnedRight(q, t, p.node, p.right);
        s := RotateRight(s);
        f := s.right;
      }
      InsertRotatedLeft(q.up, f, s.node, s.left, q.node, q.left);
      p', t' := InRight(q.up, Branch(q.left, q.node, true, s.left), s.node, false), f;
    }
  }

  /** The repair climbs to the root by recolouring alone: up from the end of the path,
      every second node is black and has two red children. */
  ghost predicate ReachesRoot<N>(p: Path<N>) {
    p.Top? || (p.red && p.up != Top && IsRed(Sibling(p.up)) && ReachesRoot(p.up.up))
  }

  /** The tree that the repair leads to from a red `t` at `p`. */
  ghost function InsertFixed<N>(p: Path<N>, t: Tree<N>): Tree<N>
    requires t.Branch?
    decreases p
  {
    if p.Top? || !p.red || p.up.Top? then Blacken(Plug(p, t))
    else if IsRed(Sibling(p.up)) then InsertFixed(p.up.up, JoinPainted(p.up, Blacken(Join(p, t)), true))
    else Blacken(Plug(p.up.up, Lifted(p.up, Uncoiled(p.up, Join(p, t), p.InLeft? != p.up.InLeft?))))
  }

  lemma FixedRound<N>(p: Path<N>, t: Tree<N>, p': Path<N>, t': Tree<N>)
    requires t.Branch? && t'.Branch? && p != Top && p.red && p.up != Top && !IsRed(Sibling(p.up)) ==>
      && p' != Top && !p'.red
      && Plug(p', t') == Plug(p.up.up, Lifted(p.up, Uncoiled(p.up, Join(p, t), p.InLeft? != p.up.InLeft?)))
    requires t.Branch? && t'.Branch? && p != Top && p.red && p.up != Top
    ensures !IsRed(Sibling(p.up)) ==> InsertFixed(p', t') == InsertFixed(p, t)
    ensures IsRed(Sibling(p.up)) ==>
      InsertFixed(p.up.up, JoinPainted(p.up, Blacken(Join(p, t)), true)) == InsertFixed(p, t)
  {
  }

  lemma BlackStops<N>(p: Path<N>)
    ensures p != Top && !p.red ==> !ReachesRoot(p)
  {
  }

  lemma ClimbEnds<N>(p: Path<N>, t: Tree<N>)
    requires InsertPending(p, t) && (p.Top? || !p.red)
    ensures RedBlackTree(Blacken(Plug(p, t))) && Plug(p, t).Branch? && t.red
    ensures InsertFixed(p, t) == Blacken(Plug(p, t))
    ensures p != Top ==> !ReachesRoot(p)
  {
    InsertDone(p, t);
  }

  // What follows when the loop goes on above the root, because the root's parent link refers to
  // a red node of the tree.

  ghost predicate NotBothRed<N>(t: Tree<N>) {
    t.Branch? ==> !IsRed(t.left) || !IsRed(t.right)
  }

  /** A climb has just reached `t`: both children are black, and neither has two red children. */
  ghost predicate Calm<N>(t: Tree<N>) {
    && t.Branch? && t.left.Branch? && t.right.Branch? && !t.left.red && !t.right.red
    && NotBothRed(t.left) && NotBothRed(t.right)
  }

  lemma CalmRound<N>(p: Path<N>, t: Tree<N>)
    requires InsertPending(p, t) && p != Top && p.red && p.up != Top && IsRed(Sibling(p.up))
    ensures Calm(JoinPainted(p.up, Blacken(Join(p, t)), true))
  {
    assert PathNoRedRed(p.up, true);
  }

  /** A place with a red sibling: when the fault moves up from there, it does not get to the root,
      because the root has no two red children. */
  lemma {:induction false} StopsAbove<N>(r: Path<N>, s: Tree<N>)
    requires r != Top && IsRed(s) && IsRed(Sibling(r)) && NotBothRed(Plug(r, s))
    ensures !ReachesRoot(r.up)
  {
    PlugStep(r, s);
    if r.up == Top {
      PlugTop(Join(r, s));
    } else if r.up.red && r.up.up != Top && IsRed(Sibling(r.up.up)) {
      PlugStep(r.up, Join(r, s));
      StopsAbove(r.up.up, Join(r.up, Join(r, s)));
    }
  }

  /** The first step of a path, and the rest of it. */
  lemma {:induction false} FirstStep<N>(q: Path<N>) returns (r: Path<N>, o: Path<N>)
    requires q != Top
    ensures q == Over(r, o) && o != Top && o.up == Top && o.node == RootOf(q)
  {
    if q.up == Top {
      r, o := Top, q;
    } else {
      r, o := FirstStep(q.up);
      r := match q
        case InLeft(_, n, c, t) => InLeft(r, n, c, t)
        case InRight(_, t, n, c) => InRight(r, t, n, c);
    }
  }

  lemma OverSame<N>(p: Path<N>, o: Path<N>, t: Tree<N>)
    ensures Over(Top, o) == o
    ensures p != Top ==>
      && Over(p, o) != Top && Over(p, o).up == Over(p.up, o) && Over(p, o).red == p.red && Over(p, o).node == p.node
      && (Over(p, o).InLeft? <==> p.InLeft?) && Sibling(Over(p, o)) == Sibling(p)
      && Join(Over(p, o), t) == Join(p, t) && JoinPainted(Over(p, o), t, true) == JoinPainted(p, t, true)
    ensures p != Top && t.Branch? ==> Lifted(Over(p, o), t) == Lifted(p, t)
  {
  }

  lemma {:induction false} OverNone<N>(p: Path<N>)
    ensures Over(p, Top) == p
  {
    if p != Top {
      OverNone(p.up);
    }
  }

  /** Beside the first step of the way there is no fault; below it all ways are `h` black nodes long. */
  ghost predicate Beside<N>(o: Path<N>, h: nat) {
    o == Top || (o.up == Top && !IsRed(Sibling(o)) && NoRedRed(Sibling(o)) && PathBalanced(o, h))
  }

  /** The usual fault, in the whole tree or in a subtree of the root; in the subtree it will not
      get to the top. */
  ghost predicate Climbing<N>(o: Path<N>, p: Path<N>, t: Tree<N>) {
    && InsertPending(p, t) && Beside(o, BlackHeight(Plug(p, t)))
    && (o != Top ==> p != Top && !ReachesRoot(p))
  }

  lemma {:induction false} SameHeight<N>(p: Path<N>, t: Tree<N>, t': Tree<N>)
    requires BlackHeight(t) == BlackHeight(t')
    ensures BlackHeight(Plug(p, t)) == BlackHeight(Plug(p, t'))
  {
    if p != Top {
      SameHeight(p.up, Join(p, t), Join(p, t'));
    }
  }

  /** A round as it is at the end of a longer path. */
  lemma {:induction false} ClimbRound<N>(o: Path<N>, p: Path<N>, t: Tree<N>) returns (p': Path<N>, t': Tree<N>)
    requires Climbing(o, p, t) && p != Top && p.red
    ensures p.up != Top && Climbing(o, p', t') && t'.Branch? && Depth(p') < Depth(p)
    ensures IsRed(Sibling(p.up)) ==>
      && p' == p.up.up && t' == JoinPainted(p.up, Blacken(Join(p, t)), true)
      && Calm(t') && (ReachesRoot(p') <==> ReachesRoot(p))
    ensures !IsRed(Sibling(p.up)) ==>
      var inner := p.InLeft? != p.up.InLeft?;
      && p' != Top && !p'.red && t'.node == (if inner then p.node else t.node) && !ReachesRoot(p)
      && Plug(p', t') == Plug(p.up.up, Lifted(p.up, Uncoiled(p.up, Join(p, t), inner)))
    ensures InsertFixed(p', t') == InsertFixed(p, t)
  {
    hide NoRedRed, PathNoRedRed, Balanced, PathBalanced, BlackHeight, Lifted, Calm, InsertFixed;
    p', t' := InsertRound(p, t);
    FixedRound(p, t, p', t');
    var s := Join(p.up, Join(p, t));
    PlugStep(p, t);
    PlugStep(p.up, Join(p, t));
    if IsRed(Sibling(p.up)) {
      assert p'.Top? ==> ReachesRoot(p');
      CalmRound(p, t);
      PaintedHeight(p, t);
      SameHeight(p.up.up, s, t');
    } else {
      BlackStops(p');
      LiftedHeight(p, t);
      SameHeight(p.up.up, s, Lifted(p.up, Uncoiled(p.up, Join(p, t), p.InLeft? != p.up.InLeft?)));
    }
  }

  lemma PaintedHeight<N>(p: Path<N>, t: Tree<N>)
    requires InsertPending(p, t) && p != Top && p.red && p.up != Top && !p.up.red && IsRed(Sibling(p.up))
    ensures BlackHeight(JoinPainted(p.up, Blacken(Join(p, t)), true)) == BlackHeight(Join(p.up, Join(p, t)))
  {
  }

  lemma LiftedHeight<N>(p: Path<N>, t: Tree<N>)
    requires InsertPending(p, t) && p != Top && p.red && p.up != Top && !p.up.red
    ensures var s := Uncoiled(p.up, Join(p, t), p.InLeft? != p.up.InLeft?);
      BlackHeight(Lifted(p.up, s)) == BlackHeight(Join(p.up, Join(p, t)))
  {
  }

  lemma ClimbStarts<N>(p: Path<N>, t: Tree<N>)
    requires InsertPending(p, t)
    ensures Climbing(Top, p, t) && Over(p, Top) == p
  {
    OverNone(p);
  }

  lemma TopIs<N>(o: Path<N>, t: Tree<N>)
    requires Climbing(o, Top, t)
    ensures o == Top && InsertPending(Top, t) && Plug(Over(Top, o), t) == t && ReachesRoot<N>(Top)
  {
  }

  /** A climb that has ended below a black parent. */
  lemma ClimbDone<N>(o: Path<N>, p: Path<N>, t: Tree<N>)
    requires Climbing(o, p, t) && (p.Top? || !p.red)
    ensures var s := Plug(Over(p, o), t); t.red && s.Branch? && RedBlackTree(Blacken(s))
    ensures o == Top ==> InsertFixed(p, t) == Blacken(Plug(Over(p, o), t)) && (p != Top ==> !ReachesRoot(p))
  {
    PlugOver(p, o, t);
    InsertDone(p, t);
    OverNone(p);
  }

  /** The climb has reached the root of `t`, and the link above it refers to the red node of `s`.
      With a black sibling there, one rotation ends it; with a red one, the fault moves up from
      there, without getting to the root again. */
  lemma {:induction false} SecondClimb<N>(t: Tree<N>, q: Path<N>, s: Tree<N>) returns (r: Path<N>, o: Path<N>)
    requires InsertPending(Top, t) && Calm(t) && t == Plug(q, s) && q != Top && IsRed(s)
    ensures q == Over(r, o) && o != Top && o.up == Top && r != Top && q.up == Over(r.up, o)
    ensures !IsRed(Sibling(q)) ==>
      Plug(q.up, Lifted(q, s)).Branch? && RedBlackTree(Blacken(Plug(q.up, Lifted(q, s))))
    ensures IsRed(Sibling(q)) ==>
      && JoinPainted(q, Blacken(s), true) == JoinPainted(r, Blacken(s), true)
      && Climbing(o, r.up, JoinPainted(r, Blacken(s), true))
  {
    hide NoRedRed, PathNoRedRed, Balanced, PathBalanced, BlackHeight, InsertPending, InsertFixed, ReachesRoot;
    r, o := FirstStep(q);
    PlugOver(r, o, s);
    OverSame(r, o, s);
    OverSame(r, o, Blacken(s));
    var u := Plug(r, s);
    assert t == Join(o, u) by { PlugStep(o, u); PlugTop(Join(o, u)); }
    SubtreeOfRoot(o, u);
    assert r != Top;
    PlugRedBlack(r, s);
    BlackParent(r, s);
    if IsRed(Sibling(q)) {
      StopsAbove(r, s);
      MovesUp(o, r, s);
    } else {
      LiftedEnds(o, r, s);
      PlugOver(r.up, o, Lifted(r, s));
    }
  }

  /** A subtree of a red root. */
  lemma SubtreeOfRoot<N>(o: Path<N>, u: Tree<N>)
    requires o != Top && o.up == Top && InsertPending(Top, Join(o, u)) && Calm(Join(o, u))
    ensures RedBlackTree(u) && NotBothRed(u) && u.Branch? && Beside(o, BlackHeight(u))
  {
  }

  lemma BlackParent<N>(r: Path<N>, s: Tree<N>)
    requires r != Top && IsRed(s) && PathNoRedRed(r, IsRed(s)) && PathBalanced(r, BlackHeight(s))
    ensures !r.red && PathNoRedRed(r.up, false) && NoRedRed(Sibling(r))
    ensures PathBalanced(r.up, BlackHeight(s) + 1) && Balanced(Sibling(r)) && BlackHeight(Sibling(r)) == BlackHeight(s)
  {
  }

  lemma MovesUp<N>(o: Path<N>, r: Path<N>, s: Tree<N>)
    requires RedBlackTree(Plug(r, s)) && Beside(o, BlackHeight(Plug(r, s))) && o != Top
    requires r != Top && !r.red && IsRed(s) && IsRed(Sibling(r)) && !ReachesRoot(r.up)
    ensures Climbing(o, r.up, JoinPainted(r, Blacken(s), true))
  {
    PlugRedBlack(r, s);
    BlackParent(r, s);
    SameHeight(r.up, Join(r, s), JoinPainted(r, Blacken(s), true));
  }

  lemma LiftedFits<N>(r: Path<N>, s: Tree<N>)
    requires r != Top && IsRed(s) && !IsRed(Sibling(r)) && NoRedRed(s) && Balanced(s)
    requires NoRedRed(Sibling(r)) && Balanced(Sibling(r)) && BlackHeight(Sibling(r)) == BlackHeight(s)
    ensures var s' := Lifted(r, s); NoRedRed(s') && Balanced(s') && !IsRed(s') && BlackHeight(s') == BlackHeight(s) + 1
  {
  }

  lemma WholeOf<N>(o: Path<N>, u: Tree<N>)
    requires o != Top && Beside(o, BlackHeight(u)) && RedBlackTree(u)
    ensures Plug(o, u).Branch? && RedBlackTree(Blacken(Plug(o, u)))
  {
    PlugStep(o, u);
    PlugTop(Join(o, u));
  }

  lemma LiftedEnds<N>(o: Path<N>, r: Path<N>, s: Tree<N>)
    requires RedBlackTree(Plug(r, s)) && Beside(o, BlackHeight(Plug(r, s))) && o != Top
    requires r != Top && !r.red && IsRed(s) && !IsRed(Sibling(r))
    ensures var t := Plug(o, Plug(r.up, Lifted(r, s))); t.Branch? && RedBlackTree(Blacken(t))
  {
    var s' := Lifted(r, s);
    PlugRedBlack(r, s);
    BlackParent(r, s);
    LiftedFits(r, s);
    PlugRedBlack(r.up, s');
    SameHeight(r.up, Join(r, s), s');
    PlugStep(r, s);
    PlugBranch(r.up, s');
    WholeOf(o, Plug(r.up, s'));
  }

  /** The step that follows when the link above the root refers to the root itself. */
  lemma TippedRoot<N>(t: Tree<N>)
    requires InsertPending(Top, t) && t.left.Branch? && t.right.Branch?
    ensures !Balanced(RotateLeft(t)) && !IsRed(RotateLeft(t))
  {
  }

  // ----- restoring the colours after a deletion -----

  /** `t` is one black node short; it may also be red under a red parent. */
  ghost predicate DeletePending<N>(p: Path<N>, t: Tree<N>) {
    && NoRedRed(Blacken(t)) && Balanced(t)
    && PathBalanced(p, BlackHeight(t) + 1) && PathNoRedRed(p, false)
  }

  lemma DeleteDone<N>(p: Path<N>, t: Tree<N>)
    requires DeletePending(p, t)
    requires p.Top? || IsRed(t)
    ensures RedBlackTree(Plug(p, Blacken(t)))
  {
    PlugRedBlack(p, Blacken(t));
  }

  // ----- height -----

  function Power2(n: nat): (p: nat)
    ensures p >= 1
  {
    if n == 0 then 1 else 2 * Power2(n - 1)
  }

  /** The balance a red-black tree is kept for: 2^bh - 1 nodes at least, and at
      most two levels for each black node on the way down. */
  lemma {:induction false} HeightBound<N>(t: Tree<N>)
    requires NoRedRed(t) && Balanced(t)
    ensures Power2(BlackHeight(t)) <= |Inorder(t)| + 1
    ensures Height(t) <= 2 * BlackHeight(t) + if IsRed(t) then 1 else 0
  {
    if t.Branch? {
      HeightBound(t.left);
      HeightBound(t.right);
    }
  }

  lemma BlackFits<N>(p: Path<N>, red: bool)
    requires PathNoRedRed(p, red)
    ensures PathNoRedRed(p, false)
  {
  }

  /** What is one black node short has a real sibling. */
  lemma DeleteSibling<N>(p: Path<N>, t: Tree<N>)
    requires DeletePending(p, t) && p != Top
    ensures Sibling(p).Branch? && NoRedRed(Sibling(p)) && Balanced(Sibling(p))
    ensures IsRed(Sibling(p)) ==> !p.red && Sibling(p).left.Branch? && Sibling(p).right.Branch?
  {
    assert BlackHeight(Sibling(p)) == BlackHeight(t) + 1;
  }

  /** A red sibling is rotated away. */
  lemma DeleteRotatedLeft<N>(up: Path<N>, t: Tree<N>, par: N, c: bool, w: Tree<N>)
    requires DeletePending(InLeft(up, par, c, w), t) && IsRed(w)
    ensures DeletePending(InLeft(InLeft(up, w.node, false, w.right), par, true, w.left), t)
    ensures !IsRed(w.left)
  {
    assert NoRedRed(w.left) && NoRedRed(w.right) && Balanced(w.left) && Balanced(w.right);
    assert PathNoRedRed(InLeft(up, w.node, false, w.right), true);
    assert PathBalanced(InLeft(up, w.node, false, w.right), BlackHeight(t) + 1);
  }

  lemma DeleteRotatedRight<N>(up: Path<N>, t: Tree<N>, par: N, c: bool, w: Tree<N>)
    requires DeletePending(InRight(up, w, par, c), t) && IsRed(w)
    ensures DeletePending(InRight(InRight(up, w.left, w.node, false), w.right, par, true), t)
    ensures !IsRed(w.right)
  {
    assert NoRedRed(w.left) && NoRedRed(w.right) && Balanced(w.left) && Balanced(w.right);
    assert PathNoRedRed(InRight(up, w.left, w.node, false), true);
    assert PathBalanced(InRight(up, w.left, w.node, false), BlackHeight(t) + 1);
  }

  /** A black sibling with black children is reddened: the fault moves up. */
  lemma DeleteRecoloured<N>(p: Path<N>, t: Tree<N>)
    requires DeletePending(p, t) && p != Top && !IsRed(t)
    requires Sibling(p).Branch? && !IsRed(Sibling(p))
    requires !IsRed(Sibling(p).left) && !IsRed(Sibling(p).right)
    ensures DeletePending(p.up, JoinWith(p, t, Sibling(p).(red := true)))
    ensures IsRed(JoinWith(p, t, Sibling(p).(red := true))) <==> p.red
  {
    var w := Sibling(p);
    BlackFits(p.up, p.red);
    assert Blacken(t) == t;
    assert NoRedRed(w) && Balanced(w) && BlackHeight(w) == BlackHeight(t) + 1;
    assert NoRedRed(w.(red := true)) && Balanced(w.(red := true));
    assert BlackHeight(w.(red := true)) == BlackHeight(t);
  }

  ghost function JoinWith<N>(p: Path<N>, t: Tree<N>, sibling: Tree<N>): Tree<N>
    requires p != Top
  {
    match p
    case InLeft(_, n, c, _) => Branch(t, n, c, sibling)
    case InRight(_, _, n, c) => Branch(sibling, n, c, t)
  }

  /** The far child of the sibling is made red. */
  lemma DeleteTurnedRight<N>(up: Path<N>, t: Tree<N>, par: N, c: bool, w: Tree<N>)
    requires DeletePending(InLeft(up, par, c, w), t)
    requires w.Branch? && !w.red && IsRed(w.left) && !IsRed(w.right)
    ensures DeletePending(InLeft(up, par, c, RotateRight(Branch(Blacken(w.left), w.node, true, w.right))), t)
  {
    var l, r := w.left, w.right;
    assert NoRedRed(l) && NoRedRed(r) && Balanced(l) && Balanced(r);
    assert BlackHeight(l) == BlackHeight(r) == BlackHeight(t);
    assert NoRedRed(Branch(l.right, w.node, true, r)) && Balanced(Branch(l.right, w.node, true, r));
  }

  lemma DeleteTurnedLeft<N>(up: Path<N>, t: Tree<N>, par: N, c: bool, w: Tree<N>)
    requires DeletePending(InRight(up, w, par, c), t)
    requires w.Branch? && !w.red && IsRed(w.right) && !IsRed(w.left)
    ensures DeletePending(InRight(up, RotateLeft(Branch(w.left, w.node, true, Blacken(w.right))), par, c), t)
  {
    var l, r := w.left, w.right;
    assert NoRedRed(l) && NoRedRed(r) && Balanced(l) && Balanced(r);
    assert BlackHeight(l) == BlackHeight(r) == BlackHeight(t);
    assert NoRedRed(Branch(l, w.node, true, r.left)) && Balanced(Branch(l, w.node, true, r.left));
  }

  /** With a red far child one rotation makes up for the missing black node. */
  lemma DeleteLiftedLeft<N>(up: Path<N>, t: Tree<N>, par: N, c: bool, w: Tree<N>)
    requires DeletePending(InLeft(up, par, c, w), t) && !IsRed(t)
    requires w.Branch? && !w.red && IsRed(w.right)
    ensures RedBlackTree(Plug(up, Branch(Branch(t, par, false, w.left), w.node, c, Blacken(w.right))))
  {
    assert NoRedRed(w.left) && NoRedRed(w.right) && Balanced(w.left) && Balanced(w.right);
    assert Blacken(t) == t;
    assert Balanced(Branch(t, par, false, w.left)) && NoRedRed(Branch(t, par, false, w.left));
    assert Balanced(Blacken(w.right)) && NoRedRed(Blacken(w.right));
    PlugRedBlack(up, Branch(Branch(t, par, false, w.left), w.node, c, Blacken(w.right)));
  }

  lemma DeleteLiftedRight<N>(up: Path<N>, t: Tree<N>, par: N, c: bool, w: Tree<N>)
    requires DeletePending(InRight(up, w, par, c), t) && !IsRed(t)
    requires w.Branch? && !w.red && IsRed(w.left)
    ensures RedBlackTree(Plug(up, Branch(Blacken(w.left), w.node, c, Branch(w.right, par, false, t))))
  {
    assert NoRedRed(w.left) && NoRedRed(w.right) && Balanced(w.left) && Balanced(w.right);
    assert Blacken(t) == t;
    assert Balanced(Branch(w.right, par, false, t)) && NoRedRed(Branch(w.right, par, false, t));
    assert Balanced(Blacken(w.left)) && NoRedRed(Blacken(w.left));
    PlugRedBlack(up, Branch(Blacken(w.left), w.node, c, Branch(w.right, par, false, t)));
  }

  /** A red-black tree is pending at its root. */
  lemma DeleteAtRoot<N>(t: Tree<N>)
    requires RedBlackTree(t)
    ensures DeletePending(Top, t)
  {
  }

  // ----- taking a node out -----

  /** What is left of a subtree with at most one child below its root. */
  ghost function Rest<N>(t: Tree<N>): Tree<N>
    requires t.Branch?
  {
    if t.left.Leaf? then t.right else t.left
  }

  /** Path `q` continued above by `outer`. */
  ghost function Over<N>(q: Path<N>, outer: Path<N>): Path<N> {
    match q
    case Top => outer
    case InLeft(up, n, c, r) => InLeft(Over(up, outer), n, c, r)
    case InRight(up, l, n, c) => InRight(Over(up, outer), l, n, c)
  }

  lemma {:induction false} PlugOver<N>(q: Path<N>, outer: Path<N>, t: Tree<N>)
    ensures Plug(Over(q, outer), t) == Plug(outer, Plug(q, t))
  {
    if q != Top {
      PlugOver(q.up, outer, Join(q, t));
    }
  }

  /** A path that only goes left leads to the first node. */
  ghost predicate LeftSpine<N>(q: Path<N>) {
    q.Top? || (q.InLeft? && LeftSpine(q.up))
  }

  lemma {:induction false} SpineInorder<N>(q: Path<N>, t: Tree<N>)
    requires LeftSpine(q)
    ensures Before(q) == []
    ensures Inorder(Plug(q, t)) == Inorder(t) + After(q)
  {
    PlugInorder(q, t);
    if q != Top {
      SpineInorder(q.up, Join(q, t));
    }
  }

  ghost function Without<N>(s: seq<N>, n: N): seq<N> {
    if s == [] then [] else if s[0] == n then s[1..] else [s[0]] + Without(s[1..], n)
  }

  lemma WithoutFirst<N>(s: seq<N>, n: N)
    requires s != [] && s[0] == n
    ensures Without(s, n) == s[1..]
  {
  }

  lemma {:induction false} WithoutMiddle<N>(a: seq<N>, n: N, b: seq<N>)
    requires n !in a
    ensures Without(a + [n] + b, n) == a + b
  {
    if a == [] {
      assert a + [n] + b == [n] + b && a + b == b;
      WithoutFirst([n] + b, n);
    } else {
      hide Without;
      Prepended(a, n, b);
      WithoutRest(a[0], a[1..] + [n] + b, n);
      WithoutMiddle(a[1..], n, b);
    }
  }

  lemma WithoutRest<N>(m: N, s: seq<N>, n: N)
    requires m != n
    ensures Without([m] + s, n) == [m] + Without(s, n)
  {
    assert ([m] + s)[1..] == s;
  }

  /** The first of some elements, and the others, before `n` and `b`. */
  lemma Prepended<N>(a: seq<N>, n: N, b: seq<N>)
    requires a != []
    ensures a + [n] + b == [a[0]] + (a[1..] + [n] + b)
    ensures a + b == [a[0]] + (a[1..] + b)
    ensures forall m :: m in a[1..] ==> m in a
  {
    assert a == [a[0]] + a[1..];
  }

  /** Taking out a node with at most one child. */
  lemma SpliceInorder<N>(p: Path<N>, t: Tree<N>)
    requires t.Branch? && (t.left.Leaf? || t.right.Leaf?) && Distinct(Plug(p, t))
    ensures Inorder(Plug(p, Rest(t))) == Without(Inorder(Plug(p, t)), t.node)
  {
    PlugInorder(p, t);
    PlugInorder(p, Rest(t));
    DistinctInorder(Plug(p, t));
    SpliceSequence(Before(p), Inorder(t.left), t.node, Inorder(t.right), After(p));
  }

  lemma SpliceSequence<N>(a: seq<N>, l: seq<N>, n: N, r: seq<N>, b: seq<N>)
    requires NoDuplicates(a + (l + [n] + r) + b) && (l == [] || r == [])
    ensures a + (if l == [] then r else l) + b == Without(a + (l + [n] + r) + b, n)
  {
    var c, d := a + l, r + b;
    assert a + (l + [n] + r) + b == c + [n] + d;
    assert a + (if l == [] then r else l) + b == c + d;
    NoDuplicatesConcat(c + [n], d);
    NoDuplicatesConcat(c, [n]);
    WithoutMiddle(c, n, d);
  }

  lemma SpliceNodes<N>(p: Path<N>, t: Tree<N>)
    requires t.Branch? && (t.left.Leaf? || t.right.Leaf?) && Distinct(Plug(p, t))
    ensures Distinct(Plug(p, Rest(t)))
    ensures Nodes(Rest(t)) == Nodes(t) - {t.node} && t.node !in PathNodes(p)
    ensures Nodes(Plug(p, Rest(t))) == Nodes(Plug(p, t)) - {t.node}
  {
    PlugDistinct(p, t);
    PlugDistinct(p, Rest(t));
    PlugNodes(p, t);
    PlugNodes(p, Rest(t));
  }

  /** A red node with at most one child has none, and can go. */
  lemma SpliceRed<N>(p: Path<N>, t: Tree<N>)
    requires RedBlackTree(Plug(p, t)) && IsRed(t) && (t.left.Leaf? || t.right.Leaf?)
    ensures RedBlackTree(Plug(p, Rest(t)))
  {
    PlugRedBlack(p, t);
    BlackFits(p, true);
    assert BlackHeight(t.left) == BlackHeight(t.right) == 0;
    PlugRedBlack(p, Rest(t));
  }

  /** A root with at most one child has at most one node below it. */
  lemma FewNodes<N>(t: Tree<N>)
    requires Balanced(t) && NoRedRed(t) && t.Branch? && (t.left.Leaf? || t.right.Leaf?)
    ensures |Inorder(Rest(t))| <= 1 && |Inorder(t)| <= 2 && |Inorder(Blacken(Rest(t)))| <= 1
  {
    var r := Rest(t);
    if r.Branch? {
      assert BlackHeight(r) == 0 && r.red;
      assert BlackHeight(r.left) == 0 && BlackHeight(r.right) == 0;
      assert r.left.Leaf? && r.right.Leaf?;
    }
  }

  /** Taking out a black node leaves its place one black node short. */
  lemma SpliceBlack<N>(p: Path<N>, t: Tree<N>)
    requires RedBlackTree(Plug(p, t)) && t.Branch? && !t.red && (t.left.Leaf? || t.right.Leaf?)
    ensures DeletePending(p, Rest(t))
    ensures RedBlackTree(Blacken(Rest(t)))
  {
    PlugRedBlack(p, t);
    assert BlackHeight(t.left) == BlackHeight(t.right) == 0;
    assert NoRedRed(t.left) && NoRedRed(t.right) && Balanced(t.left) && Balanced(t.right);
  }

  /** Only the root of a subtree stores what the subtree hangs from. */
  lemma Reparent<N>(t: Tree<N>, a: N, b: N, rim: Rim<N>, n: N)
    requires n in Nodes(t)
    ensures CellOf(t, b, rim, n) ==
      var c := CellOf(t, a, rim, n);
      if n == t.node then c.(parent := b) else c
  {
  }

  lemma SpliceInside<N>(t: Tree<N>, a: N, b: N, rim: Rim<N>, n: N)
    requires t.Branch? && (t.left.Leaf? || t.right.Leaf?) && Distinct(t)
    requires n in Nodes(Rest(t))
    ensures n in Nodes(t) && n != t.node
    ensures CellOf(Rest(t), b, rim, n) ==
      var c := CellOf(t, a, rim, n);
      if n == Rest(t).node then c.(parent := b) else c
  {
    Reparent(Rest(t), t.node, b, rim, n);
  }

  lemma BranchApart<N>(t: Tree<N>, parent: N, rim: Rim<N>)
    requires t.Branch? && Distinct(t)
    ensures Nodes(t.left) <= Nodes(t) && Nodes(t.right) <= Nodes(t) && t.node in Nodes(t)
    ensures Nodes(t.left) !! Nodes(t.right) && t.node !in Nodes(t.left) && t.node !in Nodes(t.right)
    ensures t.left.Branch? ==> t.left.node in Nodes(t.left)
    ensures t.right.Branch? ==> t.right.node in Nodes(t.right)
    ensures CellOf(t, parent, rim, t.node) == Cell(Ptr(t.left, rim), Ptr(t.right, rim), parent, t.red)
    ensures forall n :: n in Nodes(t.left) ==> CellOf(t, parent, rim, n) == CellOf(t.left, t.node, rim, n)
    ensures forall n :: n in Nodes(t.right) ==> CellOf(t, parent, rim, n) == CellOf(t.right, t.node, rim, n)
    ensures forall n :: n in Nodes(t) ==> n == t.node || n in Nodes(t.left) || n in Nodes(t.right)
  {
  }

  /** The parts of a tree share no node. */
  lemma BranchParts<N>(t: Tree<N>)
    requires t.Branch? && Distinct(t)
    ensures Nodes(t.left) !! Nodes(t.right) && t.node !in Nodes(t.left) && t.node !in Nodes(t.right)
    ensures t.node in Nodes(t) && Nodes(t.left) <= Nodes(t) && Nodes(t.right) <= Nodes(t)
  {
  }

  lemma RootIsNode<N>(t: Tree<N>)
    requires t.Branch?
    ensures t.node in Nodes(t)
  {
  }

  lemma LastIsNode<N>(p: Path<N>)
    requires p != Top
    ensures p.node in PathNodes(p)
  {
  }

  lemma SubstituteLocal<N>(t: Tree<N>, q: Path<N>, s: Tree<N>)
    requires Distinct(t) && t.Branch? && t.right == Plug(q, s)
    requires s.Branch? && s.left.Leaf?
    ensures var t' := Branch(t.left, s.node, t.red, Plug(q, s.right));
      s.node != t.node && s.node in Nodes(t) && Distinct(t') && Nodes(t') == Nodes(t) - {t.node}
    ensures Nodes(t.left) <= Nodes(t) && Nodes(Plug(q, s.right)) == Nodes(t.right) - {s.node} && Nodes(t.right) <= Nodes(t)
  {
    hide Plug;
    SpliceNodes(q, s);
    PlugNodes(q, s);
    assert s.node in Nodes(s);
  }

  /** The first node of the right subtree takes the place of the root. */
  lemma SubstituteNodes<N>(p: Path<N>, t: Tree<N>, q: Path<N>, s: Tree<N>)
    requires Distinct(Plug(p, t)) && t.Branch? && t.right == Plug(q, s)
    requires s.Branch? && s.left.Leaf?
    ensures var t' := Branch(t.left, s.node, t.red, Plug(q, s.right));
      && t.node in Nodes(t) && Distinct(t) && t.node !in PathNodes(p) && PathDistinct(p)
      && PathNodes(p) !! Nodes(t')
      && Distinct(Plug(p, t')) && Nodes(Plug(p, t')) == Nodes(Plug(p, t)) - {t.node}
  {
    hide Plug, Nodes, PathNodes, Distinct, PathDistinct;
    var t' := Branch(t.left, s.node, t.red, Plug(q, s.right));
    RootIsNode(t);
    PlugDistinct(p, t);
    SubstituteLocal(t, q, s);
    PlugDistinct(p, t');
    PlugNodes(p, t);
    PlugNodes(p, t');
  }

  lemma InorderParts<N>(t: Tree<N>)
    requires t.Branch?
    ensures Inorder(t) == Inorder(t.left) + [t.node] + Inorder(t.right)
  {
  }

  lemma SpineFirst<N>(q: Path<N>, s: Tree<N>)
    requires s.Branch? && s.left.Leaf? && LeftSpine(q)
    ensures Inorder(Plug(q, s)) == [s.node] + Inorder(Plug(q, s.right))
  {
    SpineInorder(q, s);
    SpineInorder(q, s.right);
  }

  lemma SubstituteInorder<N>(p: Path<N>, t: Tree<N>, q: Path<N>, s: Tree<N>)
    requires Distinct(Plug(p, t)) && t.Branch? && t.right == Plug(q, s)
    requires s.Branch? && s.left.Leaf? && LeftSpine(q)
    ensures Inorder(Plug(p, Branch(t.left, s.node, t.red, Plug(q, s.right)))) == Without(Inorder(Plug(p, t)), t.node)
  {
    hide Plug, Distinct, Without, NoDuplicates, Before, After, Inorder;
    var t' := Branch(t.left, s.node, t.red, Plug(q, s.right));
    PlugInorder(p, t);
    PlugInorder(p, t');
    DistinctInorder(Plug(p, t));
    SpineFirst(q, s);
    InorderParts(t);
    InorderParts(t');
    SubstituteSequence(Before(p), Inorder(t.left), t.node, s.node, Inorder(t'.right), After(p));
  }

  lemma SubstituteSequence<N>(a: seq<N>, l: seq<N>, n: N, m: N, r: seq<N>, b: seq<N>)
    requires NoDuplicates(a + (l + [n] + ([m] + r)) + b)
    ensures a + (l + [m] + r) + b == Without(a + (l + [n] + ([m] + r)) + b, n)
  {
    var c, d := a + l, [m] + r + b;
    assert a + (l + [n] + ([m] + r)) + b == c + [n] + d;
    assert a + (l + [m] + r) + b == c + d;
    NoDuplicatesConcat(c + [n], d);
    NoDuplicatesConcat(c, [n]);
    WithoutMiddle(c, n, d);
  }

  /** The colour rules do not look at the nodes. */
  lemma {:induction false} SubstituteColours<N>(q: Path<N>, up: Path<N>, l: Tree<N>, n: N, m: N, red: bool, h: nat, c: bool)
    ensures PathBalanced(Over(q, InRight(up, l, n, red)), h) <==> PathBalanced(Over(q, InRight(up, l, m, red)), h)
    ensures PathNoRedRed(Over(q, InRight(up, l, n, red)), c) <==> PathNoRedRed(Over(q, InRight(up, l, m, red)), c)
  {
    if q != Top {
      SubstituteColours(q.up, up, l, n, m, red, if q.red then h else h + 1, q.red);
    }
  }

  /** After the substitution the place of `s` is as it was before. */
  lemma SubstituteRedBlack<N>(p: Path<N>, t: Tree<N>, q: Path<N>, s: Tree<N>)
    requires RedBlackTree(Plug(p, t)) && t.Branch? && t.right == Plug(q, s)
    requires s.Branch? && s.left.Leaf?
    ensures var p' := Over(q, InRight(p, t.left, s.node, t.red));
      && Plug(p', s.right) == Plug(p, Branch(t.left, s.node, t.red, Plug(q, s.right)))
      && if s.red then RedBlackTree(Plug(p', s.right)) else DeletePending(p', s.right)
  {
    var p0 := Over(q, InRight(p, t.left, t.node, t.red));
    var p' := Over(q, InRight(p, t.left, s.node, t.red));
    PlugOver(q, InRight(p, t.left, t.node, t.red), s);
    PlugOver(q, InRight(p, t.left, s.node, t.red), s.right);
    assert Plug(p0, s) == Plug(p, t);
    if s.red {
      SpliceRed(p0, s);
      PlugRedBlack(p0, s.right);
      SubstituteColours(q, p, t.left, t.node, s.node, t.red, BlackHeight(s.right), IsRed(s.right));
      PlugRedBlack(p', s.right);
    } else {
      SpliceBlack(p0, s);
      SubstituteColours(q, p, t.left, t.node, s.node, t.red, BlackHeight(s.right) + 1, false);
    }
  }

  /** The root's parent link is no business of the nodes below. */
  lemma {:induction false} CellRim<N>(t: Tree<N>, parent: N, rim: Rim<N>, outer: N, n: N)
    requires n in Nodes(t)
    ensures CellOf(t, parent, Rim(rim.nil, outer), n) == CellOf(t, parent, rim, n)
  {
    if n in Nodes(t.left) {
      CellRim(t.left, t.node, rim, outer, n);
    } else if n in Nodes(t.right) {
      CellRim(t.right, t.node, rim, outer, n);
    }
  }

  /** The node at the end of a path, and what lies beside it. */
  lemma PathApart<N>(p: Path<N>, hole: N, rim: Rim<N>)
    requires p.InRight? && PathDistinct(p)
    ensures p.node in PathNodes(p) && PathNodes(p.up) <= PathNodes(p) && Nodes(p.left) <= PathNodes(p)
    ensures PathCellOf(p, hole, rim, p.node) == Cell(Ptr(p.left, rim), hole, Parent(p.up, rim), p.red)
    ensures forall n :: n in PathNodes(p.up) ==> PathCellOf(p, hole, rim, n) == PathCellOf(p.up, p.node, rim, n)
    ensures forall n :: n in Nodes(p.left) ==> PathCellOf(p, hole, rim, n) == CellOf(p.left, p.node, rim, n)
  {
  }

  lemma RemoveHereApart<N>(p: Path<N>, t: Tree<N>)
    requires t.Branch? && (t.left.Leaf? || t.right.Leaf?) && Distinct(Plug(p, t))
    ensures Distinct(Rest(t)) && PathDistinct(p) && PathNodes(p) !! Nodes(Rest(t))
    ensures Nodes(Plug(p, Rest(t))) == Nodes(Plug(p, t)) - {t.node} && (p != Top ==> p.node != t.node)
    ensures t.node in Nodes(Plug(p, t)) && t.node !in PathNodes(p) && t.node !in Nodes(Rest(t))
  {
    SpliceNodes(p, t);
    PlugDistinct(p, Rest(t));
    PlugNodes(p, t);
    if p != Top {
      LastIsNode(p);
    }
  }

  lemma {:induction false} OverLast<N>(q: Path<N>, outer: Path<N>)
    ensures q != Top ==> Over(q, outer) != Top && Over(q, outer).node == q.node
    ensures PathNodes(Over(q, outer)) == PathNodes(q) + PathNodes(outer)
  {
    if q != Top {
      OverLast(q.up, outer);
    }
  }

  /** Where the first node of the right subtree hangs from. */
  lemma UnlinkMinApart<N>(p: Path<N>, t: Tree<N>, q: Path<N>, s: Tree<N>)
    requires Distinct(Plug(p, t)) && t.Branch? && t.right == Plug(q, s)
    requires s.Branch? && s.left.Leaf?
    ensures var outer := InRight(p, t.left, t.node, t.red);
      && Plug(Over(q, outer), s) == Plug(p, t) && Over(q, outer) != Top
      && Plug(outer, Plug(q, s.right)) == Plug(Over(q, outer), s.right)
      && Over(q, outer).node == (if q.Top? then t.node else q.node)
      && (q != Top ==> q.node != t.node)
      && Distinct(Rest(s)) && PathDistinct(Over(q, outer)) && PathNodes(Over(q, outer)) !! Nodes(Rest(s))
      && Nodes(Plug(Over(q, outer), s.right)) == Nodes(Plug(p, t)) - {s.node}
      && s.node in Nodes(Plug(p, t)) && s.node != t.node
  {
    hide Plug, Nodes, PathNodes, Distinct, PathDistinct, Over;
    var outer := InRight(p, t.left, t.node, t.red);
    PlugStep(outer, t.right);
    PlugStep(outer, Plug(q, s.right));
    PlugOver(q, outer, s);
    PlugOver(q, outer, s.right);
    OverLast(q, outer);
    assert Over(Top, outer) == outer by { OverTop(outer); }
    RemoveHereApart(Over(q, outer), s);
    PlugDistinct(p, t);
    SubstituteLocal(t, q, s);
    UnderRight(t, q, s);
  }

  lemma OverTop<N>(outer: Path<N>)
    ensures Over(Top, outer) == outer
  {
  }

  lemma UnderRight<N>(t: Tree<N>, q: Path<N>, s: Tree<N>)
    requires Distinct(t) && t.Branch? && t.right == Plug(q, s)
    ensures q != Top ==> q.node != t.node
  {
    PlugNodes(q, s);
    if q != Top {
      LastIsNode(q);
    }
  }

  lemma RemoveInnerApart<N>(p: Path<N>, t: Tree<N>, q: Path<N>, s: Tree<N>)
    requires Distinct(Plug(p, t)) && t.Branch? && t.right == Plug(q, s)
    requires s.Branch? && s.left.Leaf?
    ensures var outer, r, all := InRight(p, t.left, t.node, t.red), Plug(q, s.right), Nodes(Plug(p, t));
      var t' := Branch(t.left, s.node, t.red, r);
      && PathDistinct(outer) && PathNodes(outer) <= all && PathNodes(p) <= all
      && Nodes(t.left) <= all && Nodes(r) <= all && Nodes(t') <= all
      && s.node != t.node && s.node in all && t.node in all
      && PathDistinct(p) && Distinct(t') && PathNodes(p) !! Nodes(t')
      && t.node !in PathNodes(p) && t.node !in Nodes(t')
      && Nodes(Plug(p, t')) == all - {t.node}
  {
    SubstituteNodes(p, t, q, s);
    SubstituteLocal(t, q, s);
    OuterApart(p, t);
    PlugNodes(p, t);
  }

  lemma OuterApart<N>(p: Path<N>, t: Tree<N>)
    requires Distinct(Plug(p, t)) && t.Branch?
    ensures PathDistinct(InRight(p, t.left, t.node, t.red))
    ensures PathNodes(InRight(p, t.left, t.node, t.red)) <= Nodes(Plug(p, t))
    ensures Nodes(t.right) <= Nodes(Plug(p, t))
  {
    PlugDistinct(p, t);
    PlugNodes(p, t);
  }

  // ----- order -----

  /** Taking an element out leaves the others in their order. */
  lemma {:induction false} WithoutAt<N>(s: seq<N>, n: N) returns (i: nat)
    requires n in s
    ensures i < |s| && s[i] == n && Without(s, n) == s[..i] + s[i + 1..]
  {
    if s[0] == n {
      i := 0;
    } else {
      var j := WithoutAt(s[1..], n);
      i := j + 1;
      assert s[1..][..j] == s[1..i] && s[1..][j + 1..] == s[i + 1..];
    }
  }

  lemma {:induction false} WithoutNone<N>(s: seq<N>, n: N)
    requires n !in s
    ensures Without(s, n) == s
  {
    if s != [] {
      WithoutNone(s[1..], n);
    }
  }

  lemma AttachApart<N>(p: Path<N>, node: N, parent: N, rim: Rim<N>)
    requires Distinct(Plug(p, Leaf)) && node !in Nodes(Plug(p, Leaf))
    ensures var t := Branch(Leaf, node, true, Leaf);
      && Distinct(t) && PathNodes(p) !! Nodes(t) && node !in PathNodes(p)
      && Nodes(Plug(p, t)) == Nodes(Plug(p, Leaf)) + {node}
      && (forall n :: n in Nodes(t) ==> n == node && CellOf(t, parent, rim, n) == Cell(rim.nil, rim.nil, parent, true))
  {
    var t := Branch(Leaf, node, true, Leaf);
    PlugNodes(p, t);
    PlugNodes(p, Leaf);
    assert Nodes(t) == {node};
  }

  /** What changes when the first node of a subtree, below its root, is taken out. */
  lemma UnlinkInside<N>(q: Path<N>, s: Tree<N>, above: N, rim: Rim<N>)
    requires Distinct(Plug(q, s)) && q.InLeft? && s.Branch? && s.left.Leaf?
    ensures q.node in Nodes(Plug(q, s)) && q.node != s.node
    ensures s.right.Branch? ==> s.right.node in Nodes(Plug(q, s)) && s.right.node != s.node && s.right.node != q.node
    ensures Nodes(Plug(q, s.right)) == Nodes(Plug(q, s)) - {s.node}
    ensures forall n :: n in Nodes(Plug(q, s.right)) ==>
      && n in Nodes(Plug(q, s))
      && CellOf(Plug(q, s.right), above, rim, n) ==
        var c := CellOf(Plug(q, s), above, rim, n);
        if n == q.node then c.(left := Ptr(s.right, rim))
        else if s.right.Branch? && n == s.right.node then c.(parent := q.node)
        else c
  {
    hide Plug, Distinct;
    PlugNodes(q, s);
    PlugNodes(q, s.right);
    PlugDistinct(q, s);
    PlugDistinct(q, s.right);
    SpliceNodes(q, s);
    LastIsNode(q);
    forall n | n in Nodes(Plug(q, s.right))
      ensures n in Nodes(Plug(q, s))
      ensures CellOf(Plug(q, s.right), above, rim, n) ==
        var c := CellOf(Plug(q, s), above, rim, n);
        if n == q.node then c.(left := Ptr(s.right, rim))
        else if s.right.Branch? && n == s.right.node then c.(parent := q.node)
        else c
    {
      UnlinkCell(q, s, above, rim, n);
    }
  }

  lemma UnlinkCell<N>(q: Path<N>, s: Tree<N>, above: N, rim: Rim<N>, n: N)
    requires Distinct(Plug(q, s)) && q.InLeft? && s.Branch? && s.left.Leaf? && Distinct(Plug(q, s.right))
    requires n in Nodes(Plug(q, s)) && n in Nodes(Plug(q, s.right))
    ensures CellOf(Plug(q, s.right), above, rim, n) ==
        var c := CellOf(Plug(q, s), above, rim, n);
        if n == q.node then c.(left := Ptr(s.right, rim))
        else if s.right.Branch? && n == s.right.node then c.(parent := q.node)
        else c
  {
    hide Plug;
    var rim' := Rim(rim.nil, above);
    CellRim(Plug(q, s), above, rim, above, n);
    CellRim(Plug(q, s.right), above, rim, above, n);
    PlugCells(q, s, rim', n);
    PlugCells(q, s.right, rim', n);
    PlugDistinct(q, s);
    PlugDistinct(q, s.right);
    if n in Nodes(s.right) {
      SpliceInside(s, q.node, q.node, rim', n);
    }
  }

  /** Where the first node of the right subtree is, and what it stores. */
  lemma SucceedApart<N>(t: Tree<N>, q: Path<N>, s: Tree<N>, rim: Rim<N>)
    requires Distinct(t) && t.Branch? && t.right == Plug(q, s) && s.Branch? && s.left.Leaf? && LeftSpine(q)
    ensures q.Top? || q.InLeft?
    ensures var t' := Branch(t.left, s.node, t.red, Plug(q, s.right));
      && Distinct(t') && s.node != t.node && s.node in Nodes(t.right)
      && Nodes(t'.right) == Nodes(t.right) - {s.node} && Distinct(t.right)
    ensures CellOf(t.right, t.node, rim, s.node) == Cell(rim.nil, Ptr(s.right, rim), if q.Top? then t.node else q.node, s.red)
    ensures q != Top ==> q.node in Nodes(t.right) && Ptr(t.right, rim) == Ptr(Plug(q, s.right), rim)
  {
    hide Plug, Distinct;
    if q != Top {
      PlugRoot(q, s);
      PlugRoot(q, s.right);
    }
    SubstituteLocal(t, q, s);
    PlugNodes(q, s);
    SucceedCell(t, q, s, rim);
  }

  lemma SucceedCell<N>(t: Tree<N>, q: Path<N>, s: Tree<N>, rim: Rim<N>)
    requires Distinct(t) && t.Branch? && t.right == Plug(q, s) && s.Branch? && s.left.Leaf?
    ensures s.node in Nodes(t.right) && Distinct(t.right)
    ensures CellOf(t.right, t.node, rim, s.node) == Cell(rim.nil, Ptr(s.right, rim), if q.Top? then t.node else q.node, s.red)
    ensures q != Top ==> q.node in Nodes(t.right)
  {
    hide Plug;
    PlugNodes(q, s);
    CellRim(t.right, t.node, rim, t.node, s.node);
    PlugCells(q, s, Rim(rim.nil, t.node), s.node);
  }
}
