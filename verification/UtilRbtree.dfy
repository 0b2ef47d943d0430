/**
  The pointer red-black tree of the consistent hash: parent links, one shared
  sentinel in place of every leaf, and fixups that climb by parent links.
 */
module UtilRbtree {
  import opened RedBlack

  const RED := 0
  const BLACK := 1
  const UINT_RANGE := 0x1_0000_0000

  class Node {
    const key: int
    const data: object?
    var parent: Node?
    var right: Node?
    var left: Node?
    var color: int

    constructor (key: int, data: object?)
      ensures this.key == key && this.data == data
    {
      this.key := key;
      this.data := data;
    }
  }

  ghost function Color(red: bool): int {
    if red then RED else BLACK
  }

  /** Node `n` stores the cell `c`. */
  ghost predicate Holds(n: Node, c: Cell<Node>)
    reads n
  {
    n.left == c.left && n.right == c.right && n.parent == c.parent && n.color == Color(c.red)
  }

  /** The heap holds `t`, hanging from `parent`. */
  ghost predicate Fits(t: Tree<Node>, parent: Node, rim: Rim<Node>)
    reads Nodes(t)
  {
    forall n :: n in Nodes(t) ==> Holds(n, CellOf(t, parent, rim, n))
  }

  /** The heap holds the path `p`, whose last link holds `hole`. */
  ghost predicate FitsPath(p: Path<Node>, hole: Node, rim: Rim<Node>)
    reads PathNodes(p)
  {
    forall n :: n in PathNodes(p) ==> Holds(n, PathCellOf(p, hole, rim, n))
  }

  class RbTree {
    var root: Node
    const nil: Node
    var size: int

    ghost var nodes: set<Node>
    ghost var shape: Tree<Node>
    /** The sentinel, and what the root's parent link refers to: the sentinel or a removed node. */
    ghost var rim: Rim<Node>

    constructor ()
      ensures Shaped() && shape == Leaf && size == 0
      ensures nil.color == BLACK && rim.outer == nil
      ensures fresh(nil)
    {
      var sentinel := new Node(0, null);
      nil := sentinel;
      root := sentinel;
      size := 0;
      nodes, shape, rim := {}, Leaf, Rim(sentinel, sentinel);
      new;
      nil.color := BLACK;
    }

    /** The heap holds the tree `shape`. */
    ghost predicate Shaped()
      reads this`root, this`nodes, this`shape, this`rim, nodes
    {
      && nodes == Nodes(shape) && Distinct(shape)
      && rim.nil == nil && nil !in nodes
      && root == Ptr(shape, rim)
      && Fits(shape, rim.outer, rim)
    }

    /** The tree taken apart where `t` hangs from `p`. */
    lemma Unzip(p: Path<Node>, t: Tree<Node>)
      requires Shaped() && shape == Plug(p, t)
      ensures Fits(t, Parent(p, rim), rim) && FitsPath(p, Ptr(t, rim), rim)
      ensures PathNodes(p) <= nodes && Nodes(t) <= nodes && PathNodes(p) !! Nodes(t)
      ensures Distinct(t) && PathDistinct(p)
      ensures root == if p.Top? then Ptr(t, rim) else RootOf(p)
      ensures p != Top ==> RootOf(p) in PathNodes(p) && p.node in PathNodes(p)
    {
      PlugNodes(p, t);
      PlugDistinct(p, t);
      if p != Top {
        PlugRoot(p, t);
      }
      forall n | n in Nodes(t) ensures Holds(n, CellOf(t, Parent(p, rim), rim, n)) {
        PlugCells(p, t, rim, n);
      }
      forall n | n in PathNodes(p) ensures Holds(n, PathCellOf(p, Ptr(t, rim), rim, n)) {
        PlugCells(p, t, rim, n);
      }
    }

    lemma Zip(p: Path<Node>, t: Tree<Node>)
      requires shape == Plug(p, t) && nodes == Nodes(shape)
      requires Fits(t, Parent(p, rim), rim) && FitsPath(p, Ptr(t, rim), rim)
      requires PathNodes(p) !! Nodes(t) && Distinct(t) && PathDistinct(p)
      requires root == if p.Top? then Ptr(t, rim) else RootOf(p)
      requires rim.nil == nil && nil !in nodes
      ensures Shaped()
    {
      PlugNodes(p, t);
      PlugDistinct(p, t);
      if p != Top {
        PlugRoot(p, t);
      }
      forall n | n in Nodes(shape) ensures Holds(n, CellOf(shape, rim.outer, rim, n)) {
        PlugCells(p, t, rim, n);
      }
    }

    /** Makes the child link at the end of `p` refer to `subst` instead of `node`. */
    method RelinkChild(node: Node, subst: Node, ghost p: Path<Node>)
      requires FitsPath(p, node, rim) && PathDistinct(p) && node !in PathNodes(p) && node != rim.nil
      requires p != Top && node.parent == p.node
      modifies p.node`left, p.node`right
      ensures FitsPath(p, subst, rim)
    {
      if node.parent.left == node {
        node.parent.left := subst;
      } else {
        node.parent.right := subst;
      }
    }

    /** The same where `node` may also be the root. */
    method Relink(node: Node, subst: Node, ghost p: Path<Node>)
      requires FitsPath(p, node, rim) && PathDistinct(p) && node !in PathNodes(p) && node != rim.nil
      requires node.parent == Parent(p, rim)
      requires root == if p.Top? then node else RootOf(p)
      modifies this`root, (if p.Top? then {} else {p.node})`left, (if p.Top? then {} else {p.node})`right
      ensures FitsPath(p, subst, rim)
      ensures root == if p.Top? then subst else RootOf(p)
    {
      if p != Top {
        PlugRoot(p, Leaf);
      }
      if node == root {
        root := subst;
      } else {
        RelinkChild(node, subst, p);
      }
    }

    /** The part of a left rotation that stays inside the subtree. */
    method TurnLeft(node: Node, rc: Node, ghost t: Tree<Node>, ghost parent: Node)
      requires Fits(t, parent, rim) && Distinct(t) && rim.nil == nil && nil !in Nodes(t)
      requires t.Branch? && t.node == node && t.right.Branch? && t.right.node == rc
      modifies Nodes(t)
      ensures Fits(RedBlack.RotateLeft(t), parent, rim)
    {
      hide CellOf, PathCellOf, Nodes, PathNodes, Plug, Distinct, PathDistinct, Inorder;
      RotateLeftApart(t, parent, rim);
      var rclc := rc.left;
      rc.parent := node.parent;
      node.parent := rc;
      rc.left := node;
      node.right := rclc;
      if rclc != nil {
        rclc.parent := node;
      }
      ghost var t' := RedBlack.RotateLeft(t);
      forall n | n in Nodes(t') ensures Holds(n, CellOf(t', parent, rim, n)) {
        RotateLeftInside(t, parent, rim, n);
      }
    }

    /** The links that a left rotation changes. */
    method PivotLeft(node: Node, ghost p: Path<Node>, ghost t: Tree<Node>)
      requires Fits(t, Parent(p, rim), rim) && FitsPath(p, node, rim) && PathNodes(p) <= nodes && Nodes(t) <= nodes
      requires Distinct(t) && PathDistinct(p) && PathNodes(p) !! Nodes(t) && rim.nil == nil && nil !in nodes
      requires root == if p.Top? then node else RootOf(p)
      requires t.Branch? && t.node == node && t.right.Branch?
      modifies this`root, PathNodes(p), Nodes(t)
      ensures Fits(RedBlack.RotateLeft(t), Parent(p, rim), rim) && FitsPath(p, t.right.node, rim)
      ensures root == if p.Top? then t.right.node else RootOf(p)
    {
      hide CellOf, PathCellOf, Nodes, PathNodes, Plug, Distinct, PathDistinct, Inorder;
      RotateLeftApart(t, Parent(p, rim), rim);
      if p != Top {
        LastIsNode(p);
      }
      var rc := node.right;
      Relink(node, rc, p);
      TurnLeft(node, rc, t, Parent(p, rim));
    }

    /** `rbtree_left_rotate` */
    method RotateLeft(node: Node, ghost p: Path<Node>, ghost t: Tree<Node>)
      requires Shaped() && shape == Plug(p, t)
      requires t.Branch? && t.node == node && t.right.Branch?
      modifies this`root, this`shape, nodes
      ensures Shaped() && shape == Plug(p, RedBlack.RotateLeft(t))
      ensures Inorder(shape) == old(Inorder(shape))
    {
      hide CellOf, PathCellOf, Nodes, PathNodes, Plug, Distinct, PathDistinct, Inorder;
      ghost var t' := RedBlack.RotateLeft(t);
      Unzip(p, t);
      RotateLeftWhole(p, t);
      PivotLeft(node, p, t);
      shape := Plug(p, t');
      Zip(p, t');
    }

    /** The part of a right rotation that stays inside the subtree. */
    method TurnRight(node: Node, lc: Node, ghost t: Tree<Node>, ghost parent: Node)
      requires Fits(t, parent, rim) && Distinct(t) && rim.nil == nil && nil !in Nodes(t)
      requires t.Branch? && t.node == node && t.left.Branch? && t.left.node == lc
      modifies Nodes(t)
      ensures Fits(RedBlack.RotateRight(t), parent, rim)
    {
      hide CellOf, PathCellOf, Nodes, PathNodes, Plug, Distinct, PathDistinct, Inorder;
      RotateRightApart(t, parent, rim);
      var lcrc := lc.right;
      lc.parent := node.parent;
      lc.right := node;
      node.parent := lc;
      node.left := lcrc;
      if lcrc != nil {
        lcrc.parent := node;
      }
      ghost var t' := RedBlack.RotateRight(t);
      forall n | n in Nodes(t') ensures Holds(n, CellOf(t', parent, rim, n)) {
        RotateRightInside(t, parent, rim, n);
      }
    }

    /** The links that a right rotation changes. */
    method PivotRight(node: Node, ghost p: Path<Node>, ghost t: Tree<Node>)
      requires Fits(t, Parent(p, rim), rim) && FitsPath(p, node, rim) && PathNodes(p) <= nodes && Nodes(t) <= nodes
      requires Distinct(t) && PathDistinct(p) && PathNodes(p) !! Nodes(t) && rim.nil == nil && nil !in nodes
      requires root == if p.Top? then node else RootOf(p)
      requires t.Branch? && t.node == node && t.left.Branch?
      modifies this`root, PathNodes(p), Nodes(t)
      ensures Fits(RedBlack.RotateRight(t), Parent(p, rim), rim) && FitsPath(p, t.left.node, rim)
      ensures root == if p.Top? then t.left.node else RootOf(p)
    {
      hide CellOf, PathCellOf, Nodes, PathNodes, Plug, Distinct, PathDistinct, Inorder;
      RotateRightApart(t, Parent(p, rim), rim);
      if p != Top {
        LastIsNode(p);
      }
      var lc := node.left;
      Relink(node, lc, p);
      TurnRight(node, lc, t, Parent(p, rim));
    }

    /** `rbtree_right_rotate` */
    method RotateRight(node: Node, ghost p: Path<Node>, ghost t: Tree<Node>)
      requires Shaped() && shape == Plug(p, t)
      requires t.Branch? && t.node == node && t.left.Branch?
      modifies this`root, this`shape, nodes
      ensures Shaped() && shape == Plug(p, RedBlack.RotateRight(t))
      ensures Inorder(shape) == old(Inorder(shape))
    {
      hide CellOf, PathCellOf, Nodes, PathNodes, Plug, Distinct, PathDistinct, Inorder;
      ghost var t' := RedBlack.RotateRight(t);
      Unzip(p, t);
      RotateRightWhole(p, t);
      PivotRight(node, p, t);
      shape := Plug(p, t');
      Zip(p, t');
    }

    /** `util_rbt_black` and `util_rbt_red` on a node of the tree. */
    method Paint(node: Node, red: bool, ghost p: Path<Node>, ghost t: Tree<Node>)
      requires Shaped() && shape == Plug(p, t)
      requires t.Branch? && t.node == node
      modifies this`shape, node`color
      ensures Shaped() && shape == Plug(p, t.(red := red))
      ensures Inorder(shape) == old(Inorder(shape))
    {
      hide CellOf, PathCellOf, Nodes, PathNodes, Plug, Distinct, PathDistinct, Inorder;
      Unzip(p, t);
      PaintInside(t, red, Parent(p, rim), rim);
      PlugSame(p, t, t.(red := red));
      node.color := if red then RED else BLACK;
      shape := Plug(p, t.(red := red));
      Zip(p, t.(red := red));
    }

    /** What the pointers at a subtree say. */
    lemma Look(p: Path<Node>, t: Tree<Node>)
      requires Shaped() && shape == Plug(p, t)
      ensures rim.nil == nil && (p.Top? ==> root == Ptr(t, rim))
      ensures t.Branch? ==>
        && t.node in nodes && (p != Top ==> root != t.node)
        && Holds(t.node, Cell(Ptr(t.left, rim), Ptr(t.right, rim), Parent(p, rim), t.red))
        && (t.left.Branch? ==> t.left.node in nodes && t.node.right != t.left.node)
        && (t.right.Branch? ==> t.right.node in nodes && t.node.left != t.right.node)
    {
      Unzip(p, t);
      if t.Branch? {
        assert CellOf(t, Parent(p, rim), rim, t.node) == Cell(Ptr(t.left, rim), Ptr(t.right, rim), Parent(p, rim), t.red);
        assert t.left.Branch? ==> t.left.node in Nodes(t.left) && t.left.node in Nodes(t);
        assert t.right.Branch? ==> t.right.node in Nodes(t.right) && t.right.node in Nodes(t);
      }
    }

    /** What the pointers above a subtree and across from it say. */
    lemma LookUp(p: Path<Node>, t: Tree<Node>)
      requires Shaped() && shape == Plug(p, t)
      ensures rim.nil == nil && nil !in nodes
      ensures t.Branch? ==> t.node.parent == Parent(p, rim)
      ensures p != Top ==>
        && var s := Join(p, t);
        && p.node in nodes && Plug(p.up, s) == shape
        && Holds(p.node, Cell(Ptr(s.left, rim), Ptr(s.right, rim), Parent(p.up, rim), p.red))
        && root != Ptr(t, rim)
        && (p.InRight? && (p.left.Branch? || t.Branch?) ==> p.node.left != Ptr(t, rim))
        && (p.InLeft? && (p.right.Branch? || t.Branch?) ==> p.node.right != Ptr(t, rim))
    {
      Look(p, t);
      if p != Top {
        PlugStep(p, t);
        Look(p.up, Join(p, t));
        PlugRoot(p, t);
        Unzip(p, t);
      }
    }

    lemma LookAcross(p: Path<Node>, t: Tree<Node>)
      requires Shaped() && shape == Plug(p, t) && p != Top && Sibling(p).Branch?
      ensures var w := Sibling(p);
        && rim.nil == nil && shape == Plug(Across(p, t), w) && w.node in nodes
        && Holds(w.node, Cell(Ptr(w.left, rim), Ptr(w.right, rim), p.node, w.red))
        && (w.left.Branch? ==>
              && w.left.node in nodes && w.left.node.color == Color(w.left.red)
              && shape == Plug(InLeft(Across(p, t), w.node, w.red, w.right), w.left))
        && (w.right.Branch? ==>
              && w.right.node in nodes && w.right.node.color == Color(w.right.red)
              && shape == Plug(InRight(Across(p, t), w.left, w.node, w.red), w.right))
    {
      var q, w := Across(p, t), Sibling(p);
      PlugStep(p, t);
      Look(q, w);
      PlugStep(InLeft(q, w.node, w.red, w.right), w.left);
      PlugStep(InRight(q, w.left, w.node, w.red), w.right);
      Look(InLeft(q, w.node, w.red, w.right), w.left);
      Look(InRight(q, w.left, w.node, w.red), w.right);
    }

    // ----- insertion -----

    /** Both children of a node black, the node red: the recolouring of the insertion fixup. */
    method Recolour(u: Node, par: Node, g: Node, ghost q: Path<Node>, ghost t: Tree<Node>)
      requires Shaped() && q != Top && shape == Plug(q, t)
      requires t.Branch? && t.node == par && Sibling(q).Branch? && Sibling(q).node == u && q.node == g
      modifies this`shape, u`color, par`color, g`color
      ensures Shaped() && shape == Plug(q.up, JoinPainted(q, Blacken(t), true))
      ensures Inorder(shape) == old(Inorder(shape))
    {
      hide Plug, PathNodes, Nodes, Distinct, PathDistinct, Inorder, Shaped;
      ghost var q' := if q.InLeft? then q.(right := Blacken(q.right)) else q.(left := Blacken(q.left));
      PlugStep(q, t);
      Paint(u, false, Across(q, t), Sibling(q));
      PlugStep(q', t);
      Paint(par, false, q', t);
      PlugStep(q', Blacken(t));
      Paint(g, true, q.up, Join(q', Blacken(t)));
    }

    /** `par` black, `g` red, and a right rotation about `g`. */
    method LiftLeft(par: Node, g: Node, ghost q: Path<Node>, ghost t: Tree<Node>)
      requires Shaped() && q.InLeft? && shape == Plug(q, t)
      requires t.Branch? && t.node == par && q.node == g
      modifies this`root, this`shape, nodes
      ensures Shaped() && Inorder(shape) == old(Inorder(shape)) && shape == Plug(q.up, Lifted(q, t))
    {
      hide Plug, PathNodes, Nodes, Distinct, PathDistinct, Inorder, Shaped;
      Look(q, t);
      PlugStep(q, t);
      Look(q.up, Join(q, t));
      Paint(par, false, q, t);
      PlugStep(q, t.(red := false));
      Paint(g, true, q.up, Join(q, t.(red := false)));
      RotateRight(g, q.up, Branch(t.(red := false), g, true, q.right));
    }

    /** One round of the fixup when the parent, the root of `t`, is a left child. */
    method InsertStepLeft(x: Node, ghost q: Path<Node>, ghost t: Tree<Node>) returns (node: Node)
      requires Shaped() && shape == Plug(q, t) && nil.color == BLACK
      requires q.InLeft? && t.Branch? && x.parent == t.node && x != nil
      modifies this`root, this`shape, nodes
      ensures Shaped() && Inorder(shape) == old(Inorder(shape))
      ensures Stepped(x, q, t, t.right.Branch? && t.right.node == x, node)
      ensures IsRed(q.right) ==> root == old(root)
    {
      hide Plug, PathNodes, Nodes, Distinct, PathDistinct, Inorder, Shaped;
      ghost var s := t;
      Look(q, t);
      PlugStep(q, t);
      LookUp(q, t);
      PlugStep(Across(q, t), q.right);
      Look(InRight(q.up, t, q.node, q.red), q.right);
      node := x;
      var par := node.parent;
      var u := par.parent.right;
      if u.color == RED {
        Recolour(u, par, par.parent, q, t);
        node := par.parent;
      } else {
        if node == par.right {
          node := par;
          RotateLeft(node, q, t);
          s := RedBlack.RotateLeft(t);
          PlugStep(InLeft(q, s.node, s.red, s.right), s.left);
          LookUp(InLeft(q, s.node, s.red, s.right), s.left);
          par := node.parent;
        }
        Look(q, s);
        LiftLeft(par, par.parent, q, s);
      }
    }

    /** What a round leaves: `node` is where the next one starts. */
    ghost predicate Stepped(x: Node, q: Path<Node>, t: Tree<Node>, inner: bool, node: Node)
      requires q != Top && t.Branch? && (inner ==> if q.InLeft? then t.right.Branch? else t.left.Branch?)
      reads this`shape
    {
      if IsRed(Sibling(q)) then node == q.node && shape == Plug(q.up, JoinPainted(q, Blacken(t), true))
      else node == (if inner then t.node else x) && shape == Plug(q.up, Lifted(q, Uncoiled(q, t, inner)))
    }

    /** `par` black, `g` red, and a left rotation about `g`; `self` says that both are the root. */
    method LiftRight(par: Node, g: Node, ghost q: Path<Node>, ghost t: Tree<Node>, ghost self: bool)
      requires Shaped() && shape == Plug(q, t) && t.Branch? && t.node == par
      requires if self then q == Top && g == par && t.right.Branch? else q.InRight? && q.node == g
      modifies this`root, this`shape, nodes
      ensures Shaped() && Inorder(shape) == old(Inorder(shape))
      ensures shape == if self then RedBlack.RotateLeft(t.(red := true)) else Plug(q.up, Lifted(q, t))
    {
      hide Plug, PathNodes, Nodes, Distinct, PathDistinct, Inorder, Shaped;
      ghost var up, s := Top, t.(red := false);
      if !self {
        up, s := q.up, Join(q, t.(red := false));
        PlugStep(q, t.(red := false));
      }
      Look(q, t);
      Paint(par, false, q, t);
      Look(up, s);
      Paint(g, true, up, s);
      RotateLeft(g, up, s.(red := true));
      PlugTop(RedBlack.RotateLeft(s.(red := true)));
    }

    /** The same when the parent is a right child.  In the case `self` the parent is the node
        itself, the root, and the test for a left child has failed. */
    method InsertStepRight(x: Node, ghost q: Path<Node>, ghost t: Tree<Node>, ghost self: bool) returns (node: Node)
      requires Shaped() && shape == Plug(q, t) && nil.color == BLACK
      requires t.Branch? && x.parent == t.node && x != nil
      requires if self then q == Top && t.node == x && t.right.Branch? && !IsRed(t.left) else q.InRight?
      modifies this`root, this`shape, nodes
      ensures Shaped() && Inorder(shape) == old(Inorder(shape))
      ensures self ==> node == x && shape == RedBlack.RotateLeft(t.(red := true))
      ensures !self ==> Stepped(x, q, t, t.left.Branch? && t.left.node == x, node)
      ensures !self && IsRed(q.left) ==> root == old(root)
    {
      hide Plug, PathNodes, Nodes, Distinct, PathDistinct, Inorder, Shaped;
      ghost var s := t;
      Look(q, t);
      if self {
        PlugStep(InLeft(q, t.node, t.red, t.right), t.left);
        Look(InLeft(q, t.node, t.red, t.right), t.left);
      } else {
        PlugStep(q, t);
        LookUp(q, t);
        PlugStep(Across(q, t), q.left);
        Look(InLeft(q.up, q.node, q.red, t), q.left);
      }
      node := x;
      var par := node.parent;
      var u := par.parent.left;
      if u.color == RED {
        Recolour(u, par, par.parent, q, t);
        node := par.parent;
      } else {
        if node == par.left {
          node := par;
          RotateRight(node, q, t);
          s := RedBlack.RotateRight(t);
          PlugStep(InRight(q, s.left, s.node, s.red), s.right);
          LookUp(InRight(q, s.left, s.node, s.red), s.right);
          par := node.parent;
        }
        Look(q, s);
        LiftRight(par, par.parent, q, s, self);
      }
    }

    method InsertStep(x: Node, ghost q: Path<Node>, ghost t: Tree<Node>, ghost self: bool) returns (node: Node)
      requires Shaped() && shape == Plug(q, t) && nil.color == BLACK
      requires t.Branch? && x.parent == t.node && x != nil
      requires if self then q == Top && t.node == x && t.right.Branch? && !IsRed(t.left) else q != Top
      modifies this`root, this`shape, nodes
      ensures Shaped() && Inorder(shape) == old(Inorder(shape))
      ensures self ==> node == x && shape == RedBlack.RotateLeft(t.(red := true))
      ensures !self ==> Stepped(x, q, t, Inner(x, q, t), node)
      ensures !self && IsRed(Sibling(q)) ==> root == old(root)
    {
      hide Nodes, PathNodes, Distinct, PathDistinct, Inorder, Plug, Shaped, Stepped;
      Look(q, t);
      if self {
        PlugStep(InLeft(q, t.node, t.red, t.right), t.left);
        Look(InLeft(q, t.node, t.red, t.right), t.left);
      } else {
        LookUp(q, t);
      }
      var par := x.parent;
      if par == par.parent.left {
        node := InsertStepLeft(x, q, t);
      } else {
        node := InsertStepRight(x, q, t, self);
      }
    }

    ghost predicate Inner(x: Node, q: Path<Node>, t: Tree<Node>)
      requires q != Top && t.Branch?
    {
      if q.InLeft? then t.right.Branch? && t.right.node == x else t.left.Branch? && t.left.node == x
    }

    /** A round that starts from the usual fault, as the paths and colours have it. */
    lemma InsertStepped(p: Path<Node>, t: Tree<Node>)
      requires Shaped() && shape == Plug(p, t) && t.Branch? && p != Top && p.up != Top
      ensures Inner(t.node, p.up, Join(p, t)) <==> p.InLeft? != p.up.InLeft?
      ensures t.node != nil
    {
      LookUp(p, t);
      Look(p, t);
    }

    /** After the turn at the root itself. */
    lemma AfterTip(x: Node, t: Tree<Node>)
      requires Shaped() && t.Branch? && t.right.Branch? && !t.right.red && t.node == x
      requires shape == RedBlack.RotateLeft(t.(red := true))
      ensures x.parent != null && x.parent.color == BLACK && shape.Branch?
    {
      var r := t.right;
      PlugTop(shape);
      Look(Top, shape);
      PlugStep(InLeft(Top, r.node, r.red, r.right), shape.left);
      Look(InLeft(Top, r.node, r.red, r.right), shape.left);
    }

    /** After the rotation about the node that the root's parent link refers to. */
    lemma AfterAstray(x: Node, q: Path<Node>, s: Tree<Node>)
      requires Shaped() && q != Top && q.up != Top && s.Branch? && shape == Plug(q.up, Lifted(q, s))
      requires x == RootOf(q) && rim.outer == s.node
      ensures x.parent != null && x.parent.color == BLACK && shape.Branch?
    {
      var s' := Lifted(q, s);
      PlugRoot(q.up, s');
      PlugTop(shape);
      Look(Top, shape);
      Look(q.up, s');
    }

    /** The root is no child of a node below it. */
    lemma NotInner(q: Path<Node>, s: Tree<Node>)
      requires Shaped() && shape == Plug(q, s) && q != Top && s.Branch?
      ensures !Inner(RootOf(q), q, s) && root == RootOf(q) && root != nil && root in nodes
    {
      PlugRoot(q, s);
      PlugTop(shape);
      Look(Top, shape);
      if s.left.Branch? {
        Look(InLeft(q, s.node, s.red, s.right), s.left);
      }
      if s.right.Branch? {
        Look(InRight(q, s.left, s.node, s.red), s.right);
      }
    }

    /** What the root's parent link refers to is not in the tree, and black. */
    ghost predicate Quiet()
      reads this`nodes, this`rim, rim.outer`color
    {
      rim.outer !in nodes && rim.outer.color == BLACK
    }

    /** What a turn of the loop of the fixup leads to from the usual fault at `p`, in the part of
        the tree that `o` leads to; seen from the place `q` of the parent and its subtree `s`. */
    lemma {:induction false} TurnInside(o: Path<Node>, p: Path<Node>, t: Tree<Node>)
      returns (q: Path<Node>, s: Tree<Node>, p': Path<Node>, t': Tree<Node>)
      requires Shaped() && shape == Plug(Over(p, o), t) && Climbing(o, p, t) && t.Branch?
      requires p != Top && p.red
      ensures q != Top && s.Branch? && shape == Plug(q, s) && s.node == p.node && t.node != nil && p.up != Top
      ensures IsRed(Sibling(q)) <==> IsRed(Sibling(p.up))
      ensures t'.Branch? && Climbing(o, p', t') && Depth(p') < Depth(p) && InsertFixed(p', t') == InsertFixed(p, t)
      ensures if IsRed(Sibling(q)) then Calm(t') && (ReachesRoot(p') <==> ReachesRoot(p)) else p' != Top && !p'.red && !ReachesRoot(p)
      ensures Inner(t.node, q, s) ==> if q.InLeft? then s.right.Branch? else s.left.Branch?
      ensures if IsRed(Sibling(q)) then t'.node == q.node && Plug(Over(p', o), t') == Plug(q.up, JoinPainted(q, Blacken(s), true))
        else t'.node == (if Inner(t.node, q, s) then s.node else t.node) && Plug(Over(p', o), t') == Plug(q.up, Lifted(q, Uncoiled(q, s, Inner(t.node, q, s))))
    {
      hide Nodes, PathNodes, Distinct, PathDistinct, Inorder, Plug, Shaped;
      hide NoRedRed, PathNoRedRed, Balanced, PathBalanced, BlackHeight, RedBlackTree, Lifted, InsertFixed, Over,
        Climbing, Calm, ReachesRoot;
      p', t' := ClimbRound(o, p, t);
      OverSame(p, o, t);
      q, s := Over(p, o).up, Join(p, t);
      OverSame(p.up, o, Blacken(s));
      PlugStep(Over(p, o), t);
      InsertStepped(Over(p, o), t);
      PlugOver(p', o, t');
      if !IsRed(Sibling(q)) {
        var lifted := Uncoiled(p.up, s, p.InLeft? != p.up.InLeft?);
        OverSame(p.up, o, lifted);
        PlugOver(p.up.up, o, Lifted(p.up, lifted));
      }
    }

    /** One turn of the loop of the fixup.  Mostly it starts from the usual fault at `p`.  When the
        fault has reached the root, and what the root's parent link refers to is red, the loop
        goes on nevertheless: at the root, if it refers to the root itself; otherwise from the
        node that it refers to, and either that turn ends the repair, or the usual fault is
        below the root now. */
    method InsertTurn(x: Node, ghost o: Path<Node>, ghost p: Path<Node>, ghost t: Tree<Node>)
      returns (node: Node, ghost o': Path<Node>, ghost p': Path<Node>, ghost t': Tree<Node>, ghost done: bool)
      requires Shaped() && shape == Plug(Over(p, o), t) && nil.color == BLACK && Climbing(o, p, t) && t.Branch?
      requires t.node == x && x.parent == if p == Top then rim.outer else p.node
      requires if p == Top then Calm(t) && rim.outer in nodes && rim.outer.color == RED else p.red
      modifies this`root, this`shape, nodes
      ensures Shaped() && Inorder(shape) == old(Inorder(shape))
      ensures !done ==> shape == Plug(Over(p', o'), t') && t'.Branch? && t'.node == node && Climbing(o', p', t')
      ensures done ==> p == Top && shape.Branch? && node.parent != null && node.parent.color == BLACK
      ensures done ==> if rim.outer == old(root) then Tipped() else RedBlackTree(Blacken(shape))
      ensures p == Top && !done ==> rim.outer != old(root) && o' != Top
      ensures p != Top ==>
        && !done && o' == o && Depth(p') < Depth(p) && InsertFixed(p', t') == InsertFixed(p, t) && p.up != Top
        && if IsRed(Sibling(p.up)) then Calm(t') && (ReachesRoot(p') <==> ReachesRoot(p)) && root == old(root)
           else p' != Top && !p'.red && !ReachesRoot(p)
    {
      hide Nodes, PathNodes, Distinct, PathDistinct, Inorder, Plug, Shaped;
      hide NoRedRed, PathNoRedRed, Balanced, PathBalanced, BlackHeight, RedBlackTree, Lifted, InsertFixed, Over,
        Climbing, Calm, ReachesRoot;
      o', p', t', done := o, p, t, p == Top;
      ghost var q, s, self := Top, t, false;
      if p != Top {
        q, s, p', t' := TurnInside(o, p, t);
      } else {
        TopIs(o, t);
        PlugTop(t);
        if rim.outer == root {
          Look(Top, t);
          TurnTips(t);
          self := true;
        } else {
          q, s, o', p', t' := TurnAstray(t);
          done := !IsRed(Sibling(q));
        }
      }
      node := InsertStep(x, q, s, self);
      if self {
        TippedRoot(t);
        AfterTip(x, t);
      } else if done {
        AfterAstray(x, q, s);
      }
    }

    lemma TurnTips(t: Tree<Node>)
      requires InsertPending(Top, t) && Calm(t)
      ensures t.right.Branch? && t.left.Branch? && !t.right.red && !IsRed(t.left)
    {
    }

    lemma {:induction false} TurnAstray(t: Tree<Node>)
      returns (q: Path<Node>, s: Tree<Node>, o: Path<Node>, p': Path<Node>, t': Tree<Node>)
      requires Shaped() && shape == t && InsertPending(Top, t) && Calm(t)
      requires rim.outer in nodes && rim.outer != root && rim.outer.color == RED
      ensures q != Top && q.up != Top && s.Branch? && s.node == rim.outer && shape == Plug(q, s) && t.node == RootOf(q) != nil
      ensures o != Top && !Inner(t.node, q, s)
      ensures if IsRed(Sibling(q)) then t'.Branch? && t'.node == q.node && Climbing(o, p', t') && Plug(Over(p', o), t') == Plug(q.up, JoinPainted(q, Blacken(s), true))
        else Plug(q.up, Lifted(q, s)).Branch? && RedBlackTree(Blacken(Plug(q.up, Lifted(q, s))))
    {
      hide PathNodes, Distinct, PathDistinct, Inorder, Plug, Shaped;
      hide NoRedRed, PathNoRedRed, Balanced, PathBalanced, BlackHeight, RedBlackTree, Lifted, InsertFixed, Over,
        Climbing, Calm, ReachesRoot;
      InTree();
      q, s := Locate(Top, t, rim.outer);
      PlugTop(t);
      Look(Top, t);
      Look(q, s);
      NotInner(q, s);
      var r;
      r, o := SecondClimb(t, q, s);
      OverSame(r.up, o, s);
      p', t' := r.up, JoinPainted(r, Blacken(s), true);
    }

    lemma InTree()
      requires Shaped()
      ensures nodes == Nodes(shape)
    {
    }

    /** A repair that starts at `p` climbs to the root `top`, whose parent link refers to itself. */
    ghost predicate Tips(p: Path<Node>, top: Node)
      reads this`rim
    {
      p != Top && ReachesRoot(p) && rim.outer == top
    }

    ghost predicate Tipped()
      reads this`shape
    {
      !Balanced(shape) && !IsRed(shape)
    }

    /** `rbtree_insert_fixup`: it matters what the root's parent link refers to only when the
        repair climbs to the root; and then there is harm only if that is the root itself. */
    method InsertFixup(x: Node, ghost p0: Path<Node>)
      requires var t0 := Branch(Leaf, x, true, Leaf);
        Shaped() && shape == Plug(p0, t0) && nil.color == BLACK && InsertPending(p0, t0)
      requires !ReachesRoot(p0) || Quiet() || (p0 != Top && rim.outer in nodes)
      modifies this`root, this`shape, nodes
      ensures Shaped() && Inorder(shape) == old(Inorder(shape))
      ensures if Tips(p0, old(root)) then !Balanced(shape) else RedBlackTree(shape)
      ensures !ReachesRoot(p0) || old(Quiet()) ==> shape == InsertFixed(p0, Branch(Leaf, x, true, Leaf))
    {
      hide Nodes, PathNodes, Distinct, PathDistinct, Inorder, Plug;
      hide NoRedRed, PathNoRedRed, Balanced, PathBalanced, BlackHeight, RedBlackTree, ReachesRoot,
        InsertPending, InsertFixed, Shaped, Climbing, Calm, Over;
      var node := x;
      ghost var t0: Tree<Node> := Branch(Leaf, x, true, Leaf);
      ghost var o: Path<Node>, p, t, done, quiet := Top, p0, t0, false, Quiet();
      ClimbStarts(p0, t0);
      LookUp(p, t);
      Look(p, t);
      while node.parent.color == RED
        invariant Shaped() && Inorder(shape) == old(Inorder(shape)) && nil.color == BLACK && nil !in nodes && node.parent != null
        invariant done || o != Top ==> ReachesRoot(p0) && !quiet
        invariant done ==> node.parent.color == BLACK && shape.Branch? && if Tips(p0, old(root)) then Tipped() else RedBlackTree(Blacken(shape))
        invariant !done ==>
          && shape == Plug(Over(p, o), t) && t.Branch? && Climbing(o, p, t) && t.node == node
          && node.parent == Parent(Over(p, o), rim) && (p != Top ==> node.parent == p.node && node.parent.color == Color(p.red))
        invariant !done && o != Top ==> !Tips(p0, old(root)) && p != Top
        invariant !done && o == Top ==>
          && (ReachesRoot(p) <==> ReachesRoot(p0)) && InsertFixed(p, t) == InsertFixed(p0, t0)
          && (p.Top? && p0 != Top ==> Calm(t)) && (p.Top? || p.red ==> root == old(root))
        invariant quiet ==> rim.outer.color == BLACK
        decreases if done then 0 else if o != Top then 1 else 2, Depth(p)
      {
        OverSame(p, o, t);
        if p == Top {
          TopIs(o, t);
        }
        node, o, p, t, done := InsertTurn(node, o, p, t);
        if !done {
          BlackStops(p);
          OverSame(p, o, t);
          if p == Top {
            TopIs(o, t);
          }
          LookUp(Over(p, o), t);
          Look(Over(p, o), t);
        }
      }
      if !done {
        ClimbDone(o, p, t);
        Look(Over(p, o), t);
        OverSame(p, o, t);
      }
      BlackenRoot();
    }

    /** The last statement of the insertion fixup. */
    method BlackenRoot()
      requires Shaped() && shape != Leaf
      modifies this`shape, nodes
      ensures Shaped() && shape == Blacken(old(shape)) && Inorder(shape) == old(Inorder(shape))
    {
      Look(Top, shape);
      Paint(root, false, Top, shape);
    }

    // ----- deletion -----

    /** The sibling, a red right child, becomes the grandparent. */
    method RaiseRight(par: Node, w: Node, ghost p: Path<Node>, ghost t: Tree<Node>)
      requires Shaped() && shape == Plug(p, t)
      requires p.InLeft? && p.node == par && p.right.Branch? && p.right.node == w
      modifies this`root, this`shape, nodes
      ensures Shaped() && Inorder(shape) == old(Inorder(shape))
      ensures shape == Plug(InLeft(InLeft(p.up, w, false, p.right.right), par, true, p.right.left), t)
    {
      hide Plug, PathNodes, Nodes, Distinct, PathDistinct, Inorder, Shaped;
      ghost var wt := p.right.(red := false);
      LookUp(p, t);
      LookAcross(p, t);
      Paint(w, false, Across(p, t), p.right);
      PlugStep(InLeft(p.up, par, p.red, wt), t);
      Paint(par, true, p.up, Branch(t, par, p.red, wt));
      RotateLeft(par, p.up, Branch(t, par, true, wt));
      PlugStep(InLeft(p.up, w, false, wt.right), Branch(t, par, true, wt.left));
      PlugStep(InLeft(InLeft(p.up, w, false, wt.right), par, true, wt.left), t);
    }

    /** The near child of the sibling, a right child, takes its place. */
    method TurnSiblingRight(w: Node, ghost p: Path<Node>, ghost t: Tree<Node>)
      requires Shaped() && shape == Plug(p, t)
      requires p.InLeft? && p.right.Branch? && p.right.node == w && p.right.left.Branch?
      modifies this`root, this`shape, nodes
      ensures Shaped() && Inorder(shape) == old(Inorder(shape))
      ensures shape == Plug(InLeft(p.up, p.node, p.red,
                RedBlack.RotateRight(Branch(Blacken(p.right.left), w, true, p.right.right))), t)
    {
      hide Plug, PathNodes, Nodes, Distinct, PathDistinct, Inorder, Shaped;
      ghost var q, wt := Across(p, t), p.right;
      ghost var l := Blacken(wt.left);
      LookAcross(p, t);
      Paint(w.left, false, InLeft(q, w, wt.red, wt.right), wt.left);
      PlugStep(InLeft(q, w, wt.red, wt.right), l);
      Paint(w, true, q, Branch(l, w, wt.red, wt.right));
      RotateRight(w, q, Branch(l, w, true, wt.right));
      PlugStep(InLeft(p.up, p.node, p.red, RedBlack.RotateRight(Branch(l, w, true, wt.right))), t);
    }

    /** The sibling, a right child with a right child, takes the place of the parent. */
    method LiftSiblingRight(par: Node, w: Node, ghost p: Path<Node>, ghost t: Tree<Node>)
      requires Shaped() && shape == Plug(p, t)
      requires p.InLeft? && p.node == par && p.right.Branch? && p.right.node == w && p.right.right.Branch?
      modifies this`root, this`shape, nodes
      ensures Shaped() && Inorder(shape) == old(Inorder(shape))
      ensures shape == Plug(p.up, Branch(Branch(t, par, false, p.right.left), w, p.red, Blacken(p.right.right)))
    {
      hide Plug, PathNodes, Nodes, Distinct, PathDistinct, Inorder, Shaped;
      ghost var l, r := p.right.left, p.right.right;
      LookUp(p, t);
      LookAcross(p, t);
      Paint(w, par.color == RED, Across(p, t), p.right);
      PlugStep(InLeft(p.up, par, p.red, Branch(l, w, p.red, r)), t);
      Paint(par, false, p.up, Branch(t, par, p.red, Branch(l, w, p.red, r)));
      PlugStep(InLeft(p.up, par, false, Branch(l, w, p.red, r)), t);
      LookAcross(InLeft(p.up, par, false, Branch(l, w, p.red, r)), t);
      Paint(w.right, false, InRight(InRight(p.up, t, par, false), l, w, p.red), r);
      PlugStep(InRight(InRight(p.up, t, par, false), l, w, p.red), Blacken(r));
      PlugStep(InRight(p.up, t, par, false), Branch(l, w, p.red, Blacken(r)));
      RotateLeft(par, p.up, Branch(t, par, false, Branch(l, w, p.red, Blacken(r))));
    }

    /** The sibling has a red child: rotations restore the whole tree. */
    method DeleteEndLeft(x: Node, w0: Node, ghost p0: Path<Node>, ghost t: Tree<Node>) returns (node: Node)
      requires Shaped() && shape == Plug(p0, t) && nil.color == BLACK
      requires DeletePending(p0, t) && !IsRed(t) && x == Ptr(t, rim)
      requires p0.InLeft? && x.parent == p0.node
      requires p0.right.Branch? && p0.right.node == w0 && !p0.right.red
      requires IsRed(p0.right.left) || IsRed(p0.right.right)
      modifies this`root, this`shape, nodes
      ensures Shaped() && shape == Plug(Top, shape) && Inorder(shape) == old(Inorder(shape))
      ensures DeletePending(Top, shape) && shape.Branch? && shape.node == node
    {
      hide Plug, Nodes, PathNodes, Distinct, PathDistinct, Inorder, Shaped;
      hide NoRedRed, PathNoRedRed, Balanced, PathBalanced, BlackHeight, RedBlackTree, DeletePending;
      ghost var p := p0;
      LookUp(p, t);
      LookAcross(p, t);
      var w := w0;
      if w.right.color == BLACK {
        DeleteTurnedRight(p.up, t, p.node, p.red, p.right);
        TurnSiblingRight(w, p, t);
        p := InLeft(p.up, p.node, p.red, RedBlack.RotateRight(Branch(Blacken(p.right.left), w, true, p.right.right)));
        LookUp(p, t);
        LookAcross(p, t);
        w := x.parent.right;
      }
      DeleteLiftedLeft(p.up, t, p.node, p.red, p.right);
      LiftSiblingRight(x.parent, w, p, t);
      PlugBranch(p.up, Branch(Branch(t, p.node, false, p.right.left), w, p.red, Blacken(p.right.right)));
      DeleteAtRoot(shape);
      PlugTop(shape);
      Look(Top, shape);
      node := root;
    }

    /** One round of the fixup when the node short of a black one is a left child. */
    method DeleteStepLeft(x: Node, ghost p0: Path<Node>, ghost t: Tree<Node>)
      returns (node: Node, ghost p': Path<Node>, ghost t': Tree<Node>)
      requires Shaped() && shape == Plug(p0, t) && nil.color == BLACK
      requires DeletePending(p0, t) && !IsRed(t) && x == Ptr(t, rim)
      requires p0.InLeft? && x.parent == p0.node
      modifies this`root, this`shape, nodes
      ensures Shaped() && shape == Plug(p', t') && Inorder(shape) == old(Inorder(shape))
      ensures DeletePending(p', t') && t'.Branch? && t'.node == node
      ensures Depth(p') < Depth(p0) || (Depth(p') == Depth(p0) && IsRed(t'))
    {
      hide Plug, Nodes, PathNodes, Distinct, PathDistinct, Inorder, Shaped;
      hide NoRedRed, PathNoRedRed, Balanced, PathBalanced, BlackHeight, RedBlackTree, DeletePending;
      ghost var p := p0;
      DeleteSibling(p, t);
      LookUp(p, t);
      LookAcross(p, t);
      var w := x.parent.right;
      if w.color == RED {
        DeleteRotatedLeft(p.up, t, p.node, p.red, p.right);
        RaiseRight(x.parent, w, p, t);
        p := InLeft(InLeft(p.up, w, false, p.right.right), p.node, true, p.right.left);
        DeleteSibling(p, t);
        LookUp(p, t);
        LookAcross(p, t);
        w := x.parent.right;
      }
      if w.left.color == BLACK && w.right.color == BLACK {
        DeleteRecoloured(p, t);
        Paint(w, true, Across(p, t), p.right);
        node, p', t' := x.parent, p.up, JoinWith(p, t, p.right.(red := true));
        PlugStep(InLeft(p.up, p.node, p.red, p.right.(red := true)), t);
      } else {
        node := DeleteEndLeft(x, w, p, t);
        p', t' := Top, shape;
      }
    }

    /** The sibling, a red left child, becomes the grandparent. */
    method RaiseLeft(par: Node, w: Node, ghost p: Path<Node>, ghost t: Tree<Node>)
      requires Shaped() && shape == Plug(p, t)
      requires p.InRight? && p.node == par && p.left.Branch? && p.left.node == w
      modifies this`root, this`shape, nodes
      ensures Shaped() && Inorder(shape) == old(Inorder(shape))
      ensures shape == Plug(InRight(InRight(p.up, p.left.left, w, false), p.left.right, par, true), t)
    {
      hide Plug, PathNodes, Nodes, Distinct, PathDistinct, Inorder, Shaped;
      ghost var wt := p.left.(red := false);
      LookUp(p, t);
      LookAcross(p, t);
      Paint(w, false, Across(p, t), p.left);
      PlugStep(InRight(p.up, wt, par, p.red), t);
      Paint(par, true, p.up, Branch(wt, par, p.red, t));
      RotateRight(par, p.up, Branch(wt, par, true, t));
      PlugStep(InRight(p.up, wt.left, w, false), Branch(wt.right, par, true, t));
      PlugStep(InRight(InRight(p.up, wt.left, w, false), wt.right, par, true), t);
    }

    /** The near child of the sibling, a left child, takes its place. */
    method TurnSiblingLeft(w: Node, ghost p: Path<Node>, ghost t: Tree<Node>)
      requires Shaped() && shape == Plug(p, t)
      requires p.InRight? && p.left.Branch? && p.left.node == w && p.left.right.Branch?
      modifies this`root, this`shape, nodes
      ensures Shaped() && Inorder(shape) == old(Inorder(shape))
      ensures shape == Plug(InRight(p.up, RedBlack.RotateLeft(Branch(p.left.left, w, true, Blacken(p.left.right))), p.node, p.red), t)
    {
      hide Plug, PathNodes, Nodes, Distinct, PathDistinct, Inorder, Shaped;
      ghost var q, wt := Across(p, t), p.left;
      ghost var l := Blacken(wt.right);
      LookAcross(p, t);
      Paint(w.right, false, InRight(q, wt.left, w, wt.red), wt.right);
      PlugStep(InRight(q, wt.left, w, wt.red), l);
      Paint(w, true, q, Branch(wt.left, w, wt.red, l));
      RotateLeft(w, q, Branch(wt.left, w, true, l));
      PlugStep(InRight(p.up, RedBlack.RotateLeft(Branch(wt.left, w, true, l)), p.node, p.red), t);
    }

    /** The sibling, a left child with a left child, takes the place of the parent. */
    method LiftSiblingLeft(par: Node, w: Node, ghost p: Path<Node>, ghost t: Tree<Node>)
      requires Shaped() && shape == Plug(p, t)
      requires p.InRight? && p.node == par && p.left.Branch? && p.left.node == w && p.left.left.Branch?
      modifies this`root, this`shape, nodes
      ensures Shaped() && Inorder(shape) == old(Inorder(shape))
      ensures shape == Plug(p.up, Branch(Blacken(p.left.left), w, p.red, Branch(p.left.right, par, false, t)))
    {
      hide Plug, PathNodes, Nodes, Distinct, PathDistinct, Inorder, Shaped;
      ghost var l, r := p.left.right, p.left.left;
      LookUp(p, t);
      LookAcross(p, t);
      Paint(w, par.color == RED, Across(p, t), p.left);
      PlugStep(InRight(p.up, Branch(r, w, p.red, l), par, p.red), t);
      Paint(par, false, p.up, Branch(Branch(r, w, p.red, l), par, p.red, t));
      PlugStep(InRight(p.up, Branch(r, w, p.red, l), par, false), t);
      LookAcross(InRight(p.up, Branch(r, w, p.red, l), par, false), t);
      Paint(w.left, false, InLeft(InLeft(p.up, par, false, t), w, p.red, l), r);
      PlugStep(InLeft(InLeft(p.up, par, false, t), w, p.red, l), Blacken(r));
      PlugStep(InLeft(p.up, par, false, t), Branch(Blacken(r), w, p.red, l));
      RotateRight(par, p.up, Branch(Branch(Blacken(r), w, p.red, l), par, false, t));
    }

    /** The sibling has a red child: rotations restore the whole tree. */
    method DeleteEndRight(x: Node, w0: Node, ghost p0: Path<Node>, ghost t: Tree<Node>) returns (node: Node)
      requires Shaped() && shape == Plug(p0, t) && nil.color == BLACK
      requires DeletePending(p0, t) && !IsRed(t) && x == Ptr(t, rim)
      requires p0.InRight? && x.parent == p0.node
      requires p0.left.Branch? && p0.left.node == w0 && !p0.left.red
      requires IsRed(p0.left.right) || IsRed(p0.left.left)
      modifies this`root, this`shape, nodes
      ensures Shaped() && shape == Plug(Top, shape) && Inorder(shape) == old(Inorder(shape))
      ensures DeletePending(Top, shape) && shape.Branch? && shape.node == node
    {
      hide Plug, Nodes, PathNodes, Distinct, PathDistinct, Inorder, Shaped;
      hide NoRedRed, PathNoRedRed, Balanced, PathBalanced, BlackHeight, RedBlackTree, DeletePending;
      ghost var p := p0;
      LookUp(p, t);
      LookAcross(p, t);
      var w := w0;
      if w.left.color == BLACK {
        DeleteTurnedLeft(p.up, t, p.node, p.red, p.left);
        TurnSiblingLeft(w, p, t);
        p := InRight(p.up, RedBlack.RotateLeft(Branch(p.left.left, w, true, Blacken(p.left.right))), p.node, p.red);
        LookUp(p, t);
        LookAcross(p, t);
        w := x.parent.left;
      }
      DeleteLiftedRight(p.up, t, p.node, p.red, p.left);
      LiftSiblingLeft(x.parent, w, p, t);
      PlugBranch(p.up, Branch(Blacken(p.left.left), w, p.red, Branch(p.left.right, p.node, false, t)));
      DeleteAtRoot(shape);
      PlugTop(shape);
      Look(Top, shape);
      node := root;
    }

    /** One round of the fixup when the node short of a black one is a right child. */
    method DeleteStepRight(x: Node, ghost p0: Path<Node>, ghost t: Tree<Node>)
      returns (node: Node, ghost p': Path<Node>, ghost t': Tree<Node>)
      requires Shaped() && shape == Plug(p0, t) && nil.color == BLACK
      requires DeletePending(p0, t) && !IsRed(t) && x == Ptr(t, rim)
      requires p0.InRight? && x.parent == p0.node
      modifies this`root, this`shape, nodes
      ensures Shaped() && shape == Plug(p', t') && Inorder(shape) == old(Inorder(shape))
      ensures DeletePending(p', t') && t'.Branch? && t'.node == node
      ensures Depth(p') < Depth(p0) || (Depth(p') == Depth(p0) && IsRed(t'))
    {
      hide Plug, Nodes, PathNodes, Distinct, PathDistinct, Inorder, Shaped;
      hide NoRedRed, PathNoRedRed, Balanced, PathBalanced, BlackHeight, RedBlackTree, DeletePending;
      ghost var p := p0;
      DeleteSibling(p, t);
      LookUp(p, t);
      LookAcross(p, t);
      var w := x.parent.left;
      if w.color == RED {
        DeleteRotatedRight(p.up, t, p.node, p.red, p.left);
        RaiseLeft(x.parent, w, p, t);
        p := InRight(InRight(p.up, p.left.left, w, false), p.left.right, p.node, true);
        DeleteSibling(p, t);
        LookUp(p, t);
        LookAcross(p, t);
        w := x.parent.left;
      }
      if w.left.color == BLACK && w.right.color == BLACK {
        DeleteRecoloured(p, t);
        Paint(w, true, Across(p, t), p.left);
        node, p', t' := x.parent, p.up, JoinWith(p, t, p.left.(red := true));
        PlugStep(InRight(p.up, p.left.(red := true), p.node, p.red), t);
      } else {
        node := DeleteEndRight(x, w, p, t);
        p', t' := Top, shape;
      }
    }

    method DeleteStep(x: Node, ghost p: Path<Node>, ghost t: Tree<Node>)
      returns (node: Node, ghost p': Path<Node>, ghost t': Tree<Node>)
      requires Shaped() && shape == Plug(p, t) && nil.color == BLACK
      requires DeletePending(p, t) && p != Top && !IsRed(t) && x == Ptr(t, rim) && x.parent == p.node
      modifies this`root, this`shape, nodes
      ensures Shaped() && shape == Plug(p', t') && Inorder(shape) == old(Inorder(shape))
      ensures DeletePending(p', t') && t'.Branch? && t'.node == node
      ensures Depth(p') < Depth(p) || (Depth(p') == Depth(p) && IsRed(t'))
    {
      hide Plug, Nodes, PathNodes, Distinct, PathDistinct, Inorder, Shaped;
      hide NoRedRed, PathNoRedRed, Balanced, PathBalanced, BlackHeight, DeletePending;
      DeleteSibling(p, t);
      LookUp(p, t);
      if x == x.parent.left {
        node, p', t' := DeleteStepLeft(x, p, t);
      } else {
        node, p', t' := DeleteStepRight(x, p, t);
      }
    }

    /** `rbtree_delete_fixup` */
    method DeleteFixup(x: Node, ghost p0: Path<Node>, ghost t0: Tree<Node>)
      requires Shaped() && shape == Plug(p0, t0) && nil.color == BLACK
      requires DeletePending(p0, t0) && x == Ptr(t0, rim)
      requires t0.Leaf? && p0 != Top ==> nil.parent == p0.node
      modifies this`root, this`shape, nodes, nil`color
      ensures Shaped() && RedBlackTree(shape) && Inorder(shape) == old(Inorder(shape))
      ensures nil.color == BLACK
    {
      hide Plug, Nodes, PathNodes, Distinct, PathDistinct, Inorder, Shaped;
      hide NoRedRed, PathNoRedRed, Balanced, PathBalanced, BlackHeight, RedBlackTree, DeletePending;
      var node := x;
      ghost var p, t := p0, t0;
      LookUp(p, t);
      Look(p, t);
      while node != root && node.color == BLACK
        invariant Shaped() && shape == Plug(p, t) && Inorder(shape) == old(Inorder(shape))
        invariant DeletePending(p, t) && node == Ptr(t, rim) && nil.color == BLACK
        invariant t.Leaf? && p != Top ==> nil.parent == p.node
        invariant (t.Branch? ==> node.color == Color(t.red) && node.parent == Parent(p, rim)) && (p.Top? <==> node == root)
        decreases Depth(p), if IsRed(t) then 0 else 1
      {
        node, p, t := DeleteStep(node, p, t);
        LookUp(p, t);
        Look(p, t);
      }
      LookUp(p, t);
      Look(p, t);
      DeleteDone(p, t);
      if node == nil {
        node.color := BLACK;
      } else {
        Paint(node, false, p, t);
      }
    }

    /** Takes `temp`, which has at most one child, out of its place. */
    method Unlink(temp: Node, subst: Node, node: Node, ghost p: Path<Node>, ghost t: Tree<Node>)
      requires Shaped() && shape == Plug(p, t) && p != Top
      requires t.Branch? && t.node == temp && (t.left.Leaf? || t.right.Leaf?) && subst == Ptr(Rest(t), rim)
      modifies nil`parent, nodes
      ensures var up := if p.node == node then temp else p.node;
        FitsPath(p, subst, rim) && Fits(Rest(t), up, rim) && (Rest(t).Leaf? ==> nil.parent == up)
    {
      hide CellOf, PathCellOf, Nodes, PathNodes, Plug, Distinct, PathDistinct, Inorder;
      Unzip(p, t);
      BranchApart(t, Parent(p, rim), rim);
      if temp.parent == node {
        subst.parent := temp;
      } else {
        subst.parent := temp.parent;
      }
      RelinkChild(temp, subst, p);
      ghost var up := if p.node == node then temp else p.node;
      forall n | n in Nodes(Rest(t)) ensures Holds(n, CellOf(Rest(t), up, rim, n)) {
        SpliceInside(t, Parent(p, rim), up, rim, n);
      }
    }

    /** Sets the parent link of a child, if it is real. */
    method Adopt(child: Node, parent: Node, ghost t: Tree<Node>, ghost was: Node)
      requires Fits(t, was, rim) && child == Ptr(t, rim) && rim.nil == nil && nil !in Nodes(t)
      modifies Nodes(t)
      ensures Fits(t, parent, rim)
    {
      hide CellOf;
      if child != nil {
        child.parent := parent;
      }
      forall n | n in Nodes(t) ensures Holds(n, CellOf(t, parent, rim, n)) {
        Reparent(t, was, parent, rim, n);
      }
    }

    /** A root and two subtrees that the heap holds make a tree that it holds. */
    lemma Join3(l: Tree<Node>, temp: Node, red: bool, r: Tree<Node>, parent: Node)
      requires Distinct(Branch(l, temp, red, r)) && Fits(l, temp, rim) && Fits(r, temp, rim)
      requires Holds(temp, Cell(Ptr(l, rim), Ptr(r, rim), parent, red))
      ensures Fits(Branch(l, temp, red, r), parent, rim)
    {
      hide CellOf, Nodes, Distinct;
      ghost var t := Branch(l, temp, red, r);
      BranchApart(t, parent, rim);
      forall n | n in Nodes(t) ensures Holds(n, CellOf(t, parent, rim, n)) {
      }
    }

    /** `temp` takes over the children and the colour of `node`. */
    method TakeChildren(node: Node, temp: Node, ghost l: Tree<Node>, ghost r: Tree<Node>, ghost red: bool, ghost parent: Node, ghost was: Node)
      requires var t := Branch(l, temp, red, r); Distinct(t) && node !in Nodes(t) && nil !in Nodes(t)
      requires node != nil && rim.nil == nil && Nodes(l) <= nodes && Nodes(r) <= nodes
      requires temp.parent == parent
      requires node.left == Ptr(l, rim) && node.right == Ptr(r, rim) && node.color == Color(red)
      requires Fits(l, node, rim) && Fits(r, was, rim)
      modifies temp, Nodes(l), Nodes(r)
      ensures Fits(Branch(l, temp, red, r), parent, rim)
    {
      hide CellOf, Nodes, Distinct, Fits;
      BranchParts(Branch(l, temp, red, r));
      temp.right := node.right;
      temp.left := node.left;
      Adopt(temp.left, temp, l, node);
      Adopt(temp.right, temp, r, was);
      temp.color := node.color;
      Join3(l, temp, red, r, parent);
    }

    /** `temp` takes the place of `node`, whose children hang from `node` and from `was`. */
    method TakePlace(node: Node, temp: Node, ghost p: Path<Node>, ghost l: Tree<Node>, ghost r: Tree<Node>, ghost red: bool, ghost was: Node)
      requires FitsPath(p, node, rim) && PathDistinct(p) && node !in PathNodes(p)
      requires root == if p.Top? then node else RootOf(p)
      requires var t := Branch(l, temp, red, r); Distinct(t) && PathNodes(p) !! Nodes(t) && node !in Nodes(t) && nil !in Nodes(t)
      requires node != nil && rim.nil == nil
      requires Nodes(l) <= nodes && Nodes(r) <= nodes && PathNodes(p) <= nodes
      requires Holds(node, Cell(Ptr(l, rim), Ptr(r, rim), Parent(p, rim), red))
      requires Fits(l, node, rim) && Fits(r, was, rim)
      modifies this`root, temp, PathNodes(p), Nodes(l), Nodes(r)
      ensures FitsPath(p, temp, rim) && Fits(Branch(l, temp, red, r), Parent(p, rim), rim)
      ensures root == if p.Top? then temp else RootOf(p)
    {
      hide CellOf, PathCellOf, Nodes, PathNodes, Plug, Distinct, PathDistinct, Inorder, Fits, FitsPath;
      BranchParts(Branch(l, temp, red, r));
      if p != Top {
        LastIsNode(p);
      }
      temp.parent := node.parent;
      Relink(node, temp, p);
      TakeChildren(node, temp, l, r, red, Parent(p, rim), was);
    }

    /** The leftmost node of a subtree. */
    method SubtreeMin(x: Node, ghost p: Path<Node>, ghost t: Tree<Node>)
      returns (m: Node, ghost q: Path<Node>, ghost s: Tree<Node>)
      requires Shaped() && shape == Plug(p, t) && t.Branch? && t.node == x
      ensures LeftSpine(q) && Plug(q, s) == t && s.Branch? && s.left.Leaf? && s.node == m
    {
      hide Nodes, PathNodes, Distinct, PathDistinct, Inorder;
      m, q, s := x, Top, t;
      PlugOver(q, p, s);
      Look(Over(q, p), s);
      while m.left != nil
        invariant LeftSpine(q) && Plug(q, s) == t && s.Branch? && s.node == m
        invariant m.left == Ptr(s.left, rim) && rim.nil == nil && (s.left.Branch? ==> s.left.node in nodes) && nil !in nodes
        decreases s
      {
        m, q, s := m.left, InLeft(q, s.node, s.red, s.right), s.left;
        PlugOver(q, p, s);
        Look(Over(q, p), s);
      }
    }

    method Clear(node: Node)
      requires Shaped() && node !in nodes
      modifies node`left, node`right, node`parent
      ensures Shaped() && node.left == null && node.right == null && node.parent == null
    {
      node.left := null;
      node.right := null;
      node.parent := null;
    }

    /** The root, with at most one child: the shortcut that leaves the new root's parent link as it is. */
    method DeleteRoot(node: Node, subst: Node, ghost t: Tree<Node>)
      requires Shaped() && shape == t && RedBlackTree(t)
      requires t.Branch? && t.node == node && root == node && (t.left.Leaf? || t.right.Leaf?) && subst == Ptr(Rest(t), rim)
      modifies this`root, this`shape, this`nodes, this`rim, nodes, nil`color
      ensures Shaped() && RedBlackTree(shape)
      ensures Inorder(shape) == Without(old(Inorder(shape)), node)
      ensures nodes == old(nodes) - {node} && rim == Rim(nil, node) && |Inorder(shape)| <= 1
      ensures nil.color == if subst == nil then BLACK else old(nil.color)
      ensures node.left == null && node.right == null && node.parent == null && node.color == old(node.color)
    {
      hide CellOf, PathCellOf, Nodes, PathNodes, Plug, Distinct, PathDistinct, Inorder;
      PlugTop(t);
      PlugTop(Rest(t));
      Unzip(Top, t);
      BranchApart(t, rim.outer, rim);
      SpliceNodes(Top, t);
      SpliceInorder(Top, t);
      SpliceBlack(Top, t);
      FewNodes(t);
      ghost var s, s', rim' := Rest(t), Blacken(Rest(t)), Rim(nil, node);
      if s.Branch? {
        PaintInside(s, false, node, rim');
      }
      root := subst;
      subst.color := BLACK;
      forall n | n in Nodes(s') ensures Holds(n, CellOf(s', node, rim', n)) {
        SpliceInside(t, rim.outer, node, rim, n);
        CellRim(s, node, rim, node, n);
      }
      shape, nodes, rim := s', nodes - {node}, rim';
      Clear(node);
    }

    /** A node below the root with at most one child: the child takes its place. */
    method RemoveHere(node: Node, subst: Node, ghost p: Path<Node>, ghost t: Tree<Node>)
      requires Shaped() && shape == Plug(p, t)
      requires p != Top && t.Branch? && t.node == node && (t.left.Leaf? || t.right.Leaf?) && subst == Ptr(Rest(t), rim)
      modifies this`root, this`shape, this`nodes, nodes, nil`parent
      ensures Shaped() && shape == Plug(p, Rest(t)) && nodes == old(nodes) - {node}
      ensures Rest(t).Leaf? ==> nil.parent == p.node
      ensures node.left == null && node.right == null && node.parent == null
    {
      hide CellOf, PathCellOf, Nodes, PathNodes, Plug, Distinct, PathDistinct, Inorder;
      Unzip(p, t);
      RemoveHereApart(p, t);
      Unlink(node, subst, node, p, t);
      shape, nodes := Plug(p, Rest(t)), nodes - {node};
      Zip(p, Rest(t));
      Clear(node);
    }

    /** The end of a deletion. */
    method Rebalance(isblack: bool, subst: Node, ghost p: Path<Node>, ghost t: Tree<Node>)
      requires Shaped() && shape == Plug(p, t) && subst == Ptr(t, rim) && nil.color == BLACK
      requires if isblack then DeletePending(p, t) else RedBlackTree(shape)
      requires t.Leaf? && p != Top ==> nil.parent == p.node
      modifies this`root, this`shape, nodes, nil`color
      ensures Shaped() && RedBlackTree(shape) && Inorder(shape) == old(Inorder(shape)) && nil.color == BLACK
    {
      if isblack {
        DeleteFixup(subst, p, t);
      }
    }

    method DeleteHere(node: Node, subst: Node, ghost p: Path<Node>, ghost t: Tree<Node>)
      requires Shaped() && shape == Plug(p, t) && RedBlackTree(shape) && nil.color == BLACK
      requires p != Top && t.Branch? && t.node == node && (t.left.Leaf? || t.right.Leaf?) && subst == Ptr(Rest(t), rim)
      modifies this`root, this`shape, this`nodes, nodes, nil`parent, nil`color
      ensures Shaped() && RedBlackTree(shape) && nil.color == BLACK
      ensures Inorder(shape) == Without(old(Inorder(shape)), node) && nodes == old(nodes) - {node}
      ensures node.left == null && node.right == null && node.parent == null
    {
      hide Nodes, PathNodes, Plug, Distinct, PathDistinct, Inorder, Shaped;
      hide NoRedRed, PathNoRedRed, Balanced, PathBalanced, BlackHeight, RedBlackTree, DeletePending, Without;
      Look(p, t);
      LookUp(p, t);
      var isblack := node.color == BLACK;
      if isblack {
        SpliceBlack(p, t);
      } else {
        SpliceRed(p, t);
      }
      StillDistinct();
      SpliceInorder(p, t);
      RemoveHere(node, subst, p, t);
      Rebalance(isblack, subst, p, Rest(t));
    }

    lemma StillDistinct()
      requires Shaped()
      ensures Distinct(shape)
    {
    }

    /** The first node of the right subtree is taken out of its place. */
    method UnlinkMin(node: Node, temp: Node, subst: Node, ghost p: Path<Node>, ghost t: Tree<Node>, ghost q: Path<Node>, ghost s: Tree<Node>)
      requires Shaped() && shape == Plug(p, t) && t.Branch? && t.node == node && t.right == Plug(q, s)
      requires s.Branch? && s.left.Leaf? && s.node == temp && subst == Ptr(s.right, rim)
      modifies nil`parent, nodes, this`shape, this`nodes
      ensures var outer, r := InRight(p, t.left, node, t.red), Plug(q, s.right);
        && FitsPath(outer, Ptr(r, rim), rim) && Fits(r, if q.Top? then temp else node, rim)
        && (s.right.Leaf? ==> nil.parent == if q.Top? then temp else q.node)
      ensures nodes == old(nodes) - {temp}
    {
      hide CellOf, PathCellOf, Nodes, PathNodes, Plug, Distinct, PathDistinct, Inorder;
      ghost var outer := InRight(p, t.left, node, t.red);
      ghost var path := Over(q, outer);
      UnlinkMinApart(p, t, q, s);
      Unlink(temp, subst, node, path, s);
      shape, nodes := Plug(path, s.right), nodes - {temp};
      if q != Top {
        PlugRoot(path, s);
        PlugRoot(path, s.right);
        Zip(path, s.right);
        Unzip(outer, Plug(q, s.right));
      } else {
        PlugTop(s.right);
      }
    }

    lemma RootAt(p: Path<Node>, t: Tree<Node>)
      requires Shaped() && shape == Plug(p, t)
      ensures root == if p.Top? then Ptr(t, rim) else RootOf(p)
      ensures rim.nil == nil && nil !in nodes && nodes == Nodes(shape) && Distinct(shape)
    {
      Unzip(p, t);
    }

    /** What the path to the right subtree says of the node above it. */
    lemma OpenPath(p: Path<Node>, hole: Node)
      requires p.InRight? && PathDistinct(p) && FitsPath(p, hole, rim) && PathNodes(p) <= nodes
      ensures FitsPath(p.up, p.node, rim) && Fits(p.left, p.node, rim)
      ensures Holds(p.node, Cell(Ptr(p.left, rim), hole, Parent(p.up, rim), p.red))
      ensures PathNodes(p.up) <= nodes && Nodes(p.left) <= nodes
    {
      hide CellOf, PathCellOf, Nodes, PathNodes, Distinct, PathDistinct;
      PathApart(p, hole, rim);
    }

    /** A node with two children: the first node of its right subtree takes its place. */
    method RemoveInner(node: Node, temp: Node, subst: Node, ghost p: Path<Node>, ghost t: Tree<Node>, ghost q: Path<Node>, ghost s: Tree<Node>)
      requires Shaped() && shape == Plug(p, t) && t.Branch? && t.node == node && t.right == Plug(q, s)
      requires s.Branch? && s.left.Leaf? && s.node == temp && subst == Ptr(s.right, rim)
      modifies nil`parent, nodes, this`shape, this`nodes, this`root
      ensures Shaped() && shape == Plug(p, Branch(t.left, temp, t.red, Plug(q, s.right)))
      ensures s.right.Leaf? ==> nil.parent == if q.Top? then temp else q.node
      ensures nodes == old(nodes) - {node}
      ensures node.left == null && node.right == null && node.parent == null
    {
      hide CellOf, PathCellOf, Nodes, PathNodes, Plug, Distinct, PathDistinct, Inorder, Shaped, Fits, FitsPath;
      ghost var outer, r := InRight(p, t.left, node, t.red), Plug(q, s.right);
      ghost var t' := Branch(t.left, temp, t.red, r);
      ghost var all := nodes;
      RootAt(p, t);
      Unzip(p, t);
      Look(p, t);
      RemoveInnerApart(p, t, q, s);
      UnlinkMin(node, temp, subst, p, t, q, s);
      nodes := all;
      OpenPath(outer, Ptr(r, rim));
      TakePlace(node, temp, p, t.left, r, t.red, if q.Top? then temp else node);
      shape, nodes := Plug(p, t'), all - {node};
      Zip(p, t');
      Clear(node);
    }

    method DeleteInner(node: Node, temp: Node, subst: Node, ghost p: Path<Node>, ghost t: Tree<Node>, ghost q: Path<Node>, ghost s: Tree<Node>)
      requires Shaped() && shape == Plug(p, t) && t.Branch? && t.node == node && t.right == Plug(q, s)
      requires RedBlackTree(shape) && nil.color == BLACK && LeftSpine(q)
      requires s.Branch? && s.left.Leaf? && s.node == temp && subst == Ptr(s.right, rim) && temp.color == Color(s.red)
      modifies this`root, this`shape, this`nodes, nodes, nil`parent, nil`color
      ensures Shaped() && RedBlackTree(shape) && nil.color == BLACK
      ensures Inorder(shape) == Without(old(Inorder(shape)), node) && nodes == old(nodes) - {node}
      ensures node.left == null && node.right == null && node.parent == null
    {
      hide Nodes, PathNodes, Plug, Distinct, PathDistinct, Inorder, Shaped, Over, LeftSpine;
      hide NoRedRed, PathNoRedRed, Balanced, PathBalanced, BlackHeight, RedBlackTree, DeletePending, Without;
      LookUp(p, t);
      StillDistinct();
      var isblack := temp.color == BLACK;
      SubstituteRedBlack(p, t, q, s);
      SubstituteInorder(p, t, q, s);
      RemoveInner(node, temp, subst, p, t, q, s);
      OverTop(InRight(p, t.left, temp, t.red));
      OverLast(q, InRight(p, t.left, temp, t.red));
      Rebalance(isblack, subst, Over(q, InRight(p, t.left, temp, t.red)), s.right);
    }

    // ----- the tree -----

    ghost predicate Valid()
      reads this, nodes, nil
    {
      && Shaped() && RedBlackTree(shape) && Sorted(Inorder(shape))
      && nil.color == BLACK
      && size == |Inorder(shape)| % UINT_RANGE
    }

    /** What the invariants say of the links, keys and colours of one node. */
    lemma Neighbours(n: Node)
      requires Valid() && n in nodes
      ensures n.left != null && n.right != null && n.parent != null && root in nodes && root.color == BLACK == nil.color
      ensures n.left != nil ==> n.left in nodes && n.left.parent == n && n.left.key <= n.key
      ensures n.right != nil ==> n.right in nodes && n.right.parent == n && n.key <= n.right.key
      ensures n.color == RED ==> n.left.color == BLACK && n.right.color == BLACK
      ensures n != root ==> n.parent in nodes && (n == n.parent.left || n == n.parent.right)
    {
      hide Nodes, PathNodes, Distinct, PathDistinct, Inorder, Plug, Shaped, Sorted, Balanced, NoRedRed,
        RedBlackTree, PathNoRedRed, PathBalanced;
      ShapedNodes();
      var p, t := Locate(Top, shape, n);
      PlugTop(shape);
      Look(p, t);
      LookUp(p, t);
      SortedAt(p, t);
      ColoursAt(p, t);
      if t.left.Branch? {
        PlugStep(InLeft(p, t.node, t.red, t.right), t.left);
        Look(InLeft(p, t.node, t.red, t.right), t.left);
        RootInorder(t.left);
      }
      if t.right.Branch? {
        PlugStep(InRight(p, t.left, t.node, t.red), t.right);
        Look(InRight(p, t.left, t.node, t.red), t.right);
        RootInorder(t.right);
      }
      EmptyTree();
      RootOnly();
      ColoursAt(Top, shape);
      Look(Top, shape);
    }

    lemma ShapedNodes()
      requires Shaped()
      ensures nodes == Nodes(shape)
    {
    }

    lemma ColoursAt(p: Path<Node>, t: Tree<Node>)
      requires RedBlackTree(shape) && shape == Plug(p, t) && t.Branch?
      ensures t.red ==> !IsRed(t.left) && !IsRed(t.right)
      ensures p == Top ==> !t.red
    {
      PlugRedBlack(p, t);
      PlugTop(t);
    }

    /** The in-order sequence holds the nodes of the tree with ascending keys, and their number is the size. */
    lemma InAscendingOrder()
      requires Valid()
      ensures forall i, j :: 0 <= i < j < |Inorder(shape)| ==> Inorder(shape)[i].key <= Inorder(shape)[j].key
      ensures forall n :: n in nodes <==> n in Inorder(shape)
      ensures |Inorder(shape)| < 0x1_0000_0000 ==> size == |Inorder(shape)|
    {
      hide Inorder, Nodes, RedBlackTree;
      ShapedNodes();
      forall n ensures n in nodes <==> n in Inorder(shape) {
        NodeIsInorder(shape, n);
      }
    }

    /** The root's parent link is the sentinel: no removed node is referred to. */
    ghost predicate Settled()
      reads this`root, this`rim
    {
      root == nil || rim.outer == nil
    }

    /** `malloc` hands back the memory that the root's parent link refers to: from now on the
        link refers to the new node. */
    method Reuse(node: Node)
      requires Shaped() && root != nil && rim.outer !in nodes && node !in nodes && node != nil
      modifies this`rim, root`parent
      ensures Shaped() && rim == Rim(nil, node) && (old(Valid()) ==> Valid())
    {
      hide CellOf, Nodes, Distinct, Inorder;
      ghost var rim' := Rim(nil, node);
      RootOnly();
      root.parent := node;
      forall n | n in Nodes(shape) ensures Holds(n, CellOf(shape, node, rim', n)) {
        CellRim(shape, node, rim, node, n);
        Reparent(shape, rim.outer, node, rim, n);
      }
      rim := rim';
    }

    /** What the root's parent link is. */
    lemma RootParent()
      requires Shaped()
      ensures root != nil ==> root in nodes && root.parent == rim.outer
    {
      if root != nil {
        RootOnly();
        PlugTop(shape);
        Look(Top, shape);
      }
    }

    /** A node that is not the one the root's parent link refers to can be inserted. */
    lemma QuietInserts(node: Node)
      requires Valid() && Quiet() && (Settled() || rim.outer != node)
      ensures Insertable(node) && !TipsAt(node.key)
    {
      RootParent();
      hide ReachesRoot;
      assert root == nil ==> PlaceOf(Top, shape, node.key) == Top;
    }

    lemma RootIs()
      requires Shaped()
      ensures root == Ptr(shape, rim) && (shape.Branch? ==> root != nil)
    {
      if shape.Branch? {
        RootIsNode(shape);
      }
    }

    lemma RootOnly()
      requires Shaped() && root != nil
      ensures shape.Branch? && root == shape.node && root in nodes
    {
      EmptyTree();
      RootIsNode(shape);
    }

    method DeleteSingle(node: Node, subst: Node, ghost p: Path<Node>, ghost t: Tree<Node>)
      requires Shaped() && shape == Plug(p, t) && RedBlackTree(shape) && nil.color == BLACK
      requires t.Branch? && t.node == node && (t.left.Leaf? || t.right.Leaf?) && subst == Ptr(Rest(t), rim)
      modifies this`root, this`shape, this`nodes, this`rim, nodes, nil`parent, nil`color
      ensures Shaped() && RedBlackTree(shape) && nil.color == BLACK
      ensures Inorder(shape) == Without(old(Inorder(shape)), node) && nodes == old(nodes) - {node}
      ensures node.left == null && node.right == null && node.parent == null
      ensures rim.outer == if old(root) == node then node else old(rim.outer)
      ensures old(root) == node ==> rim.outer.color == BLACK
    {
      hide Nodes, PathNodes, Plug, Distinct, PathDistinct, Inorder, Shaped;
      hide NoRedRed, PathNoRedRed, Balanced, PathBalanced, BlackHeight, DeletePending, Without;
      Look(p, t);
      LookUp(p, t);
      if node == root {
        PlugTop(t);
        DeleteRoot(node, subst, t);
      } else {
        DeleteHere(node, subst, p, t);
      }
    }

    /** Finds the place that becomes empty, and empties it. */
    method DeleteNode(node: Node, ghost p: Path<Node>, ghost t: Tree<Node>)
      requires Shaped() && shape == Plug(p, t) && RedBlackTree(shape) && nil.color == BLACK
      requires t.Branch? && t.node == node
      modifies this`root, this`shape, this`nodes, this`rim, nodes, nil`parent, nil`color
      ensures Shaped() && RedBlackTree(shape) && nil.color == BLACK
      ensures Inorder(shape) == Without(old(Inorder(shape)), node) && nodes == old(nodes) - {node}
      ensures node.left == null && node.right == null && node.parent == null
      ensures rim.outer == if old(node == root && (node.left == nil || node.right == nil)) then node else old(rim.outer)
      ensures rim.outer == old(rim.outer) || rim.outer.color == BLACK
    {
      hide Nodes, PathNodes, Plug, Distinct, PathDistinct, Inorder, Shaped, Over, LeftSpine;
      hide NoRedRed, PathNoRedRed, Balanced, PathBalanced, BlackHeight, RedBlackTree, DeletePending, Without;
      Look(p, t);
      LookUp(p, t);
      ghost var right := InRight(p, t.left, t.node, t.red);
      if node.left == nil {
        DeleteSingle(node, node.right, p, t);
      } else if node.right == nil {
        DeleteSingle(node, node.left, p, t);
      } else {
        PlugStep(right, t.right);
        var temp;
        ghost var q, s;
        temp, q, s := SubtreeMin(node.right, right, t.right);
        PlugOver(q, right, s);
        Look(Over(q, right), s);
        var subst := temp.right;
        if temp.left != nil {
          assert false;  // the leftmost node has no left child
        }
        DeleteInner(node, temp, subst, p, t, q, s);
      }
    }

    /** `util_rbtree_delete` */
    method Delete(node: Node)
      requires Valid() && (node in nodes || node == nil)
      modifies this, nodes, nil
      ensures Valid() && nodes == old(nodes) - {node}
      ensures Inorder(shape) == Without(old(Inorder(shape)), node)
      ensures node != nil ==> node.left == null && node.right == null && node.parent == null
      ensures node != nil ==> size == (old(size) + UINT_RANGE - 1) % UINT_RANGE
      // The shortcut for the root is the only place where the root's parent link goes stale.
      ensures rim.outer == if old(node == root && node != nil && |Inorder(shape)| <= 2) then node else old(rim.outer)
      // It stays in the tree that is left only when the root of a tree of two nodes goes.
      ensures Settled() <==> root == nil || (old(Settled()) && !old(node == root && |Inorder(shape)| == 2))
      ensures old(Quiet()) ==> Quiet()
    {
      hide Nodes, PathNodes, Plug, Distinct, PathDistinct, Inorder, RedBlackTree, Without, Shaped, Sorted;
      WithoutNode(node);
      Outside();
      if node == nil {
        return;
      }
      SizeLess(size, |Inorder(shape)|);
      RootCounts();
      size := (size + UINT_RANGE - 1) % UINT_RANGE;
      ghost var p, t := Locate(Top, shape, node);
      PlugTop(shape);
      DeleteNode(node, p, t);
      Outside();
    }

    /** What the number of nodes says of the root's children. */
    lemma RootCounts()
      requires Shaped() && RedBlackTree(shape) && root != nil
      ensures root.left == nil || root.right == nil <==> |Inorder(shape)| <= 2
      ensures root in nodes
    {
      RootOnly();
      PlugTop(shape);
      Look(Top, shape);
      if shape.left.Leaf? || shape.right.Leaf? {
        FewNodes(shape);
      } else {
        assert |Inorder(shape)| >= 3;
      }
    }

    lemma Outside()
      requires Shaped()
      ensures nil !in nodes && nodes == Nodes(shape)
      ensures nodes == {} <==> Inorder(shape) == []
      ensures root == nil <==> nodes == {}
      ensures root != nil ==> root in nodes
    {
      EmptyTree();
    }

    lemma Single()
      requires Valid() && |Inorder(shape)| == 1
      ensures root == shape.node && root in nodes && root != nil && shape == Branch(Leaf, root, false, Leaf)
    {
      RootOnly();
      assert shape.left.Leaf? && shape.right.Leaf?;
    }

    /** What callers need of a valid tree. */
    lemma ValidOutside()
      requires Valid()
      ensures Shaped() && nil !in nodes && nil.color == BLACK
      ensures (root == nil <==> nodes == {}) && (root == nil <==> Inorder(shape) == [])
      ensures root != nil ==> root in nodes && root.parent == rim.outer
    {
      Outside();
      RootParent();
    }

    lemma ValidWithout(node: Node)
      requires Valid() && node in nodes
      ensures |Without(Inorder(shape), node)| == |Inorder(shape)| - 1 && node != nil
    {
      WithoutNode(node);
    }

    lemma SizeLess(size: int, n: nat)
      requires size == n % UINT_RANGE
      ensures n > 0 ==> (size + UINT_RANGE - 1) % UINT_RANGE == (n - 1) % UINT_RANGE
    {
    }

    lemma SizeMore(size: int, n: nat)
      requires size == n % UINT_RANGE
      ensures (size + 1) % UINT_RANGE == (n + 1) % UINT_RANGE
    {
    }

    lemma WithoutNode(node: Node)
      requires Shaped() && Sorted(Inorder(shape))
      ensures node in nodes ==>
        && |Without(Inorder(shape), node)| == |Inorder(shape)| - 1
        && Sorted(Without(Inorder(shape), node))
      ensures node !in nodes ==> Without(Inorder(shape), node) == Inorder(shape) && nodes - {node} == nodes
    {
      NodeIsInorder(shape, node);
      if node in nodes {
        var i := WithoutAt(Inorder(shape), node);
      } else {
        WithoutNone(Inorder(shape), node);
      }
    }

    /** The empty place where a key belongs, after all keys that are not greater. */
    method Descend(key: int) returns (y: Node, ghost p: Path<Node>)
      requires Valid() && root != nil
      ensures shape == Plug(p, Leaf) && p != Top && p.node == y && y in nodes
      ensures p == PlaceOf(Top, shape, key)
      ensures p.InLeft? <==> key < y.key
      ensures AllLeq(Before(p), key) && AllGreater(After(p), key)
    {
      hide Nodes, PathNodes, Distinct, PathDistinct, Inorder, RedBlackTree, Before, After;
      var x := root;
      y := root;
      ghost var t := shape;
      p := Top;
      assert AllLeq(Before(p), key) && AllGreater(After(p), key) by { BesideTop(key); }
      Look(p, t);
      while x != nil
        invariant Shaped() && shape == Plug(p, t) && x == Ptr(t, rim) && rim.nil == nil && nil !in nodes
        invariant Sorted(Inorder(shape)) && PlaceOf(p, t, key) == PlaceOf(Top, shape, key)
        invariant t.Branch? ==> x in nodes && x.left == Ptr(t.left, rim) && x.right == Ptr(t.right, rim)
        invariant p != Top ==> p.node == y && y in nodes && (p.InLeft? <==> key < y.key)
        invariant p.Top? ==> t.Branch?
        invariant AllLeq(Before(p), key) && AllGreater(After(p), key)
        decreases t
      {
        DescendStep(p, t, key);
        y := x;
        if key < x.key {
          x := x.left;
          p, t := InLeft(p, t.node, t.red, t.right), t.left;
        } else {
          x := x.right;
          p, t := InRight(p, t.left, t.node, t.red), t.right;
        }
        Look(p, t);
      }
    }

    /** Fills the child link at the end of `p`. */
    method Fill(node: Node, y: Node, ghost p: Path<Node>, ghost hole: Node)
      requires FitsPath(p, hole, rim) && PathDistinct(p) && p != Top && p.node == y
      requires p.InLeft? <==> node.key < y.key
      modifies y`left, y`right
      ensures FitsPath(p, node, rim)
    {
      if node.key < y.key {
        y.left := node;
      } else {
        y.right := node;
      }
    }

    /** Hangs a red node at an empty place below `y`. */
    method Attach(node: Node, y: Node, ghost p: Path<Node>)
      requires Shaped() && shape == Plug(p, Leaf) && p != Top && p.node == y
      requires node !in nodes && node != nil
      requires p.InLeft? <==> node.key < y.key
      modifies this`shape, this`nodes, node`left, node`right, node`parent, node`color, y`left, y`right
      ensures Shaped() && shape == Plug(p, Branch(Leaf, node, true, Leaf)) && nodes == old(nodes) + {node}
    {
      hide PathNodes, Plug, PathDistinct, Inorder, PathCellOf, Distinct, Nodes, CellOf;
      ghost var t := Branch(Leaf, node, true, Leaf);
      Unzip(p, Leaf);
      AttachApart(p, node, y, rim);
      node.parent := y;
      Fill(node, y, p, nil);
      node.left := nil;
      node.right := nil;
      node.color := RED;
      shape, nodes := Plug(p, t), nodes + {node};
      Zip(p, t);
    }

    method AttachRoot(node: Node)
      requires Shaped() && root == nil && node != nil
      modifies this`root, this`shape, this`nodes, this`rim, node`left, node`right, node`parent, node`color
      ensures Shaped() && shape == Branch(Leaf, node, true, Leaf) && nodes == {node} && rim == Rim(nil, nil)
    {
      EmptyTree();
      root := node;
      node.parent := nil;
      node.left := nil;
      node.right := nil;
      node.color := RED;
      shape, nodes, rim := Branch(Leaf, node, true, Leaf), {node}, Rim(nil, nil);
    }

    lemma EmptyTree()
      requires Shaped()
      ensures root == nil <==> shape == Leaf
      ensures root == nil ==> nodes == {} && Inorder(shape) == []
    {
      if shape.Branch? {
        RootIsNode(shape);
      }
    }

    /** Puts a red node where it belongs. */
    method InsertLeaf(node: Node) returns (ghost p: Path<Node>)
      requires Valid() && node !in nodes && node != nil
      modifies this`root, this`shape, this`nodes, this`rim, nodes, node
      ensures Shaped() && shape == Plug(p, Branch(Leaf, node, true, Leaf)) && old(shape) == Plug(p, Leaf)
      ensures p == PlaceOf(Top, old(shape), node.key) && (p == Top <==> old(root) == nil)
      ensures AllLeq(Before(p), node.key) && AllGreater(After(p), node.key)
      ensures nodes == old(nodes) + {node}
      ensures rim.outer == if old(root) == nil then nil else old(rim.outer)
      ensures root == if old(root) == nil then node else old(root)
    {
      hide Nodes, PathNodes, Plug, Distinct, PathDistinct, Inorder, RedBlackTree, Before, After;
      EmptyTree();
      if root == nil {
        p := Top;
        BesideTop(node.key);
        PlugTop(shape);
        AttachRoot(node);
        PlugTop(shape);
      } else {
        var y;
        y, p := Descend(node.key);
        Attach(node, y, p);
      }
    }

    /** What the root's parent link refers to is in the tree, or will be, or is black; or the
        repair does not climb to the root.  Otherwise the loop would take a released node for
        the parent of the root and follow its cleared links. */
    ghost predicate Insertable(node: Node)
      reads this`root, this`rim, this`shape, this`nodes, rim.outer`color
    {
      root == nil || rim.outer in nodes + {node} || Quiet() || !ReachesRoot(PlaceOf(Top, shape, node.key))
    }

    /** Inserting the key makes the repair climb to a root whose parent link refers to itself. */
    ghost predicate TipsAt(key: int)
      reads this`root, this`rim, this`shape
    {
      Tips(PlaceOf(Top, shape, key), root)
    }

    /** The repair does not come to look at what the root's parent link refers to, or only to
        find it black. */
    ghost predicate Undisturbed(node: Node)
      reads this`root, this`rim, this`shape, this`nodes, rim.outer`color
    {
      root == nil || (Quiet() && rim.outer != node) || !ReachesRoot(PlaceOf(Top, shape, node.key))
    }

    /** With a settled link any node can be inserted, whatever memory it has. */
    lemma SettledInserts(node: Node)
      requires Valid() && Settled() && node != nil
      ensures Insertable(node) && Undisturbed(node) && !TipsAt(node.key)
    {
      Outside();
      hide ReachesRoot;
      assert root == nil ==> PlaceOf(Top, shape, node.key) == Top;
    }

    /** Puts a node in its place and restores the colours. */
    method InsertNode(node: Node)
      requires Valid() && node !in nodes && node != nil && Insertable(node)
      modifies this`root, this`shape, this`nodes, this`rim, nodes, node
      ensures Shaped() && nodes == old(nodes) + {node}
      ensures if old(TipsAt(node.key)) then !Balanced(shape) else RedBlackTree(shape)
      ensures old(Undisturbed(node)) ==> shape == InsertFixed(PlaceOf(Top, old(shape), node.key), Branch(Leaf, node, true, Leaf))
      ensures Inorder(shape) == Inserted(old(Inorder(shape)), node) && Sorted(Inorder(shape))
      ensures |Inorder(shape)| == |old(Inorder(shape))| + 1
      ensures rim.outer == if old(root) == nil then nil else old(rim.outer)
      ensures nil.color == BLACK
    {
      hide Nodes, PathNodes, Plug, Distinct, PathDistinct, Inorder, Inserted, Sorted, RedBlackTree,
        InsertPending, Balanced, ReachesRoot, InsertFixed;
      ghost var p := InsertLeaf(node);
      InsertFresh(p, node, old(shape));
      LookUp(p, Branch(Leaf, node, true, Leaf));
      InsertFixup(node, p);
    }

    /** `util_rbtree_insert`.  The tree is broken exactly when the root's parent link has come to
        refer to the root itself and the repair climbs there. */
    method Insert(node: Node)
      requires Valid() && node !in nodes && (node == nil || Insertable(node))
      modifies this, nodes, node
      ensures Shaped() && Sorted(Inorder(shape))
      ensures if old(node != nil && TipsAt(node.key)) then !Balanced(shape) else Valid()
      ensures old(node != nil && Undisturbed(node)) ==>
        shape == InsertFixed(PlaceOf(Top, old(shape), node.key), Branch(Leaf, node, true, Leaf))
      ensures node != nil ==> nodes == old(nodes) + {node}
      ensures node != nil ==> Inorder(shape) == Inserted(old(Inorder(shape)), node) && size == (old(size) + 1) % UINT_RANGE
      ensures node == nil ==> nodes == old(nodes) && Inorder(shape) == old(Inorder(shape))
      ensures rim.outer == if node != nil && old(root) == nil then nil else old(rim.outer)
      ensures old(Settled()) ==> Settled() && (node != nil ==> Quiet())
      ensures old(Quiet()) && old(rim.outer) != node ==> Quiet()
    {
      hide Nodes, Distinct, Inorder, RedBlackTree, Inserted, Balanced, ReachesRoot, InsertFixed, Shaped, Sorted,
        PlaceOf;
      if node == nil {
        return;
      }
      SizeMore(size, |Inorder(shape)|);
      InsertNode(node);
      size := (size + 1) % UINT_RANGE;
      Outside();
    }

    // ----- queries -----

    /** At most two levels for each power of two of nodes. */
    lemma CostBound()
      requires RedBlackTree(shape)
      ensures Height(shape) <= 2 * BlackHeight(shape)
      ensures Power2(BlackHeight(shape)) <= |Inorder(shape)| + 1
    {
      HeightBound(shape);
    }

    /** `util_rbtree_search` */
    method Search(key: int) returns (r: Node?, ghost steps: nat)
      requires Valid()
      ensures r != null ==> r in nodes && r.key == key
      ensures r == null ==> forall n :: n in nodes ==> n.key != key
      ensures steps <= 2 * BlackHeight(shape) && Power2(BlackHeight(shape)) <= |Inorder(shape)| + 1
    {
      hide Nodes, PathNodes, Distinct, PathDistinct, Inorder, RedBlackTree, Before, After;
      CostBound();
      var node := root;
      ghost var p, t := Top, shape;
      steps := 0;
      BesideTop(key);
      Look(p, t);
      while node != nil
        invariant Shaped() && shape == Plug(p, t) && node == Ptr(t, rim) && rim.nil == nil && nil !in nodes
        invariant t.Branch? ==> node in nodes && node.left == Ptr(t.left, rim) && node.right == Ptr(t.right, rim)
        invariant AllLess(Before(p), key) && AllGreater(After(p), key)
        invariant steps + Height(t) <= Height(shape)
        decreases t
      {
        steps := steps + 1;
        SearchStep(p, t, key);
        if key < node.key {
          node := node.left;
          p, t := InLeft(p, t.node, t.red, t.right), t.left;
        } else if key > node.key {
          node := node.right;
          p, t := InRight(p, t.left, t.node, t.red), t.right;
        } else if node.key == key {
          return node, steps;
        }
        Look(p, t);
      }
      SearchEnd(p, key);
      r := null;
    }

    /** `util_rbtree_lookup` */
    method Lookup(key: int) returns (r: Node?, ghost steps: nat)
      requires Valid()
      ensures r == null <==> nodes == {}
      ensures r != null ==> r in nodes && r == Owner(Inorder(shape), key)
      ensures steps <= 2 * BlackHeight(shape) && Power2(BlackHeight(shape)) <= |Inorder(shape)| + 1
    {
      hide Nodes, PathNodes, Distinct, PathDistinct, Inorder, RedBlackTree, Before, After;
      CostBound();
      steps := 0;
      EmptyTree();
      if root == nil {
        return null, steps;
      }
      r := null;
      var temp := root;
      ghost var p, t := Top, shape;
      BesideTop(key);
      Look(p, t);
      while temp != nil
        invariant Shaped() && shape == Plug(p, t) && temp == Ptr(t, rim) && rim.nil == nil && nil !in nodes
        invariant t.Branch? ==> temp in nodes && temp.left == Ptr(t.left, rim) && temp.right == Ptr(t.right, rim)
        invariant AllLess(Before(p), key) && AllGeq(After(p), key)
        invariant r == (if After(p) == [] then null else After(p)[0]) && (r != null ==> r in nodes)
        invariant steps + Height(t) <= Height(shape)
        decreases t
      {
        steps := steps + 1;
        LookupStep(p, t, key);
        if key <= temp.key {
          r := temp;
          temp := temp.left;
          p, t := InLeft(p, t.node, t.red, t.right), t.left;
        } else if key > temp.key {
          temp := temp.right;
          p, t := InRight(p, t.left, t.node, t.red), t.right;
        }
        Look(p, t);
      }
      LookupEnd(p, key);
      if r == null {
        r := Min();
      }
    }

    /** `util_rbtree_min` */
    method Min() returns (m: Node?)
      requires Shaped()
      ensures m == null <==> nodes == {}
      ensures m != null ==> m in nodes && Inorder(shape) != [] && m == Inorder(shape)[0]
    {
      EmptyTree();
      if root == nil {
        return null;
      }
      ghost var q, s;
      m, q, s := SubtreeMin(root, Top, shape);
      SpineInorder(q, s);
      NodeIsInorder(shape, m);
    }

    /** `util_rbtree_mid_travel`: the nodes in the order in which they are visited. */
    method MidTravel(x: Node, ghost p: Path<Node>, ghost t: Tree<Node>) returns (visited: seq<Node>)
      requires Shaped() && shape == Plug(p, t) && x == Ptr(t, rim) && x != nil
      ensures visited == Inorder(t)
      decreases t
    {
      hide Nodes, PathNodes, Distinct, PathDistinct;
      Look(p, t);
      visited := [];
      if x.left != nil {
        visited := MidTravel(x.left, InLeft(p, t.node, t.red, t.right), t.left);
      }
      visited := visited + [x];
      if x.right != nil {
        var rest := MidTravel(x.right, InRight(p, t.left, t.node, t.red), t.right);
        visited := visited + rest;
      }
    }
  }

  /** From every tree of two nodes: the root is deleted, and `malloc` hands its memory back
      for the next node.  That insertion is harmless, but the link is now live. */
  method ReuseOnce(tree: RbTree, a: int) returns (x: Node)
    requires tree.Valid() && |Inorder(tree.shape)| == 2 && forall n :: n in tree.nodes ==> n.key <= a
    modifies tree, tree.nodes, tree.nil
    ensures tree.Valid() && tree.rim.outer == x && x.key == a && fresh(tree.nodes - old(tree.nodes))
    ensures exists r: Node :: r.key <= a && r != x && tree.shape == Branch(Leaf, r, false, Red(x))
  {
    hide Nodes, Distinct, Inorder, RedBlackTree, Inserted, Balanced, Without, ReachesRoot, InsertFixed,
      RbTree.Shaped, PlaceOf;
    tree.Outside();
    tree.RootCounts();
    tree.WithoutNode(tree.root);
    tree.Delete(tree.root);
    tree.Single();
    ghost var r := tree.root;
    x := new Node(a, null);
    tree.Reuse(x);
    OneNode(r, x);
    tree.Insert(x);
  }

  /** The converse: from every tree of two nodes, deleting the root can end in a broken tree.
      `malloc` hands back the memory of the removed node once, and three keys come in order. */
  method ReuseBreaks(tree: RbTree, a: int, b: int, c: int)
    requires tree.Valid() && |Inorder(tree.shape)| == 2
    requires (forall n :: n in tree.nodes ==> n.key <= a) && a <= b <= c
    modifies tree, tree.nodes, tree.nil
    ensures tree.Shaped() && !Balanced(tree.shape)
  {
    hide Nodes, Distinct, Inorder, RedBlackTree, Inserted, Balanced, Without, ReachesRoot, InsertFixed,
      RbTree.Shaped, PlaceOf;
    var x := ReuseOnce(tree, a);
    ghost var r: Node :| r.key <= a && r != x && tree.shape == Branch(Leaf, r, false, Red(x));
    tree.RootIs();
    var y := new Node(b, null);
    TwoNodes(r, x, y);
    tree.Insert(y);
    tree.RootIs();
    tree.RootParent();
    var z := new Node(c, null);
    ThreeNodes(r, x, y, z);
    tree.Insert(z);
  }

  ghost function Red(n: Node): Tree<Node> {
    Branch(Leaf, n, true, Leaf)
  }

  lemma OneNode(r: Node, x: Node)
    requires r.key <= x.key
    ensures var p := PlaceOf(Top, Branch(Leaf, r, false, Leaf), x.key);
      !ReachesRoot(p) && InsertFixed(p, Red(x)) == Branch(Leaf, r, false, Red(x))
  {
    var p := InRight(Top, Leaf, r, false);
    assert PlaceOf(Top, Branch(Leaf, r, false, Leaf), x.key) == p;
    assert Plug(p, Red(x)) == Branch(Leaf, r, false, Red(x));
  }

  lemma TwoNodes(r: Node, x: Node, y: Node)
    requires r.key <= x.key <= y.key
    ensures var p := PlaceOf(Top, Branch(Leaf, r, false, Red(x)), y.key);
      !ReachesRoot(p) && InsertFixed(p, Red(y)) == Branch(Red(r), x, false, Red(y))
  {
    var p := InRight(InRight(Top, Leaf, r, false), Leaf, x, true);
    assert PlaceOf(Top, Branch(Leaf, r, false, Red(x)), y.key) == PlaceOf(InRight(Top, Leaf, r, false), Red(x), y.key) == p;
  }

  lemma ThreeNodes(r: Node, x: Node, y: Node, z: Node)
    requires r.key <= x.key <= y.key <= z.key
    ensures var p := PlaceOf(Top, Branch(Red(r), x, false, Red(y)), z.key);
      p != Top && ReachesRoot(p)
  {
    var p := InRight(InRight(Top, Red(r), x, false), Leaf, y, true);
    assert PlaceOf(Top, Branch(Red(r), x, false, Red(y)), z.key) == PlaceOf(InRight(Top, Red(r), x, false), Red(y), z.key) == p;
    assert ReachesRoot(p.up.up);
  }

  /** The empty place where a key belongs, after all keys that are not greater. */
  ghost function PlaceOf(p: Path<Node>, t: Tree<Node>, key: int): Path<Node>
    decreases t
  {
    if t.Leaf? then p
    else if key < t.node.key then PlaceOf(InLeft(p, t.node, t.red, t.right), t.left, key)
    else PlaceOf(InRight(p, t.left, t.node, t.red), t.right, key)
  }

  ghost predicate AllLess(s: seq<Node>, key: int) {
    forall n :: n in s ==> n.key < key
  }

  ghost predicate AllGeq(s: seq<Node>, key: int) {
    forall n :: n in s ==> n.key >= key
  }

  lemma SearchStep(p: Path<Node>, t: Tree<Node>, key: int)
    requires Sorted(Inorder(Plug(p, t))) && t.Branch?
    requires AllLess(Before(p), key) && AllGreater(After(p), key)
    ensures key < t.node.key ==>
      var q := InLeft(p, t.node, t.red, t.right); AllLess(Before(q), key) && AllGreater(After(q), key)
    ensures key > t.node.key ==>
      var q := InRight(p, t.left, t.node, t.red); AllLess(Before(q), key) && AllGreater(After(q), key)
  {
    SortedAt(p, t);
  }

  lemma SearchEnd(p: Path<Node>, key: int)
    requires AllLess(Before(p), key) && AllGreater(After(p), key)
    ensures forall n :: n in Nodes(Plug(p, Leaf)) ==> n.key != key
  {
    PlugInorder(p, Leaf);
    assert Inorder(Plug(p, Leaf)) == Before(p) + After(p);
    forall n | n in Nodes(Plug(p, Leaf)) ensures n.key != key {
      NodeIsInorder(Plug(p, Leaf), n);
    }
  }

  lemma LookupStep(p: Path<Node>, t: Tree<Node>, key: int)
    requires Sorted(Inorder(Plug(p, t))) && t.Branch?
    requires AllLess(Before(p), key) && AllGeq(After(p), key)
    ensures key <= t.node.key ==>
      var q := InLeft(p, t.node, t.red, t.right);
      AllLess(Before(q), key) && AllGeq(After(q), key) && After(q) != [] && After(q)[0] == t.node
    ensures key > t.node.key ==>
      var q := InRight(p, t.left, t.node, t.red);
      AllLess(Before(q), key) && AllGeq(After(q), key) && After(q) == After(p)
  {
    SortedAt(p, t);
    assert After(InLeft(p, t.node, t.red, t.right)) == [t.node] + (Inorder(t.right) + After(p));
  }

  /** A linear scan: the first node whose key is at least `key`, if there is one. */
  ghost function FirstFrom(s: seq<Node>, key: int): Node?
  {
    if s == [] then null else if s[0].key >= key then s[0] else FirstFrom(s[1..], key)
  }

  /** The ring: past the greatest key comes the first node. */
  ghost function Owner(s: seq<Node>, key: int): Node? {
    if s == [] then null else if FirstFrom(s, key) != null then FirstFrom(s, key) else s[0]
  }

  lemma {:induction false} FirstFromSplit(a: seq<Node>, b: seq<Node>, key: int)
    requires AllLess(a, key) && AllGeq(b, key)
    ensures FirstFrom(a + b, key) == if b == [] then null else b[0]
  {
    if a == [] {
      assert a + b == b;
      assert b != [] ==> b[0] in b;
    } else {
      assert a[0] in a && (a + b)[1..] == a[1..] + b;
      assert forall m :: m in a[1..] ==> m in a;
      FirstFromSplit(a[1..], b, key);
    }
  }

  lemma LookupEnd(p: Path<Node>, key: int)
    requires AllLess(Before(p), key) && AllGeq(After(p), key)
    ensures FirstFrom(Inorder(Plug(p, Leaf)), key) == if After(p) == [] then null else After(p)[0]
  {
    PlugInorder(p, Leaf);
    assert Inorder(Plug(p, Leaf)) == Before(p) + After(p);
    FirstFromSplit(Before(p), After(p), key);
  }

  /** Where a linear scan would put a new node: after all keys that are not greater. */
  ghost function Inserted(s: seq<Node>, n: Node): seq<Node> {
    if s == [] || n.key < s[0].key then [n] + s else [s[0]] + Inserted(s[1..], n)
  }

  lemma {:induction false} InsertedBetween(a: seq<Node>, n: Node, b: seq<Node>)
    requires AllLeq(a, n.key) && AllGreater(b, n.key)
    ensures Inserted(a + b, n) == a + [n] + b
  {
    if a == [] {
      assert a + b == b && a + [n] + b == [n] + b;
      assert b != [] ==> b[0] in b;
    } else {
      hide Inserted;
      Prepended(a, n, b);
      assert a[0] in a;
      InsertedRest(a[0], a[1..] + b, n);
      InsertedBetween(a[1..], n, b);
    }
  }

  /** The place of a new node: behind every key that is not greater, before every greater one. */
  lemma {:induction false} InsertedIs(s: seq<Node>, n: Node) returns (k: nat)
    requires forall i, j :: 0 <= i < j < |s| ==> s[i].key <= s[j].key
    ensures k <= |s| && Inserted(s, n) == s[..k] + [n] + s[k..]
    ensures (forall i :: 0 <= i < k ==> s[i].key <= n.key) && (forall i :: k <= i < |s| ==> n.key < s[i].key)
  {
    if s == [] || n.key < s[0].key {
      k := 0;
      assert s[0..] == s;
    } else {
      k := InsertedIs(s[1..], n);
      assert s[..k + 1] == [s[0]] + s[1..][..k] && s[k + 1..] == s[1..][k..];
      k := k + 1;
      assert forall i :: 1 <= i < |s| ==> s[i] == s[1..][i - 1];
    }
  }

  lemma InsertedRest(m: Node, s: seq<Node>, n: Node)
    requires m.key <= n.key
    ensures Inserted([m] + s, n) == [m] + Inserted(s, n)
  {
    assert ([m] + s)[1..] == s;
  }

  lemma SortedBetween(a: seq<Node>, n: Node, b: seq<Node>)
    requires Sorted(a + b) && AllLeq(a, n.key) && AllGreater(b, n.key)
    ensures Sorted(a + [n] + b)
  {
    var s, s' := a + b, a + [n] + b;
    forall i, j | 0 <= i < j < |s'| ensures s'[i].key <= s'[j].key {
      assert i < |a| ==> s'[i] == s[i] && s'[i] in a;
      assert i > |a| ==> s'[i] == s[i - 1];
      assert j < |a| ==> s'[j] == s[j];
      assert j > |a| ==> s'[j] == s[j - 1] && s'[j] in b;
    }
  }

  /** What a new red node at its place leaves to be done. */
  lemma InsertFresh(p: Path<Node>, node: Node, was: Tree<Node>)
    requires was == Plug(p, Leaf) && RedBlackTree(was) && Sorted(Inorder(was))
    requires AllLeq(Before(p), node.key) && AllGreater(After(p), node.key)
    ensures InsertPending(p, Branch(Leaf, node, true, Leaf))
    ensures var s := Inorder(Plug(p, Branch(Leaf, node, true, Leaf)));
      s == Inserted(Inorder(was), node) && Sorted(s) && |s| == |Inorder(was)| + 1
  {
    hide Inserted, Sorted, AllLeq, AllGreater, Before, After;
    PlugRedBlack(p, Leaf);
    PlugInorder(p, Leaf);
    PlugInorder(p, Branch(Leaf, node, true, Leaf));
    assert Inorder(was) == Before(p) + After(p);
    assert Inorder(Branch(Leaf, node, true, Leaf)) == [node];
    InsertedBetween(Before(p), node, After(p));
    SortedBetween(Before(p), node, After(p));
  }

  ghost predicate AllLeq(s: seq<Node>, key: int) {
    forall n :: n in s ==> n.key <= key
  }

  ghost predicate AllGreater(s: seq<Node>, key: int) {
    forall n :: n in s ==> n.key > key
  }

  lemma SortedParts(a: seq<Node>, l: seq<Node>, n: Node, r: seq<Node>, b: seq<Node>)
    requires Sorted(a + (l + [n] + r) + b)
    ensures forall m :: m in l ==> m.key <= n.key
    ensures forall m :: m in r ==> n.key <= m.key
  {
    var s := a + (l + [n] + r) + b;
    assert s[|a| + |l|] == n;
    assert forall i :: 0 <= i < |l| ==> s[|a| + i] == l[i];
    assert forall i :: 0 <= i < |r| ==> s[|a| + |l| + 1 + i] == r[i];
  }

  lemma RootInorder(t: Tree<Node>)
    requires t.Branch?
    ensures t.node in Inorder(t)
  {
    assert Inorder(t)[|Inorder(t.left)|] == t.node;
  }

  lemma SortedAt(p: Path<Node>, t: Tree<Node>)
    requires Sorted(Inorder(Plug(p, t))) && t.Branch?
    ensures forall n :: n in Inorder(t.left) ==> n.key <= t.node.key
    ensures forall n :: n in Inorder(t.right) ==> t.node.key <= n.key
  {
    PlugInorder(p, t);
    SortedParts(Before(p), Inorder(t.left), t.node, Inorder(t.right), After(p));
  }

  lemma BesideTop(key: int)
    ensures AllLeq(Before<Node>(Top), key) && AllGreater(After<Node>(Top), key)
    ensures AllLess(Before<Node>(Top), key) && AllGeq(After<Node>(Top), key) && After<Node>(Top) == []
  {
  }

  lemma DescendStep(p: Path<Node>, t: Tree<Node>, key: int)
    requires Sorted(Inorder(Plug(p, t))) && t.Branch?
    requires AllLeq(Before(p), key) && AllGreater(After(p), key)
    ensures key < t.node.key ==>
      var q := InLeft(p, t.node, t.red, t.right); AllLeq(Before(q), key) && AllGreater(After(q), key)
    ensures key >= t.node.key ==>
      var q := InRight(p, t.left, t.node, t.red); AllLeq(Before(q), key) && AllGreater(After(q), key)
  {
    SortedAt(p, t);
  }

  ghost predicate Sorted(s: seq<Node>) {
    forall i, j :: 0 <= i < j < |s| ==> s[i].key <= s[j].key
  }
}
