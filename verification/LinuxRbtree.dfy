/**
  The intrusive red-black tree: null leaves, the parent and the colour of a
  node in one word, and successors found by climbing parent links.
 */
module LinuxRbtree {
  import opened RedBlack

  /** The word that packs a parent pointer and a colour. */
  datatype Word = Word(parent: Node?, red: bool)

  class Node {
    /** The structure that the node is embedded in, for `container_of`. */
    const entry: object
    var word: Word
    var right: Node?
    var left: Node?

    constructor (entry: object)
      ensures this.entry == entry
    {
      this.entry := entry;
      word, right, left := Word(null, true), null, null;
    }
  }

  // ----- the word as bits: the address of the parent, and the colour in bit 0 -----

  /** `rb_parent` */
  function ParentBits(w: bv64): bv64 { w & !3 }

  /** `rb_color` */
  function ColorBits(w: bv64): bv64 { w & 1 }

  /** `rb_set_parent` */
  function SetParentBits(w: bv64, parent: bv64): bv64 { (w & 3) | parent }

  /** `rb_set_red` */
  function SetRedBits(w: bv64): bv64 { w & !1 }

  /** `rb_set_black` */
  function SetBlackBits(w: bv64): bv64 { w | 1 }

  /** `rb_set_color` */
  function SetColorBits(w: bv64, color: bv64): bv64 { (w & !1) | color }

  function Packed(address: bv64, red: bool): bv64 {
    address | ColorBit(red)
  }

  function ColorBit(red: bool): bv64 {
    if red then 0 else 1
  }

  /** Node addresses are multiples of 4. */
  predicate Aligned(address: bv64) { address & 3 == 0 }

  /** The word where `address` gives the address of each node, and 0 for null. */
  function Bits(w: Word, address: Node? -> bv64): bv64 {
    Packed(address(w.parent), w.red)
  }

  /** Each accessor of the header does on the bits what reading or updating a `Word` does. */
  lemma WordBits(w: Word, address: Node? -> bv64, to: Node?, red: bool)
    requires Aligned(address(w.parent)) && Aligned(address(to))
    ensures ParentBits(Bits(w, address)) == address(w.parent) && ColorBits(Bits(w, address)) == ColorBit(w.red)
    ensures SetParentBits(Bits(w, address), address(to)) == Bits(w.(parent := to), address)
    ensures SetRedBits(Bits(w, address)) == Bits(w.(red := true), address)
    ensures SetBlackBits(Bits(w, address)) == Bits(w.(red := false), address)
    ensures SetColorBits(Bits(w, address), ColorBit(red)) == Bits(w.(red := red), address)
    ensures address(to) == Bits(Word(to, true), address)
  {
    hide Packed, ColorBit, Aligned, ParentBits, ColorBits, SetParentBits, SetRedBits, SetBlackBits, SetColorBits;
    ReadBits(address(w.parent), w.red);
    ParentSet(address(w.parent), w.red, address(to));
    RedSet(address(w.parent), w.red);
    BlackSet(address(w.parent), w.red);
    ColorSet(address(w.parent), w.red, red);
    ReadBits(address(to), true);
  }

  // What the accessors do on the bits, with the operators of the header.

  lemma HeaderRead(address: bv64, red: bool)
    requires address & 3 == 0
    ensures Packed(address, red) == address | (if red then 0 else 1)
    ensures Packed(address, red) & !3 == address && Packed(address, red) & 1 == (if red then 0 else 1)
  {
    ReadBits(address, red);
  }

  lemma HeaderParent(address: bv64, red: bool, to: bv64)
    requires address & 3 == 0 && to & 3 == 0
    ensures (Packed(address, red) & 3) | to == Packed(to, red)
  {
    hide Packed;
    ParentSet(address, red, to);
  }

  lemma HeaderRed(address: bv64, was: bool)
    requires address & 3 == 0
    ensures Packed(address, was) & !1 == Packed(address, true)
  {
    hide Packed;
    RedSet(address, was);
  }

  lemma HeaderBlack(address: bv64, was: bool)
    requires address & 3 == 0
    ensures Packed(address, was) | 1 == Packed(address, false)
  {
    hide Packed;
    BlackSet(address, was);
  }

  lemma HeaderColor(address: bv64, was: bool, red: bool)
    requires address & 3 == 0
    ensures (Packed(address, was) & !1) | (if red then 0 else 1) == Packed(address, red)
  {
    hide Packed;
    HeaderRed(address, was);
    HeaderRead(address, true);
    HeaderRead(address, red);
    ReadBits(address, true);
  }

  lemma ReadBits(address: bv64, red: bool)
    requires Aligned(address)
    ensures ParentBits(Packed(address, red)) == address && ColorBits(Packed(address, red)) == ColorBit(red)
    ensures Packed(address, true) == address
  {
  }

  lemma ParentSet(address: bv64, red: bool, to: bv64)
    requires Aligned(address) && Aligned(to)
    ensures SetParentBits(Packed(address, red), to) == Packed(to, red)
  {
    var color := ColorBit(red);
    assert (address | color) & 3 == (address & 3) | (color & 3);
    assert color & 3 == color;
  }

  lemma RedSet(address: bv64, was: bool)
    requires Aligned(address)
    ensures SetRedBits(Packed(address, was)) == Packed(address, true)
  {
  }

  lemma BlackSet(address: bv64, was: bool)
    requires Aligned(address)
    ensures SetBlackBits(Packed(address, was)) == Packed(address, false)
  {
    var color := ColorBit(was);
    assert color | 1 == 1;
  }

  lemma ColorSet(address: bv64, was: bool, red: bool)
    requires Aligned(address)
    ensures SetColorBits(Packed(address, was), ColorBit(red)) == Packed(address, red)
  {
    hide Packed, ColorBit, Aligned, SetRedBits, SetColorBits;
    RedSet(address, was);
    ReadBits(address, true);
    ColorAdded(Packed(address, was), address, red);
  }

  lemma ColorAdded(w: bv64, address: bv64, red: bool)
    requires SetRedBits(w) == address
    ensures SetColorBits(w, ColorBit(red)) == Packed(address, red)
  {
    hide ColorBit;
  }

  /** A leaf is null, and so is the parent of the root. */
  const NONE: Rim<Node?> := Rim(null, null)

  /** Node `n` stores the cell `c`. */
  ghost predicate Holds(n: Node, c: Cell<Node?>)
    reads n
  {
    n.left == c.left && n.right == c.right && n.word == Word(c.parent, c.red)
  }

  /** The heap holds `t`, hanging from `parent`. */
  ghost predicate Fits(t: Tree<Node?>, parent: Node?)
    reads Nodes(t)
  {
    forall n :: n in Nodes(t) ==> n != null && Holds(n, CellOf(t, parent, NONE, n))
  }

  /** The heap holds the path `p`, whose last link holds `hole`. */
  ghost predicate FitsPath(p: Path<Node?>, hole: Node?)
    reads PathNodes(p)
  {
    forall n :: n in PathNodes(p) ==> n != null && Holds(n, PathCellOf(p, hole, NONE, n))
  }

  class RbRoot {
    var root: Node?

    ghost var nodes: set<Node?>
    ghost var shape: Tree<Node?>

    /** `RB_ROOT` */
    constructor ()
      ensures Shaped() && shape == Leaf && nodes == {}
    {
      root := null;
      nodes, shape := {}, Leaf;
    }

    /** The heap holds the tree `shape`. */
    ghost predicate Shaped()
      reads this`root, this`nodes, this`shape, nodes
    {
      && nodes == Nodes(shape) && Distinct(shape) && null !in nodes
      && root == Ptr(shape, NONE)
      && Fits(shape, null)
    }

    /** The tree taken apart where `t` hangs from `p`. */
    lemma Unzip(p: Path<Node?>, t: Tree<Node?>)
      requires Shaped() && shape == Plug(p, t)
      ensures Fits(t, Parent(p, NONE)) && FitsPath(p, Ptr(t, NONE))
      ensures PathNodes(p) <= nodes && Nodes(t) <= nodes && PathNodes(p) !! Nodes(t)
      ensures Distinct(t) && PathDistinct(p)
      ensures root == if p.Top? then Ptr(t, NONE) else RootOf(p)
      ensures p != Top ==> RootOf(p) in PathNodes(p) && p.node in PathNodes(p)
    {
      PlugNodes(p, t);
      PlugDistinct(p, t);
      if p != Top {
        PlugRoot(p, t);
      }
      forall n | n in Nodes(t) ensures n != null && Holds(n, CellOf(t, Parent(p, NONE), NONE, n)) {
        PlugCells(p, t, NONE, n);
      }
      forall n | n in PathNodes(p) ensures n != null && Holds(n, PathCellOf(p, Ptr(t, NONE), NONE, n)) {
        PlugCells(p, t, NONE, n);
      }
    }

    lemma Zip(p: Path<Node?>, t: Tree<Node?>)
      requires shape == Plug(p, t) && nodes == Nodes(shape)
      requires Fits(t, Parent(p, NONE)) && FitsPath(p, Ptr(t, NONE))
      requires PathNodes(p) !! Nodes(t) && Distinct(t) && PathDistinct(p)
      requires root == if p.Top? then Ptr(t, NONE) else RootOf(p)
      ensures Shaped()
    {
      PlugNodes(p, t);
      PlugDistinct(p, t);
      if p != Top {
        PlugRoot(p, t);
      }
      forall n | n in Nodes(shape) ensures n != null && Holds(n, CellOf(shape, null, NONE, n)) {
        PlugCells(p, t, NONE, n);
      }
    }

    /** Makes the link at the end of `p`, or the root, refer to `subst` instead of `node`. */
    method Relink(node: Node, subst: Node?, ghost p: Path<Node?>)
      requires FitsPath(p, node) && PathDistinct(p) && node !in PathNodes(p)
      requires node.word.parent == Parent(p, NONE)
      requires root == if p.Top? then node else RootOf(p)
      modifies this`root, (if p.Top? then {} else {p.node})`left, (if p.Top? then {} else {p.node})`right
      ensures FitsPath(p, subst)
      ensures root == if p.Top? then subst else RootOf(p)
    {
      if p != Top {
        PlugRoot(p, Leaf);
      }
      var parent := node.word.parent;
      if parent != null {
        if node == parent.left {
          parent.left := subst;
        } else {
          parent.right := subst;
        }
      } else {
        root := subst;
      }
    }

    /** The same, with the test the other way round. */
    method RelinkRight(node: Node, subst: Node?, ghost p: Path<Node?>)
      requires FitsPath(p, node) && PathDistinct(p) && node !in PathNodes(p)
      requires node.word.parent == Parent(p, NONE)
      requires root == if p.Top? then node else RootOf(p)
      modifies this`root, (if p.Top? then {} else {p.node})`left, (if p.Top? then {} else {p.node})`right
      ensures FitsPath(p, subst)
      ensures root == if p.Top? then subst else RootOf(p)
    {
      if p != Top {
        PlugRoot(p, Leaf);
      }
      var parent := node.word.parent;
      if parent != null {
        if node == parent.right {
          parent.right := subst;
        } else {
          parent.left := subst;
        }
      } else {
        root := subst;
      }
    }

    /** The part of a left rotation that stays inside the subtree. */
    method TurnLeft(node: Node, right: Node, parent: Node?, ghost t: Tree<Node?>)
      requires Fits(t, parent) && Distinct(t)
      requires t.Branch? && t.node == node && t.right.Branch? && t.right.node == right
      modifies Nodes(t)
      ensures Fits(RedBlack.RotateLeft(t), parent)
    {
      hide CellOf, PathCellOf, Nodes, PathNodes, Plug, Distinct, PathDistinct, Inorder;
      RotateLeftApart(t, parent, NONE);
      node.right := right.left;
      if right.left != null {
        right.left.word := right.left.word.(parent := node);
      }
      right.left := node;
      right.word := right.word.(parent := parent);
      node.word := node.word.(parent := right);
      ghost var t' := RedBlack.RotateLeft(t);
      forall n | n in Nodes(t') ensures n != null && Holds(n, CellOf(t', parent, NONE, n)) {
        RotateLeftInside(t, parent, NONE, n);
      }
    }

    /** The two nodes that a left rotation is about. */
    lemma RotateLeftEnds(t: Tree<Node?>, parent: Node?)
      requires Distinct(t) && Fits(t, parent) && t.Branch? && t.right.Branch?
      ensures t.node in Nodes(t) && t.right.node in Nodes(t)
      ensures t.node.right == t.right.node && t.node.word.parent == parent
    {
      RotateLeftApart(t, parent, NONE);
    }

    /** `__rb_rotate_left` */
    method RotateLeft(node: Node, ghost p: Path<Node?>, ghost t: Tree<Node?>)
      requires Shaped() && shape == Plug(p, t)
      requires t.Branch? && t.node == node && t.right.Branch?
      modifies this`root, this`shape, nodes
      ensures Shaped() && shape == Plug(p, RedBlack.RotateLeft(t))
      ensures Inorder(shape) == old(Inorder(shape))
    {
      hide CellOf, PathCellOf, Nodes, PathNodes, Plug, Distinct, PathDistinct, Inorder;
      ghost var t' := RedBlack.RotateLeft(t);
      Unzip(p, t);
      RotateLeftWhole(p, t);
      RotateLeftEnds(t, Parent(p, NONE));
      var right := node.right;
      var parent := node.word.parent;
      Relink(node, right, p);
      TurnLeft(node, right, parent, t);
      shape := Plug(p, t');
      Zip(p, t');
    }

    /** The part of a right rotation that stays inside the subtree. */
    method TurnRight(node: Node, left: Node, parent: Node?, ghost t: Tree<Node?>)
      requires Fits(t, parent) && Distinct(t)
      requires t.Branch? && t.node == node && t.left.Branch? && t.left.node == left
      modifies Nodes(t)
      ensures Fits(RedBlack.RotateRight(t), parent)
    {
      hide CellOf, PathCellOf, Nodes, PathNodes, Plug, Distinct, PathDistinct, Inorder;
      RotateRightApart(t, parent, NONE);
      node.left := left.right;
      if left.right != null {
        left.right.word := left.right.word.(parent := node);
      }
      left.right := node;
      left.word := left.word.(parent := parent);
      node.word := node.word.(parent := left);
      ghost var t' := RedBlack.RotateRight(t);
      forall n | n in Nodes(t') ensures n != null && Holds(n, CellOf(t', parent, NONE, n)) {
        RotateRightInside(t, parent, NONE, n);
      }
    }

    /** The two nodes that a right rotation is about. */
    lemma RotateRightEnds(t: Tree<Node?>, parent: Node?)
      requires Distinct(t) && Fits(t, parent) && t.Branch? && t.left.Branch?
      ensures t.node in Nodes(t) && t.left.node in Nodes(t)
      ensures t.node.left == t.left.node && t.node.word.parent == parent
    {
      RotateRightApart(t, parent, NONE);
    }

    /** `__rb_rotate_right` */
    method RotateRight(node: Node, ghost p: Path<Node?>, ghost t: Tree<Node?>)
      requires Shaped() && shape == Plug(p, t)
      requires t.Branch? && t.node == node && t.left.Branch?
      modifies this`root, this`shape, nodes
      ensures Shaped() && shape == Plug(p, RedBlack.RotateRight(t))
      ensures Inorder(shape) == old(Inorder(shape))
    {
      hide CellOf, PathCellOf, Nodes, PathNodes, Plug, Distinct, PathDistinct, Inorder;
      ghost var t' := RedBlack.RotateRight(t);
      Unzip(p, t);
      RotateRightWhole(p, t);
      RotateRightEnds(t, Parent(p, NONE));
      var left := node.left;
      var parent := node.word.parent;
      RelinkRight(node, left, p);
      TurnRight(node, left, parent, t);
      shape := Plug(p, t');
      Zip(p, t');
    }

    /** `rb_set_red` and `rb_set_black` on a node of the tree. */
    method Paint(node: Node, red: bool, ghost p: Path<Node?>, ghost t: Tree<Node?>)
      requires Shaped() && shape == Plug(p, t)
      requires t.Branch? && t.node == node
      modifies this`shape, node`word
      ensures Shaped() && shape == Plug(p, t.(red := red))
      ensures Inorder(shape) == old(Inorder(shape))
    {
      hide CellOf, PathCellOf, Nodes, PathNodes, Plug, Distinct, PathDistinct, Inorder;
      Unzip(p, t);
      PaintInside(t, red, Parent(p, NONE), NONE);
      PlugSame(p, t, t.(red := red));
      node.word := node.word.(red := red);
      shape := Plug(p, t.(red := red));
      Zip(p, t.(red := red));
    }

    /** What the pointers at a subtree say. */
    lemma Look(p: Path<Node?>, t: Tree<Node?>)
      requires Shaped() && shape == Plug(p, t)
      ensures null !in nodes && (p.Top? ==> root == Ptr(t, NONE))
      ensures t.Branch? ==>
        && t.node in nodes && t.node != null && (p != Top ==> root != t.node)
        && Holds(t.node, Cell(Ptr(t.left, NONE), Ptr(t.right, NONE), Parent(p, NONE), t.red))
        && (t.left.Branch? ==> t.left.node in nodes && t.node.right != t.left.node)
        && (t.right.Branch? ==> t.right.node in nodes && t.node.left != t.right.node)
    {
      Unzip(p, t);
      if t.Branch? {
        assert CellOf(t, Parent(p, NONE), NONE, t.node) == Cell(Ptr(t.left, NONE), Ptr(t.right, NONE), Parent(p, NONE), t.red);
        assert t.left.Branch? ==> t.left.node in Nodes(t.left) && t.left.node in Nodes(t);
        assert t.right.Branch? ==> t.right.node in Nodes(t.right) && t.right.node in Nodes(t);
      }
    }

    /** What the pointers above a subtree and across from it say. */
    lemma LookUp(p: Path<Node?>, t: Tree<Node?>)
      requires Shaped() && shape == Plug(p, t)
      ensures null !in nodes
      ensures t.Branch? ==> t.node != null && t.node.word.parent == Parent(p, NONE)
      ensures p != Top ==>
        && var s := Join(p, t);
        && p.node in nodes && p.node != null && Plug(p.up, s) == shape
        && Holds(p.node, Cell(Ptr(s.left, NONE), Ptr(s.right, NONE), Parent(p.up, NONE), p.red))
        && root != Ptr(t, NONE)
        && (t.Branch? ==> p.node != t.node)
        && (p.InRight? && (p.left.Branch? || t.Branch?) ==> p.node.left != Ptr(t, NONE))
        && (p.InLeft? && (p.right.Branch? || t.Branch?) ==> p.node.right != Ptr(t, NONE))
    {
      Look(p, t);
      if p != Top {
        PlugStep(p, t);
        Look(p.up, Join(p, t));
        PlugRoot(p, t);
        Unzip(p, t);
      }
    }

    lemma LookAcross(p: Path<Node?>, t: Tree<Node?>)
      requires Shaped() && shape == Plug(p, t) && p != Top && Sibling(p).Branch?
      ensures var w := Sibling(p);
        && shape == Plug(Across(p, t), w) && w.node in nodes && w.node != null
        && Holds(w.node, Cell(Ptr(w.left, NONE), Ptr(w.right, NONE), p.node, w.red))
        && (w.left.Branch? ==>
              && w.left.node in nodes && w.left.node != null && w.left.node.word.red == w.left.red
              && shape == Plug(InLeft(Across(p, t), w.node, w.red, w.right), w.left))
        && (w.right.Branch? ==>
              && w.right.node in nodes && w.right.node != null && w.right.node.word.red == w.right.red
              && shape == Plug(InRight(Across(p, t), w.left, w.node, w.red), w.right))
    {
      var q, w := Across(p, t), Sibling(p);
      PlugStep(p, t);
      Look(q, w);
      PlugStep(InLeft(q, w.node, w.red, w.right), w.left);
      PlugStep(InRight(q, w.left, w.node, w.red), w.right);
      Look(InLeft(q, w.node, w.red, w.right), w.left);
      Look(InRight(q, w.left, w.node, w.red), w.right);
    }

    // ----- insertion -----

    /** Uncle and parent black, grandparent red: the recolouring of `rb_insert_color`. */
    method Recolour(uncle: Node, parent: Node, gparent: Node, ghost q: Path<Node?>, ghost t: Tree<Node?>)
      requires Shaped() && q != Top && shape == Plug(q, t)
      requires t.Branch? && t.node == parent && Sibling(q).Branch? && Sibling(q).node == uncle && q.node == gparent
      modifies this`shape, uncle`word, parent`word, gparent`word
      ensures Shaped() && shape == Plug(q.up, JoinPainted(q, Blacken(t), true))
      ensures Inorder(shape) == old(Inorder(shape))
    {
      hide Plug, PathNodes, Nodes, Distinct, PathDistinct, Inorder, Shaped;
      ghost var q' := if q.InLeft? then q.(right := Blacken(q.right)) else q.(left := Blacken(q.left));
      PlugStep(q, t);
      Paint(uncle, false, Across(q, t), Sibling(q));
      PlugStep(q', t);
      Paint(parent, false, q', t);
      PlugStep(q', Blacken(t));
      Paint(gparent, true, q.up, Join(q', Blacken(t)));
    }

    /** `parent` black, `gparent` red, and a right rotation about `gparent`. */
    method LiftLeft(parent: Node, gparent: Node, ghost q: Path<Node?>, ghost t: Tree<Node?>)
      requires Shaped() && q.InLeft? && shape == Plug(q, t)
      requires t.Branch? && t.node == parent && q.node == gparent
      modifies this`root, this`shape, nodes
      ensures Shaped() && Inorder(shape) == old(Inorder(shape))
      ensures shape == Plug(q.up, Branch(t.left, parent, false, Branch(t.right, gparent, true, q.right)))
    {
      hide Plug, PathNodes, Nodes, Distinct, PathDistinct, Inorder, Shaped;
      Look(q, t);
      PlugStep(q, t);
      Look(q.up, Join(q, t));
      Paint(parent, false, q, t);
      PlugStep(q, t.(red := false));
      Paint(gparent, true, q.up, Join(q, t.(red := false)));
      RotateRight(gparent, q.up, Branch(t.(red := false), gparent, true, q.right));
    }

    /** One round of the loop when the parent is a left child. */
    method InsertStepLeft(x: Node, ghost p: Path<Node?>, ghost t: Tree<Node?>)
      returns (node: Node, ghost p': Path<Node?>, ghost t': Tree<Node?>)
      requires Shaped() && shape == Plug(p, t)
      requires InsertPending(p, t) && t.node == x
      requires p != Top && p.red && p.up.InLeft?
      modifies this`root, this`shape, nodes
      ensures Shaped() && shape == Plug(p', t') && Inorder(shape) == old(Inorder(shape))
      ensures InsertPending(p', t') && t'.node == node && Depth(p') < Depth(p) && InsertFixed(p', t') == InsertFixed(p, t)
    {
      hide Nodes, PathNodes, Distinct, PathDistinct, Inorder, Shaped;
      hide NoRedRed, PathNoRedRed, Balanced, PathBalanced, BlackHeight, InsertFixed;
      InsertGrandparent(p, t);
      ghost var up, g, u := p.up.up, p.up.node, p.up.right;
      ghost var pt, f := Join(p, t), t;
      Look(p, t);
      Look(p.up, pt);
      Look(up, Join(p.up, pt));
      Look(InRight(up, pt, g, p.up.red), u);
      node := x;
      var parent := node.word.parent;
      var gparent := parent.word.parent;
      var uncle := gparent.right;
      if uncle != null && uncle.word.red {
        InsertRecoloured(p, t);
        Recolour(uncle, parent, gparent, p.up, pt);
        node := gparent;
        p', t' := up, JoinPainted(p.up, Blacken(pt), true);
      } else {
        if parent.right == node {
          InsertTurnedLeft(p.up, p.left, p.node, t);
          RotateLeft(parent, p.up, pt);
          parent, node := node, parent;
          pt := RedBlack.RotateLeft(pt);
          f := pt.left;
        }
        InsertRotatedRight(up, f, pt.node, pt.right, g, u);
        Look(p.up, pt);
        LiftLeft(parent, gparent, p.up, pt);
        p', t' := InLeft(up, pt.node, false, Branch(pt.right, g, true, u)), f;
      }
      FixedRound(p, t, p', t');
    }

    /** `parent` black, `gparent` red, and a left rotation about `gparent`. */
    method LiftRight(parent: Node, gparent: Node, ghost q: Path<Node?>, ghost t: Tree<Node?>)
      requires Shaped() && q.InRight? && shape == Plug(q, t)
      requires t.Branch? && t.node == parent && q.node == gparent
      modifies this`root, this`shape, nodes
      ensures Shaped() && Inorder(shape) == old(Inorder(shape))
      ensures shape == Plug(q.up, Branch(Branch(q.left, gparent, true, t.left), parent, false, t.right))
    {
      hide Plug, PathNodes, Nodes, Distinct, PathDistinct, Inorder, Shaped;
      Look(q, t);
      PlugStep(q, t);
      Look(q.up, Join(q, t));
      Paint(parent, false, q, t);
      PlugStep(q, t.(red := false));
      Paint(gparent, true, q.up, Join(q, t.(red := false)));
      RotateLeft(gparent, q.up, Branch(q.left, gparent, true, t.(red := false)));
    }

    /** One round of the loop when the parent is a right child. */
    method InsertStepRight(x: Node, ghost p: Path<Node?>, ghost t: Tree<Node?>)
      returns (node: Node, ghost p': Path<Node?>, ghost t': Tree<Node?>)
      requires Shaped() && shape == Plug(p, t)
      requires InsertPending(p, t) && t.node == x
      requires p != Top && p.red && p.up.InRight?
      modifies this`root, this`shape, nodes
      ensures Shaped() && shape == Plug(p', t') && Inorder(shape) == old(Inorder(shape))
      ensures InsertPending(p', t') && t'.node == node && Depth(p') < Depth(p) && InsertFixed(p', t') == InsertFixed(p, t)
    {
      hide Nodes, PathNodes, Distinct, PathDistinct, Inorder, Shaped;
      hide NoRedRed, PathNoRedRed, Balanced, PathBalanced, BlackHeight, InsertFixed;
      InsertGrandparent(p, t);
      ghost var up, g, u := p.up.up, p.up.node, p.up.left;
      ghost var pt, f := Join(p, t), t;
      Look(p, t);
      Look(p.up, pt);
      Look(up, Join(p.up, pt));
      Look(InLeft(up, g, p.up.red, pt), u);
      node := x;
      var parent := node.word.parent;
      var gparent := parent.word.parent;
      var uncle := gparent.left;
      if uncle != null && uncle.word.red {
        InsertRecoloured(p, t);
        Recolour(uncle, parent, gparent, p.up, pt);
        node := gparent;
        p', t' := up, JoinPainted(p.up, Blacken(pt), true);
      } else {
        if parent.left == node {
          InsertTurnedRight(p.up, t, p.node, p.right);
          RotateRight(parent, p.up, pt);
          parent, node := node, parent;
          pt := RedBlack.RotateRight(pt);
          f := pt.right;
        }
        InsertRotatedLeft(up, f, pt.node, pt.left, g, u);
        Look(p.up, pt);
        LiftRight(parent, gparent, p.up, pt);
        p', t' := InRight(up, Branch(u, g, true, pt.left), pt.node, false), f;
      }
      FixedRound(p, t, p', t');
    }

    method InsertStep(x: Node, ghost p: Path<Node?>, ghost t: Tree<Node?>)
      returns (node: Node, ghost p': Path<Node?>, ghost t': Tree<Node?>)
      requires Shaped() && shape == Plug(p, t)
      requires InsertPending(p, t) && t.node == x && p != Top && p.red
      modifies this`root, this`shape, nodes
      ensures Shaped() && shape == Plug(p', t') && Inorder(shape) == old(Inorder(shape))
      ensures InsertPending(p', t') && t'.node == node && Depth(p') < Depth(p) && InsertFixed(p', t') == InsertFixed(p, t)
    {
      hide Nodes, PathNodes, Distinct, PathDistinct, Inorder, Plug, Shaped;
      hide NoRedRed, PathNoRedRed, Balanced, PathBalanced, BlackHeight, InsertFixed;
      InsertGrandparent(p, t);
      Look(p, t);
      LookUp(p, t);
      PlugStep(p, t);
      LookUp(p.up, Join(p, t));
      var parent := x.word.parent;
      var gparent := parent.word.parent;
      if parent == gparent.left {
        node, p', t' := InsertStepLeft(x, p, t);
      } else {
        node, p', t' := InsertStepRight(x, p, t);
      }
    }

    /** `rb_insert_color` */
    method InsertColor(x: Node, ghost p0: Path<Node?>, ghost t0: Tree<Node?>)
      requires Shaped() && shape == Plug(p0, t0)
      requires InsertPending(p0, t0) && t0.node == x
      modifies this`root, this`shape, nodes
      ensures Shaped() && RedBlackTree(shape) && Inorder(shape) == old(Inorder(shape)) && shape == InsertFixed(p0, t0)
    {
      hide Nodes, PathNodes, Distinct, PathDistinct, Inorder, Plug;
      hide NoRedRed, PathNoRedRed, Balanced, PathBalanced, BlackHeight, RedBlackTree, InsertFixed;
      var node := x;
      ghost var p, t := p0, t0;
      LookUp(p, t);
      while node.word.parent != null && node.word.parent.word.red
        invariant Shaped() && shape == Plug(p, t) && Inorder(shape) == old(Inorder(shape))
        invariant InsertPending(p, t) && t.node == node && InsertFixed(p, t) == InsertFixed(p0, t0)
        invariant node.word.parent == Parent(p, NONE)
        invariant p != Top ==> p.node != null && node.word.parent.word.red == p.red
        decreases Depth(p)
      {
        node, p, t := InsertStep(node, p, t);
        LookUp(p, t);
      }
      ClimbEnds(p, t);
      BlackenRoot();
    }

    /** The last statement of `rb_insert_color`. */
    method BlackenRoot()
      requires Shaped() && shape != Leaf
      modifies this`shape, nodes
      ensures Shaped() && shape == Blacken(old(shape)) && Inorder(shape) == old(Inorder(shape))
    {
      Look(Top, shape);
      Paint(root, false, Top, shape);
    }

    // ----- erasing -----

    /** The sibling, a red right child, becomes the grandparent. */
    method RaiseRight(parent: Node, other: Node, ghost p: Path<Node?>, ghost t: Tree<Node?>)
      requires Shaped() && shape == Plug(p, t)
      requires p.InLeft? && p.node == parent && p.right.Branch? && p.right.node == other
      modifies this`root, this`shape, nodes
      ensures Shaped() && Inorder(shape) == old(Inorder(shape))
      ensures shape == Plug(InLeft(InLeft(p.up, other, false, p.right.right), parent, true, p.right.left), t)
    {
      hide Plug, PathNodes, Nodes, Distinct, PathDistinct, Inorder, Shaped;
      ghost var wt := p.right.(red := false);
      LookUp(p, t);
      LookAcross(p, t);
      Paint(other, false, Across(p, t), p.right);
      PlugStep(InLeft(p.up, parent, p.red, wt), t);
      Paint(parent, true, p.up, Branch(t, parent, p.red, wt));
      RotateLeft(parent, p.up, Branch(t, parent, true, wt));
      PlugStep(InLeft(p.up, other, false, wt.right), Branch(t, parent, true, wt.left));
      PlugStep(InLeft(InLeft(p.up, other, false, wt.right), parent, true, wt.left), t);
    }

    /** The near child of the sibling, a right child, takes its place. */
    method TurnSiblingRight(other: Node, ghost p: Path<Node?>, ghost t: Tree<Node?>)
      requires Shaped() && shape == Plug(p, t)
      requires p.InLeft? && p.right.Branch? && p.right.node == other && p.right.left.Branch?
      modifies this`root, this`shape, nodes
      ensures Shaped() && Inorder(shape) == old(Inorder(shape))
      ensures shape == Plug(InLeft(p.up, p.node, p.red, RedBlack.RotateRight(Branch(Blacken(p.right.left), other, true, p.right.right))), t)
    {
      hide Plug, PathNodes, Nodes, Distinct, PathDistinct, Inorder, Shaped;
      ghost var q, wt := Across(p, t), p.right;
      ghost var l := Blacken(wt.left);
      LookAcross(p, t);
      Paint(other.left, false, InLeft(q, other, wt.red, wt.right), wt.left);
      PlugStep(InLeft(q, other, wt.red, wt.right), l);
      Paint(other, true, q, Branch(l, other, wt.red, wt.right));
      RotateRight(other, q, Branch(l, other, true, wt.right));
      PlugStep(InLeft(p.up, p.node, p.red, RedBlack.RotateRight(Branch(l, other, true, wt.right))), t);
    }

    /** The sibling, a right child with a right child, takes the place of the parent. */
    method LiftSiblingRight(parent: Node, other: Node, ghost p: Path<Node?>, ghost t: Tree<Node?>)
      requires Shaped() && shape == Plug(p, t)
      requires p.InLeft? && p.node == parent && p.right.Branch? && p.right.node == other && p.right.right.Branch?
      modifies this`root, this`shape, nodes
      ensures Shaped() && Inorder(shape) == old(Inorder(shape))
      ensures shape == Plug(p.up, Branch(Branch(t, parent, false, p.right.left), other, p.red, Blacken(p.right.right)))
    {
      hide Plug, PathNodes, Nodes, Distinct, PathDistinct, Inorder, Shaped;
      ghost var l, r := p.right.left, p.right.right;
      LookUp(p, t);
      LookAcross(p, t);
      Paint(other, parent.word.red, Across(p, t), p.right);
      PlugStep(InLeft(p.up, parent, p.red, Branch(l, other, p.red, r)), t);
      Paint(parent, false, p.up, Branch(t, parent, p.red, Branch(l, other, p.red, r)));
      PlugStep(InLeft(p.up, parent, false, Branch(l, other, p.red, r)), t);
      LookAcross(InLeft(p.up, parent, false, Branch(l, other, p.red, r)), t);
      Paint(other.right, false, InRight(InRight(p.up, t, parent, false), l, other, p.red), r);
      PlugStep(InRight(InRight(p.up, t, parent, false), l, other, p.red), Blacken(r));
      PlugStep(InRight(p.up, t, parent, false), Branch(l, other, p.red, Blacken(r)));
      RotateLeft(parent, p.up, Branch(t, parent, false, Branch(l, other, p.red, Blacken(r))));
    }

    /** The sibling has a red child: rotations restore the whole tree. */
    method EraseEndLeft(parent: Node, other0: Node, ghost p0: Path<Node?>, ghost t: Tree<Node?>) returns (node: Node)
      requires Shaped() && shape == Plug(p0, t)
      requires DeletePending(p0, t) && !IsRed(t)
      requires p0.InLeft? && parent == p0.node
      requires p0.right.Branch? && p0.right.node == other0 && !p0.right.red
      requires IsRed(p0.right.left) || IsRed(p0.right.right)
      modifies this`root, this`shape, nodes
      ensures Shaped() && shape == Plug(Top, shape) && Inorder(shape) == old(Inorder(shape))
      ensures DeletePending(Top, shape) && shape.Branch? && shape.node == node
    {
      hide Plug, Nodes, PathNodes, Distinct, PathDistinct, Inorder, Shaped;
      hide NoRedRed, PathNoRedRed, Balanced, PathBalanced, BlackHeight, RedBlackTree, DeletePending;
      ghost var p := p0;
      LookUp(p, t);
      LookAcross(p, t);
      var other := other0;
      if other.right == null || !other.right.word.red {
        DeleteTurnedRight(p.up, t, p.node, p.red, p.right);
        TurnSiblingRight(other, p, t);
        p := InLeft(p.up, p.node, p.red, RedBlack.RotateRight(Branch(Blacken(p.right.left), other, true, p.right.right)));
        LookUp(p, t);
        LookAcross(p, t);
        other := parent.right;
      }
      DeleteLiftedLeft(p.up, t, p.node, p.red, p.right);
      LiftSiblingRight(parent, other, p, t);
      PlugBranch(p.up, Branch(Branch(t, p.node, false, p.right.left), other, p.red, Blacken(p.right.right)));
      DeleteAtRoot(shape);
      PlugTop(shape);
      Look(Top, shape);
      node := root;
    }

    /** One round of the loop when the node short of a black one is a left child. */
    method EraseStepLeft(x: Node?, above: Node, ghost p0: Path<Node?>, ghost t: Tree<Node?>)
      returns (node: Node, parent: Node?, done: bool, ghost p': Path<Node?>, ghost t': Tree<Node?>)
      requires Shaped() && shape == Plug(p0, t)
      requires DeletePending(p0, t) && !IsRed(t) && x == Ptr(t, NONE)
      requires p0.InLeft? && above == p0.node
      modifies this`root, this`shape, nodes
      ensures Shaped() && shape == Plug(p', t') && Inorder(shape) == old(Inorder(shape))
      ensures DeletePending(p', t') && t'.Branch? && t'.node == node
      ensures if done then p' == Top else parent == Parent(p', NONE) && Depth(p') < Depth(p0) + (if IsRed(t') then 1 else 0)
    {
      hide Plug, Nodes, PathNodes, Distinct, PathDistinct, Inorder, Shaped;
      hide NoRedRed, PathNoRedRed, Balanced, PathBalanced, BlackHeight, RedBlackTree, DeletePending;
      ghost var p := p0;
      DeleteSibling(p, t);
      LookUp(p, t);
      LookAcross(p, t);
      parent := above;
      var other := parent.right;
      if other.word.red {
        DeleteRotatedLeft(p.up, t, p.node, p.red, p.right);
        RaiseRight(parent, other, p, t);
        p := InLeft(InLeft(p.up, other, false, p.right.right), p.node, true, p.right.left);
        DeleteSibling(p, t);
        LookUp(p, t);
        LookAcross(p, t);
        other := parent.right;
      }
      if (other.left == null || !other.left.word.red) && (other.right == null || !other.right.word.red) {
        DeleteRecoloured(p, t);
        Paint(other, true, Across(p, t), p.right);
        p', t' := p.up, JoinWith(p, t, p.right.(red := true));
        PlugStep(InLeft(p.up, p.node, p.red, p.right.(red := true)), t);
        LookUp(p', t');
        node := parent;
        parent := node.word.parent;
        done := false;
      } else {
        node := EraseEndLeft(parent, other, p, t);
        done := true;
        p', t' := Top, shape;
      }
    }

    /** The sibling, a red left child, becomes the grandparent. */
    method RaiseLeft(parent: Node, other: Node, ghost p: Path<Node?>, ghost t: Tree<Node?>)
      requires Shaped() && shape == Plug(p, t)
      requires p.InRight? && p.node == parent && p.left.Branch? && p.left.node == other
      modifies this`root, this`shape, nodes
      ensures Shaped() && Inorder(shape) == old(Inorder(shape))
      ensures shape == Plug(InRight(InRight(p.up, p.left.left, other, false), p.left.right, parent, true), t)
    {
      hide Plug, PathNodes, Nodes, Distinct, PathDistinct, Inorder, Shaped;
      ghost var wt := p.left.(red := false);
      LookUp(p, t);
      LookAcross(p, t);
      Paint(other, false, Across(p, t), p.left);
      PlugStep(InRight(p.up, wt, parent, p.red), t);
      Paint(parent, true, p.up, Branch(wt, parent, p.red, t));
      RotateRight(parent, p.up, Branch(wt, parent, true, t));
      PlugStep(InRight(p.up, wt.left, other, false), Branch(wt.right, parent, true, t));
      PlugStep(InRight(InRight(p.up, wt.left, other, false), wt.right, parent, true), t);
    }

    /** The near child of the sibling, a left child, takes its place. */
    method TurnSiblingLeft(other: Node, ghost p: Path<Node?>, ghost t: Tree<Node?>)
      requires Shaped() && shape == Plug(p, t)
      requires p.InRight? && p.left.Branch? && p.left.node == other && p.left.right.Branch?
      modifies this`root, this`shape, nodes
      ensures Shaped() && Inorder(shape) == old(Inorder(shape))
      ensures shape == Plug(InRight(p.up, RedBlack.RotateLeft(Branch(p.left.left, other, true, Blacken(p.left.right))), p.node, p.red), t)
    {
      hide Plug, PathNodes, Nodes, Distinct, PathDistinct, Inorder, Shaped;
      ghost var q, wt := Across(p, t), p.left;
      ghost var l := Blacken(wt.right);
      LookAcross(p, t);
      Paint(other.right, false, InRight(q, wt.left, other, wt.red), wt.right);
      PlugStep(InRight(q, wt.left, other, wt.red), l);
      Paint(other, true, q, Branch(wt.left, other, wt.red, l));
      RotateLeft(other, q, Branch(wt.left, other, true, l));
      PlugStep(InRight(p.up, RedBlack.RotateLeft(Branch(wt.left, other, true, l)), p.node, p.red), t);
    }

    /** The sibling, a left child with a left child, takes the place of the parent. */
    method LiftSiblingLeft(parent: Node, other: Node, ghost p: Path<Node?>, ghost t: Tree<Node?>)
      requires Shaped() && shape == Plug(p, t)
      requires p.InRight? && p.node == parent && p.left.Branch? && p.left.node == other && p.left.left.Branch?
      modifies this`root, this`shape, nodes
      ensures Shaped() && Inorder(shape) == old(Inorder(shape))
      ensures shape == Plug(p.up, Branch(Blacken(p.left.left), other, p.red, Branch(p.left.right, parent, false, t)))
    {
      hide Plug, PathNodes, Nodes, Distinct, PathDistinct, Inorder, Shaped;
      ghost var l, r := p.left.right, p.left.left;
      LookUp(p, t);
      LookAcross(p, t);
      Paint(other, parent.word.red, Across(p, t), p.left);
      PlugStep(InRight(p.up, Branch(r, other, p.red, l), parent, p.red), t);
      Paint(parent, false, p.up, Branch(Branch(r, other, p.red, l), parent, p.red, t));
      PlugStep(InRight(p.up, Branch(r, other, p.red, l), parent, false), t);
      LookAcross(InRight(p.up, Branch(r, other, p.red, l), parent, false), t);
      Paint(other.left, false, InLeft(InLeft(p.up, parent, false, t), other, p.red, l), r);
      PlugStep(InLeft(InLeft(p.up, parent, false, t), other, p.red, l), Blacken(r));
      PlugStep(InLeft(p.up, parent, false, t), Branch(Blacken(r), other, p.red, l));
      RotateRight(parent, p.up, Branch(Branch(Blacken(r), other, p.red, l), parent, false, t));
    }

    /** The sibling has a red child: rotations restore the whole tree. */
    method EraseEndRight(parent: Node, other0: Node, ghost p0: Path<Node?>, ghost t: Tree<Node?>) returns (node: Node)
      requires Shaped() && shape == Plug(p0, t)
      requires DeletePending(p0, t) && !IsRed(t)
      requires p0.InRight? && parent == p0.node
      requires p0.left.Branch? && p0.left.node == other0 && !p0.left.red
      requires IsRed(p0.left.right) || IsRed(p0.left.left)
      modifies this`root, this`shape, nodes
      ensures Shaped() && shape == Plug(Top, shape) && Inorder(shape) == old(Inorder(shape))
      ensures DeletePending(Top, shape) && shape.Branch? && shape.node == node
    {
      hide Plug, Nodes, PathNodes, Distinct, PathDistinct, Inorder, Shaped;
      hide NoRedRed, PathNoRedRed, Balanced, PathBalanced, BlackHeight, RedBlackTree, DeletePending;
      ghost var p := p0;
      LookUp(p, t);
      LookAcross(p, t);
      var other := other0;
      if other.left == null || !other.left.word.red {
        DeleteTurnedLeft(p.up, t, p.node, p.red, p.left);
        TurnSiblingLeft(other, p, t);
        p := InRight(p.up, RedBlack.RotateLeft(Branch(p.left.left, other, true, Blacken(p.left.right))), p.node, p.red);
        LookUp(p, t);
        LookAcross(p, t);
        other := parent.left;
      }
      DeleteLiftedRight(p.up, t, p.node, p.red, p.left);
      LiftSiblingLeft(parent, other, p, t);
      PlugBranch(p.up, Branch(Blacken(p.left.left), other, p.red, Branch(p.left.right, p.node, false, t)));
      DeleteAtRoot(shape);
      PlugTop(shape);
      Look(Top, shape);
      node := root;
    }

    /** One round of the loop when the node short of a black one is a right child. */
    method EraseStepRight(x: Node?, above: Node, ghost p0: Path<Node?>, ghost t: Tree<Node?>)
      returns (node: Node, parent: Node?, done: bool, ghost p': Path<Node?>, ghost t': Tree<Node?>)
      requires Shaped() && shape == Plug(p0, t)
      requires DeletePending(p0, t) && !IsRed(t) && x == Ptr(t, NONE)
      requires p0.InRight? && above == p0.node
      modifies this`root, this`shape, nodes
      ensures Shaped() && shape == Plug(p', t') && Inorder(shape) == old(Inorder(shape))
      ensures DeletePending(p', t') && t'.Branch? && t'.node == node
      ensures if done then p' == Top else parent == Parent(p', NONE) && Depth(p') < Depth(p0) + (if IsRed(t') then 1 else 0)
    {
      hide Plug, Nodes, PathNodes, Distinct, PathDistinct, Inorder, Shaped;
      hide NoRedRed, PathNoRedRed, Balanced, PathBalanced, BlackHeight, RedBlackTree, DeletePending;
      ghost var p := p0;
      DeleteSibling(p, t);
      LookUp(p, t);
      LookAcross(p, t);
      parent := above;
      var other := parent.left;
      if other.word.red {
        DeleteRotatedRight(p.up, t, p.node, p.red, p.left);
        RaiseLeft(parent, other, p, t);
        p := InRight(InRight(p.up, p.left.left, other, false), p.left.right, p.node, true);
        DeleteSibling(p, t);
        LookUp(p, t);
        LookAcross(p, t);
        other := parent.left;
      }
      if (other.right == null || !other.right.word.red) && (other.left == null || !other.left.word.red) {
        DeleteRecoloured(p, t);
        Paint(other, true, Across(p, t), p.left);
        p', t' := p.up, JoinWith(p, t, p.left.(red := true));
        PlugStep(InRight(p.up, p.left.(red := true), p.node, p.red), t);
        LookUp(p', t');
        node := parent;
        parent := node.word.parent;
        done := false;
      } else {
        node := EraseEndRight(parent, other, p, t);
        done := true;
        p', t' := Top, shape;
      }
    }

    method EraseStep(x: Node?, above: Node, ghost p: Path<Node?>, ghost t: Tree<Node?>)
      returns (node: Node, parent: Node?, done: bool, ghost p': Path<Node?>, ghost t': Tree<Node?>)
      requires Shaped() && shape == Plug(p, t)
      requires DeletePending(p, t) && p != Top && !IsRed(t) && x == Ptr(t, NONE) && above == p.node
      modifies this`root, this`shape, nodes
      ensures Shaped() && shape == Plug(p', t') && Inorder(shape) == old(Inorder(shape))
      ensures DeletePending(p', t') && t'.Branch? && t'.node == node
      ensures if done then p' == Top else parent == Parent(p', NONE) && Depth(p') < Depth(p) + (if IsRed(t') then 1 else 0)
    {
      hide Plug, Nodes, PathNodes, Distinct, PathDistinct, Inorder, Shaped;
      hide NoRedRed, PathNoRedRed, Balanced, PathBalanced, BlackHeight, DeletePending;
      DeleteSibling(p, t);
      LookUp(p, t);
      if above.left == x {
        node, parent, done, p', t' := EraseStepLeft(x, above, p, t);
      } else {
        node, parent, done, p', t' := EraseStepRight(x, above, p, t);
      }
    }

    /** `__rb_erase_color` */
    method EraseColor(x: Node?, above: Node?, ghost p0: Path<Node?>, ghost t0: Tree<Node?>)
      requires Shaped() && shape == Plug(p0, t0)
      requires DeletePending(p0, t0) && x == Ptr(t0, NONE) && above == Parent(p0, NONE)
      modifies this`root, this`shape, nodes
      ensures Shaped() && RedBlackTree(shape) && Inorder(shape) == old(Inorder(shape))
    {
      hide Plug, Nodes, PathNodes, Distinct, PathDistinct, Inorder, Shaped;
      hide NoRedRed, PathNoRedRed, Balanced, PathBalanced, BlackHeight, RedBlackTree, DeletePending;
      var node, parent := x, above;
      ghost var p, t := p0, t0;
      LookUp(p, t);
      Look(p, t);
      while (node == null || !node.word.red) && node != root
        invariant Shaped() && shape == Plug(p, t) && Inorder(shape) == old(Inorder(shape))
        invariant DeletePending(p, t) && node == Ptr(t, NONE) && parent == Parent(p, NONE)
        invariant (t.Branch? ==> node != null && node.word.red == t.red) && (p.Top? <==> node == root)
        invariant p != Top ==> p.node != null
        decreases Depth(p), if IsRed(t) then 0 else 1
      {
        var done;
        node, parent, done, p, t := EraseStep(node, parent, p, t);
        LookUp(p, t);
        Look(p, t);
        if done {
          break;
        }
      }
      LookUp(p, t);
      Look(p, t);
      DeleteDone(p, t);
      if node != null {
        Paint(node, false, p, t);
      }
    }

    /** Sets the parent of a child, if there is one. */
    method Adopt(child: Node?, parent: Node?, ghost t: Tree<Node?>, ghost was: Node?)
      requires Fits(t, was) && child == Ptr(t, NONE)
      modifies Nodes(t)
      ensures Fits(t, parent)
    {
      hide CellOf;
      if child != null {
        child.word := child.word.(parent := parent);
      }
      forall n | n in Nodes(t) ensures n != null && Holds(n, CellOf(t, parent, NONE, n)) {
        Reparent(t, was, parent, NONE, n);
      }
    }

    /** A node with at most one child: the child takes its place. */
    method RemoveHere(node: Node, child: Node?, ghost p: Path<Node?>, ghost t: Tree<Node?>) returns (parent: Node?, red: bool)
      requires Shaped() && shape == Plug(p, t)
      requires t.Branch? && t.node == node && (t.left.Leaf? || t.right.Leaf?) && child == Ptr(Rest(t), NONE)
      modifies this`root, this`shape, this`nodes, nodes
      ensures Shaped() && shape == Plug(p, Rest(t)) && nodes == old(nodes) - {node}
      ensures parent == Parent(p, NONE) && red == t.red
    {
      hide CellOf, PathCellOf, Nodes, PathNodes, Plug, Distinct, PathDistinct, Inorder;
      Unzip(p, t);
      RemoveHereApart(p, t);
      parent, red := Detach(node, child, p, t);
      shape, nodes := Plug(p, Rest(t)), nodes - {node};
      Zip(p, Rest(t));
    }

    /** The links that change when a child takes the place of its parent. */
    method Detach(node: Node, child: Node?, ghost p: Path<Node?>, ghost t: Tree<Node?>) returns (parent: Node?, red: bool)
      requires Fits(t, Parent(p, NONE)) && FitsPath(p, node) && PathNodes(p) <= nodes && Nodes(t) <= nodes
      requires Distinct(t) && PathDistinct(p) && PathNodes(p) !! Nodes(t)
      requires root == if p.Top? then node else RootOf(p)
      requires t.Branch? && t.node == node && (t.left.Leaf? || t.right.Leaf?) && child == Ptr(Rest(t), NONE)
      modifies this`root, PathNodes(p), Nodes(t)
      ensures Fits(Rest(t), Parent(p, NONE)) && FitsPath(p, child)
      ensures root == if p.Top? then child else RootOf(p)
      ensures parent == Parent(p, NONE) && red == t.red
    {
      hide CellOf, PathCellOf, Nodes, PathNodes, Plug, Distinct, PathDistinct, Inorder;
      BranchApart(t, Parent(p, NONE), NONE);
      if p != Top {
        LastIsNode(p);
      }
      parent := node.word.parent;
      red := node.word.red;
      Adopt(child, parent, Rest(t), node);
      Relink(node, child, p);
    }

    /** The first node of a subtree, below its root, is taken out of its place. */
    method UnlinkMin(child: Node?, parent: Node, ghost q: Path<Node?>, ghost s: Tree<Node?>, ghost above: Node?)
      requires Distinct(Plug(q, s)) && Fits(Plug(q, s), above)
      requires q.InLeft? && s.Branch? && s.left.Leaf? && parent == q.node && child == Ptr(s.right, NONE)
      modifies Nodes(Plug(q, s)) - {s.node}
      ensures Fits(Plug(q, s.right), above)
    {
      hide CellOf, Nodes, PathNodes, Plug, Distinct, PathDistinct, Inorder;
      UnlinkInside(q, s, above, NONE);
      if child != null {
        child.word := child.word.(parent := parent);
      }
      parent.left := child;
    }

    /** The first node of the right subtree takes the place of the root of a subtree. */
    method Succeed(old_: Node, node: Node, ghost t: Tree<Node?>, ghost q: Path<Node?>, ghost s: Tree<Node?>, ghost above: Node?)
      returns (child: Node?, parent: Node?, red: bool)
      requires Distinct(t) && Fits(t, above) && Nodes(t) <= nodes
      requires t.Branch? && t.node == old_ && t.right == Plug(q, s) && LeftSpine(q)
      requires s.Branch? && s.left.Leaf? && s.node == node
      modifies Nodes(t)
      ensures Fits(Branch(t.left, node, t.red, Plug(q, s.right)), above)
      ensures child == Ptr(s.right, NONE) && parent == (if q.Top? then node else q.node) && red == s.red
    {
      hide CellOf, Nodes, PathNodes, Plug, Distinct, PathDistinct, Inorder, Fits;
      ghost var r := Plug(q, s.right);
      Parts(t, above);
      SucceedApart(t, q, s, NONE);
      SuccessorHolds(t, q, s);
      BranchParts(Branch(t.left, node, t.red, r));
      child := node.right;
      parent := node.word.parent;
      red := node.word.red;
      if parent == old_ {
        PlugTop(s);
        PlugTop(s.right);
        Parts(s, old_);
        parent := node;
      } else {
        UnlinkMin(child, parent, q, s, old_);
        node.right := old_.right;
        Adopt(old_.right, node, r, old_);
      }
      node.word := old_.word;
      node.left := old_.left;
      Adopt(old_.left, node, t.left, old_);
      Join3(t.left, node, t.red, r, above);
    }

    /** What the heap holds of a tree, part by part. */
    lemma Parts(t: Tree<Node?>, above: Node?)
      requires t.Branch? && Distinct(t) && Fits(t, above)
      ensures t.node != null && Holds(t.node, Cell(Ptr(t.left, NONE), Ptr(t.right, NONE), above, t.red))
      ensures Fits(t.left, t.node) && Fits(t.right, t.node)
      ensures Nodes(t.left) !! Nodes(t.right) && t.node !in Nodes(t.left) && t.node !in Nodes(t.right)
      ensures t.node in Nodes(t) && Nodes(t.left) <= Nodes(t) && Nodes(t.right) <= Nodes(t)
    {
      hide CellOf, Nodes, Distinct;
      BranchApart(t, above, NONE);
    }

    lemma SuccessorHolds(t: Tree<Node?>, q: Path<Node?>, s: Tree<Node?>)
      requires t.Branch? && Distinct(t) && Fits(t.right, t.node) && t.right == Plug(q, s)
      requires s.Branch? && s.left.Leaf? && LeftSpine(q)
      ensures s.node != null && (q != Top ==> q.node != null)
      ensures Holds(s.node, Cell(null, Ptr(s.right, NONE), if q.Top? then t.node else q.node, s.red))
    {
      hide CellOf, Nodes, Plug, Distinct;
      SucceedApart(t, q, s, NONE);
    }

    /** A root and two subtrees that the heap holds make a tree that it holds. */
    lemma Join3(l: Tree<Node?>, n: Node, red: bool, r: Tree<Node?>, above: Node?)
      requires Distinct(Branch(l, n, red, r)) && Fits(l, n) && Fits(r, n)
      requires Holds(n, Cell(Ptr(l, NONE), Ptr(r, NONE), above, red))
      ensures Fits(Branch(l, n, red, r), above)
    {
      hide CellOf, Nodes, Distinct;
      ghost var t: Tree<Node?> := Branch(l, n, red, r);
      BranchApart(t, above, NONE);
      forall m | m in Nodes(t) ensures m != null && Holds(m, CellOf(t, above, NONE, m)) {
      }
    }

    /** A node with two children. */
    method RemoveInner(old_: Node, node: Node, ghost p: Path<Node?>, ghost t: Tree<Node?>, ghost q: Path<Node?>, ghost s: Tree<Node?>)
      returns (child: Node?, parent: Node?, red: bool)
      requires Shaped() && shape == Plug(p, t)
      requires t.Branch? && t.node == old_ && t.right == Plug(q, s) && LeftSpine(q)
      requires s.Branch? && s.left.Leaf? && s.node == node
      modifies this`root, this`shape, this`nodes, nodes
      ensures Shaped() && shape == Plug(p, Branch(t.left, node, t.red, Plug(q, s.right))) && nodes == old(nodes) - {old_}
      ensures child == Ptr(s.right, NONE) && parent == (if q.Top? then node else q.node) && red == s.red
    {
      hide CellOf, PathCellOf, Nodes, PathNodes, Plug, Distinct, PathDistinct, Inorder, Fits, FitsPath;
      ghost var t' := Branch(t.left, node, t.red, Plug(q, s.right));
      Unzip(p, t);
      Parts(t, Parent(p, NONE));
      SubstituteNodes(p, t, q, s);
      Relink(old_, node, p);
      child, parent, red := Succeed(old_, node, t, q, s, Parent(p, NONE));
      shape, nodes := Plug(p, t'), nodes - {old_};
      PlugDistinct(p, t');
      Zip(p, t');
    }

    /** The leftmost node of a subtree. */
    method Leftmost(x: Node, ghost p: Path<Node?>, ghost t: Tree<Node?>)
      returns (m: Node, ghost q: Path<Node?>, ghost s: Tree<Node?>)
      requires Shaped() && shape == Plug(p, t) && t.Branch? && t.node == x
      ensures LeftSpine(q) && Plug(q, s) == t && s.Branch? && s.left.Leaf? && s.node == m
    {
      hide Nodes, PathNodes, Distinct, PathDistinct, Inorder;
      m, q, s := x, Top, t;
      PlugOver(q, p, s);
      Look(Over(q, p), s);
      while m.left != null
        invariant LeftSpine(q) && Plug(q, s) == t && s.Branch? && s.node == m
        invariant m.left == Ptr(s.left, NONE) && (s.left.Branch? ==> s.left.node in nodes) && null !in nodes
        decreases s
      {
        m, q, s := m.left, InLeft(q, s.node, s.red, s.right), s.left;
        PlugOver(q, p, s);
        Look(Over(q, p), s);
      }
    }

    method EraseHere(node: Node, child: Node?, ghost p: Path<Node?>, ghost t: Tree<Node?>)
      requires Shaped() && shape == Plug(p, t) && RedBlackTree(shape)
      requires t.Branch? && t.node == node && (t.left.Leaf? || t.right.Leaf?) && child == Ptr(Rest(t), NONE)
      modifies this`root, this`shape, this`nodes, nodes
      ensures Shaped() && RedBlackTree(shape)
      ensures Inorder(shape) == Without(old(Inorder(shape)), node) && nodes == old(nodes) - {node}
    {
      hide Nodes, PathNodes, Plug, Distinct, PathDistinct, Inorder, Shaped;
      hide NoRedRed, PathNoRedRed, Balanced, PathBalanced, BlackHeight, RedBlackTree, DeletePending, Without;
      StillDistinct();
      if t.red {
        SpliceRed(p, t);
      } else {
        SpliceBlack(p, t);
      }
      SpliceInorder(p, t);
      var parent, red := RemoveHere(node, child, p, t);
      if !red {
        EraseColor(child, parent, p, Rest(t));
      }
    }

    lemma StillDistinct()
      requires Shaped()
      ensures Distinct(shape)
    {
    }

    method EraseInner(old_: Node, ghost p: Path<Node?>, ghost t: Tree<Node?>)
      requires Shaped() && shape == Plug(p, t) && RedBlackTree(shape)
      requires t.Branch? && t.node == old_ && t.right.Branch?
      modifies this`root, this`shape, this`nodes, nodes
      ensures Shaped() && RedBlackTree(shape)
      ensures Inorder(shape) == Without(old(Inorder(shape)), old_) && nodes == old(nodes) - {old_}
    {
      hide Nodes, PathNodes, Plug, Distinct, PathDistinct, Inorder, Shaped, Over, LeftSpine;
      hide NoRedRed, PathNoRedRed, Balanced, PathBalanced, BlackHeight, RedBlackTree, DeletePending, Without;
      ghost var outer := InRight(p, t.left, old_, t.red);
      Look(p, t);
      PlugStep(outer, t.right);
      var node;
      ghost var q, s;
      node, q, s := Leftmost(old_.right, outer, t.right);
      StillDistinct();
      SubstituteRedBlack(p, t, q, s);
      SubstituteInorder(p, t, q, s);
      var child, parent, red := RemoveInner(old_, node, p, t, q, s);
      outer := InRight(p, t.left, node, t.red);
      OverTop(outer);
      OverLast(q, outer);
      if !red {
        EraseColor(child, parent, Over(q, outer), s.right);
      }
    }

    /** `rb_erase` */
    method Erase(node: Node)
      requires Shaped() && RedBlackTree(shape) && node in nodes
      modifies this`root, this`shape, this`nodes, nodes
      ensures Shaped() && RedBlackTree(shape)
      ensures Inorder(shape) == Without(old(Inorder(shape)), node) && nodes == old(nodes) - {node}
    {
      hide Nodes, PathNodes, Plug, Distinct, PathDistinct, Inorder, RedBlackTree, Without;
      PlugTop(shape);
      ghost var p, t := Locate(Top, shape, node);
      Look(p, t);
      if node.left == null {
        EraseHere(node, node.right, p, t);
      } else if node.right == null {
        EraseHere(node, node.left, p, t);
      } else {
        EraseInner(node, p, t);
      }
    }

    // ----- linking a new node -----

    /** The node at a link. */
    function At(link: Link): Node?
      reads this, if link.AtRoot? then {} else {link.node}
    {
      match link
      case AtRoot => root
      case LeftOf(n) => n.left
      case RightOf(n) => n.right
    }

    /** The link at the end of a path. */
    lemma LinkAt(p: Path<Node?>, t: Tree<Node?>)
      requires Shaped() && shape == Plug(p, t)
      ensures p != Top ==> p.node != null && p.node in nodes
      ensures At(LinkOf(p)) == Ptr(t, NONE)
    {
      LookUp(p, t);
      Look(p, t);
    }

    /** `rb_link_node` at an empty link. */
    method LinkNode(node: Node, parent: Node?, link: Link, ghost p: Path<Node?>)
      requires Shaped() && shape == Plug(p, Leaf) && node !in nodes
      requires (p != Top ==> p.node != null) && LinkOf(p) == link && parent == Parent(p, NONE)
      modifies this`root, this`shape, this`nodes, nodes, node
      ensures Shaped() && shape == Plug(p, Branch(Leaf, node, true, Leaf)) && nodes == old(nodes) + {node}
    {
      hide CellOf, PathCellOf, Plug, Distinct, PathDistinct, Inorder, Nodes, PathNodes, Fits, FitsPath, Shaped;
      ghost var t: Tree<Node?> := Branch(Leaf, node, true, Leaf);
      Unzip(p, Leaf);
      Within();
      NewLeaf(p, node);
      node.word := Word(parent, true);
      node.left, node.right := null, null;
      FreshBranch(node, parent);
      FillLink(link, node, p);
      shape, nodes := Plug(p, t), nodes + {node};
      Zip(p, t);
    }

    /** Fills an empty link. */
    method FillLink(link: Link, node: Node, ghost p: Path<Node?>)
      requires FitsPath(p, null) && PathDistinct(p)
      requires (p != Top ==> p.node != null) && LinkOf(p) == link
      requires root == if p.Top? then null else RootOf(p)
      modifies this`root, (if p.Top? then {} else {p.node})`left, (if p.Top? then {} else {p.node})`right
      ensures FitsPath(p, node)
      ensures root == if p.Top? then node else RootOf(p)
    {
      hide PathCellOf;
      match link {
        case AtRoot => root := node;
        case LeftOf(n) => n.left := node;
        case RightOf(n) => n.right := node;
      }
      PathFilled(p, node);
    }

    /** The nodes of a path with a new leaf. */
    lemma NewLeaf(p: Path<Node?>, node: Node)
      requires Distinct(Plug(p, Leaf)) && node !in Nodes(Plug(p, Leaf))
      ensures var t: Tree<Node?> := Branch(Leaf, node, true, Leaf);
        && Distinct(t) && PathNodes(p) !! Nodes(t) && node !in PathNodes(p) && Nodes(t) == {node}
        && Nodes(Plug(p, t)) == Nodes(Plug(p, Leaf)) + {node}
      ensures p != Top ==> p.node in Nodes(Plug(p, Leaf))
    {
      AttachApart(p, node, null, NONE);
      PlugNodes(p, Leaf);
    }

    lemma FreshBranch(node: Node, parent: Node?)
      requires node.left == null && node.right == null && node.word == Word(parent, true)
      ensures Fits(Branch(Leaf, node, true, Leaf), parent)
    {
    }

    /** Filling the end of a path changes one link. */
    lemma PathFilled(p: Path<Node?>, hole: Node?)
      requires PathDistinct(p)
      ensures forall n :: n in PathNodes(p) ==>
        var c := PathCellOf(p, null, NONE, n);
        PathCellOf(p, hole, NONE, n) ==
          if n != p.node then c else if p.InLeft? then c.(left := hole) else c.(right := hole)
    {
    }

    lemma Within()
      requires Shaped()
      ensures nodes == Nodes(shape) && Distinct(shape)
      ensures nodes == {} <==> Inorder(shape) == []
    {
      if shape.Branch? {
        RootIsNode(shape);
      }
    }

    lemma InorderWithin()
      requires Shaped()
      ensures null !in nodes && forall n :: n in nodes <==> n in Inorder(shape)
    {
      NodesAreInorder(shape);
    }

    lemma InorderDistinct()
      requires Shaped()
      ensures NoDuplicates(Inorder(shape))
    {
      DistinctInorder(shape);
    }

    lemma EmptyInorder()
      requires Shaped() && Inorder(shape) == []
      ensures shape == Leaf && root == null
    {
    }

    // ----- the order of the nodes -----

    /** What the invariants say of the links and colours of one node. */
    lemma Neighbours(x: Node)
      requires Shaped() && RedBlackTree(shape) && x in nodes
      ensures root != null && root.word == Word(null, false)
      ensures x.left != null ==> x.left in nodes && x.left.word.parent == x && (x.word.red ==> !x.left.word.red)
      ensures x.right != null ==> x.right in nodes && x.right.word.parent == x && (x.word.red ==> !x.right.word.red)
      ensures x != root ==> x.word.parent != null && x.word.parent in nodes && (x == x.word.parent.left || x == x.word.parent.right)
    {
      hide Nodes, PathNodes, Distinct, PathDistinct, Inorder, Plug, Shaped, Balanced, NoRedRed, RedBlackTree,
        PathNoRedRed, PathBalanced;
      Within();
      var p, t := Locate(Top, shape, x);
      PlugTop(shape);
      Look(p, t);
      LookUp(p, t);
      ColoursAt(p, t);
      if t.left.Branch? {
        PlugStep(InLeft(p, t.node, t.red, t.right), t.left);
        Look(InLeft(p, t.node, t.red, t.right), t.left);
      }
      if t.right.Branch? {
        PlugStep(InRight(p, t.left, t.node, t.red), t.right);
        Look(InRight(p, t.left, t.node, t.red), t.right);
      }
      HasRoot(x);
      ColoursAt(Top, shape);
      Look(Top, shape);
    }

    lemma HasRoot(x: Node)
      requires Shaped() && x in nodes
      ensures shape.Branch?
    {
    }

    lemma ColoursAt(p: Path<Node?>, t: Tree<Node?>)
      requires RedBlackTree(shape) && shape == Plug(p, t) && t.Branch?
      ensures t.red ==> !IsRed(t.left) && !IsRed(t.right)
      ensures p == Top ==> !t.red
    {
      PlugRedBlack(p, t);
      PlugTop(t);
    }

    /** `rb_first` */
    method First() returns (n: Node?)
      requires Shaped()
      ensures n == null <==> Inorder(shape) == []
      ensures n != null ==> n in nodes && n == Inorder(shape)[0]
    {
      PlugTop(shape);
      Look(Top, shape);
      if root == null {
        return null;
      }
      ghost var q, s;
      n, q, s := Leftmost(root, Top, shape);
      SpineInorder(q, s);
      NodeIsInorder(shape, n);
    }

    /** `rb_next`: climbing is enough, whatever the keys are. */
    method Next(x: Node) returns (r: Node?)
      requires Shaped() && x in nodes
      ensures Follows(Inorder(shape), x, r)
      ensures r != null ==> r in nodes
    {
      hide Nodes, PathNodes, Plug, Distinct, PathDistinct, Inorder, LeftSpine, After;
      PlugTop(shape);
      ghost var p, t := Locate(Top, shape, x);
      Look(p, t);
      LookUp(p, t);
      ghost var j := NextAt(p, t);
      if x.word.parent == x {
        assert false;
      }
      if x.right != null {
        ghost var q, s;
        PlugStep(InRight(p, t.left, x, t.red), t.right);
        r, q, s := Leftmost(x.right, InRight(p, t.left, x, t.red), t.right);
        FirstOf(q, s);
        NodeIsInorder(shape, r);
        return r;
      }
      ghost var p', t' := p, t;
      var node: Node := x;
      while node.word.parent != null && node == node.word.parent.right
        invariant shape == Plug(p', t') && t'.Branch? && t'.node == node && After(p') == After(p)
        invariant node.word.parent == Parent(p', NONE) && (p' != Top ==> p'.node != null && p'.node in nodes)
        invariant p' != Top ==> (p'.InRight? <==> node == node.word.parent.right)
        decreases Depth(p')
      {
        AfterRight(p');
        PlugStep(p', t');
        node := node.word.parent;
        p', t' := p'.up, Join(p', t');
        LookUp(p', t');
      }
      r := node.word.parent;
      AfterEnd(p');
    }

    /** The node that follows `t.node`. */
    lemma NextAt(p: Path<Node?>, t: Tree<Node?>) returns (j: nat)
      requires Shaped() && shape == Plug(p, t) && t.Branch?
      ensures var s, rest := Inorder(shape), Inorder(t.right) + After(p);
        && (forall i :: 0 <= i < |s| && s[i] == t.node ==> i == j)
        && j < |s| && if rest == [] then j + 1 == |s| else j + 1 < |s| && s[j + 1] == rest[0]
      ensures t.right.Leaf? ==> Inorder(t.right) + After(p) == After(p)
      ensures t.right.Branch? ==> Inorder(t.right) != [] && (Inorder(t.right) + After(p))[0] == Inorder(t.right)[0]
    {
      hide Shaped, NoDuplicates, Plug, Distinct, Nodes, Before, After;
      StillDistinct();
      PlugInorder(p, t);
      DistinctInorder(shape);
      j := Middle(Before(p), Inorder(t.left), t.node, Inorder(t.right), After(p));
    }

    lemma FirstOf(q: Path<Node?>, s: Tree<Node?>)
      requires LeftSpine(q) && s.Branch? && s.left.Leaf?
      ensures Inorder(Plug(q, s)) != [] && Inorder(Plug(q, s))[0] == s.node
    {
      SpineInorder(q, s);
    }

    lemma AfterRight(p: Path<Node?>)
      requires p.InRight?
      ensures After(p) == After(p.up) && Depth(p.up) < Depth(p)
    {
    }

    lemma AfterEnd(p: Path<Node?>)
      ensures p.Top? ==> After(p) == []
      ensures p.InLeft? ==> After(p) != [] && After(p)[0] == p.node
    {
    }
  }

  /** `r` is what comes after `x`: null after the last. */
  ghost predicate Follows(s: seq<Node?>, x: Node?, r: Node?) {
    forall i :: 0 <= i < |s| && s[i] == x ==> r == if i + 1 < |s| then s[i + 1] else null
  }

  lemma FollowsAt(s: seq<Node?>, i: nat, r: Node?)
    requires i < |s| && Follows(s, s[i], r)
    ensures r == if i + 1 < |s| then s[i + 1] else null
  {
  }

  lemma Middle<N>(a: seq<N>, l: seq<N>, n: N, r: seq<N>, b: seq<N>) returns (j: nat)
    requires NoDuplicates(a + (l + [n] + r) + b)
    ensures var s, rest := a + (l + [n] + r) + b, r + b;
      && (forall i :: 0 <= i < |s| && s[i] == n ==> i == j)
      && j < |s| && if rest == [] then j + 1 == |s| else j + 1 < |s| && s[j + 1] == rest[0]
  {
    j := |a| + |l|;
    var s := a + (l + [n] + r) + b;
    assert s == a + l + [n] + (r + b);
    assert s[j] == n;
  }

  /** A place in the heap that holds a link: what a pointer to a pointer refers to. */
  datatype Link = AtRoot | LeftOf(node: Node) | RightOf(node: Node)

  ghost function LinkOf(p: Path<Node?>): Link
    requires p.Top? || p.node != null
  {
    match p
    case Top => AtRoot
    case InLeft(_, n, _, _) => LeftOf(n)
    case InRight(_, _, n, _) => RightOf(n)
  }
}
