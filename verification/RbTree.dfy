/**
 lib/core/ogs-rbtree.c on a heap of nodes: every method is the C function of the
 same name, and ghost arguments name the shape around the node it works on.
 */
module RbTree {
  import opened RbShape

  /** The fields of the nodes of `s` spell out `s`, hanging from `p`. */
  ghost predicate Linked(s: Shape, p: Timer?)
    reads Nodes(s)`parent, Nodes(s)`left, Nodes(s)`right, Nodes(s)`color
  {
    s.Node? ==>
      && s.n.parent == p && s.n.color == s.color
      && s.n.left == Root(s.left) && s.n.right == Root(s.right)
      && Linked(s.left, s.n) && Linked(s.right, s.n)
  }

  /** The fields of the nodes of `c` spell out `c` with `hole` in the hole. */
  ghost predicate LinkedCtx(c: Ctx, hole: Timer?, tp: Timer?)
    reads CNodes(c)`parent, CNodes(c)`left, CNodes(c)`right, CNodes(c)`color
  {
    match c
    case Top => true
    case LeftOf(up, n, col, r) =>
      && n.parent == Holder(up, tp) && n.color == col
      && n.left == hole && n.right == Root(r)
      && Linked(r, n) && LinkedCtx(up, n, tp)
    case RightOf(l, n, col, up) =>
      && n.parent == Holder(up, tp) && n.color == col
      && n.left == Root(l) && n.right == hole
      && Linked(l, n) && LinkedCtx(up, n, tp)
  }

  class Tree {
    var root: Timer?
    /** every node linked into the tree, and the tree they spell out */
    ghost var repr: set<Timer>
    ghost var shape: Shape

    /** The representation invariant: a red-black tree with consistent parent links. */
    ghost predicate Valid()
      reads this, repr`parent, repr`left, repr`right, repr`color
    {
      At(Top, shape) && IsRbTree(shape)
    }

    /** What the tree stands for. */
    ghost function Contents(): seq<Timer>
      reads this
    {
      InOrder(shape)
    }

    constructor ()
      ensures Valid() && Contents() == [] && repr == {}
    {
      root, repr, shape := null, {}, Leaf;
    }

    /** The heap spells out `c` filled with `s`. */
    ghost predicate At(c: Ctx, s: Shape)
      reads this`root, this`repr, repr`parent, repr`left, repr`right, repr`color
    {
      && ProperAt(c, s) && Nodes(s) + CNodes(c) == repr
      && Linked(s, Holder(c, null)) && LinkedCtx(c, Root(s), null)
      && root == TopOf(c, Root(s))
    }

    /** rb_change_child() */
    method ChangeChild(old_: Timer, new_: Timer?, parent: Timer?, ghost c: Ctx)
      requires ProperCtx(c) && CNodes(c) <= repr && parent == Holder(c, null)
      requires LinkedCtx(c, old_, null) && old_ !in CNodes(c) && root == TopOf(c, old_)
      modifies this`root, Opt(parent)`left, Opt(parent)`right
      ensures LinkedCtx(c, new_, null) && root == TopOf(c, new_)
    {
      if parent != null {
        if old_ == parent.left {
          parent.left := new_;
        } else {
          parent.right := new_;
        }
      } else {
        root := new_;
      }
    }

    /** rb_replace_node() */
    method ReplaceNode(old_: Timer, new_: Timer?, parent: Timer?, ghost c: Ctx)
      requires ProperCtx(c) && CNodes(c) <= repr && parent == Holder(c, null)
      requires LinkedCtx(c, old_, null) && old_ !in CNodes(c) && root == TopOf(c, old_) && new_ !in CNodes(c)
      modifies this`root, Opt(parent)`left, Opt(parent)`right
      modifies Opt(new_)`parent
      ensures LinkedCtx(c, new_, null) && root == TopOf(c, new_)
      ensures new_ != null ==> new_.parent == parent
    {
      ChangeChild(old_, new_, parent, c);
      if new_ != null {
        new_.parent := parent;
      }
    }

    /** The pointer writes of rb_rotate_left(); `mid` is the child that changes sides. */
    method RotateLeftLinks(node: Timer, right: Timer, mid: Timer?, ghost c: Ctx)
      requires ProperCtx(c) && CNodes(c) <= repr && LinkedCtx(c, node, null)
      requires node.parent == Holder(c, null) && root == TopOf(c, node)
      requires node !in CNodes(c) && right !in CNodes(c) && mid !in CNodes(c)
      requires node.right == right && right.left == mid && node != right && node != mid && right != mid
      modifies this`root, CNodes(c)`left, CNodes(c)`right
      modifies node`right, node`parent, right`left, right`parent, Opt(mid)`parent
      ensures LinkedCtx(c, right, null) && root == TopOf(c, right)
      ensures node.right == mid && node.parent == right && right.left == node && right.parent == Holder(c, null)
      ensures mid != null ==> mid.parent == node
    {
      node.right := right.left;
      if right.left != null {
        right.left.parent := node;
      }
      ReplaceNode(node, right, node.parent, c);
      right.left := node;
      node.parent := right;
    }

    /** rb_rotate_left() */
    method RotateLeft(node: Timer, ghost c: Ctx, ghost s: Shape)
      requires s.Node? && s.right.Node? && s.n == node && At(c, s)
      modifies this`root, repr`left, repr`right, repr`parent
      ensures At(c, RotatedLeft(s))
    {
      ghost var a, m, b := s.left, s.right.left, s.right.right;
      RotateLeftProper(c, s);
      assert Linked(s.right, node) && Linked(m, s.right.n);
      RotateLeftLinks(node, node.right, node.right.left, c);
      assert Linked(a, node);
      assert Linked(b, s.right.n);
      assert m.Node? ==> Linked(m.left, m.n) && Linked(m.right, m.n);
      assert Linked(m, node);
      assert Linked(Node(a, node, s.color, m), s.right.n);
    }

    /** The pointer writes of rb_rotate_right(); `mid` is the child that changes sides. */
    method RotateRightLinks(node: Timer, left: Timer, mid: Timer?, ghost c: Ctx)
      requires ProperCtx(c) && CNodes(c) <= repr && LinkedCtx(c, node, null)
      requires node.parent == Holder(c, null) && root == TopOf(c, node)
      requires node !in CNodes(c) && left !in CNodes(c) && mid !in CNodes(c)
      requires node.left == left && left.right == mid && node != left && node != mid && left != mid
      modifies this`root, CNodes(c)`left, CNodes(c)`right
      modifies node`left, node`parent, left`right, left`parent, Opt(mid)`parent
      ensures LinkedCtx(c, left, null) && root == TopOf(c, left)
      ensures node.left == mid && node.parent == left && left.right == node && left.parent == Holder(c, null)
      ensures mid != null ==> mid.parent == node
    {
      node.left := left.right;
      if left.right != null {
        left.right.parent := node;
      }
      ReplaceNode(node, left, node.parent, c);
      left.right := node;
      node.parent := left;
    }

    /** rb_rotate_right() */
    method RotateRight(node: Timer, ghost c: Ctx, ghost s: Shape)
      requires s.Node? && s.left.Node? && s.n == node && At(c, s)
      modifies this`root, repr`left, repr`right, repr`parent
      ensures At(c, RotatedRight(s))
    {
      ghost var a, m, b := s.left.left, s.left.right, s.right;
      RotateRightProper(c, s);
      assert Linked(s.left, node) && Linked(m, s.left.n);
      RotateRightLinks(node, node.left, node.left.right, c);
      assert Linked(b, node);
      assert Linked(a, s.left.n);
      assert m.Node? ==> Linked(m.left, m.n) && Linked(m.right, m.n);
      assert Linked(m, node);
      assert Linked(Node(m, node, s.color, b), s.left.n);
    }

    method Paint(node: Timer, color: Color, ghost c: Ctx, ghost s: Shape)
      requires s.Node? && s.n == node && At(c, s)
      modifies node`color
      ensures node.color == color && At(c, Painted(s, color))
    {
      node.color := color;
    }

    /** Moving the focus between a node and its children changes nothing. */
    lemma {:induction false} Zip(c: Ctx, s: Shape)
      requires !c.Top?
      ensures At(c, s) <==> At(c.up, Up(c, s))
    {
    }

    lemma {:induction false} ZipAll(c: Ctx, s: Shape)
      ensures At(c, s) <==> At(Top, Fill(c, s))
    {
      if !c.Top? {
        Zip(c, s);
        ZipAll(c.up, Up(c, s));
      }
    }

    /** What the fields of the children of the focus hold. */
    lemma {:induction false} Children(c: Ctx, s: Shape)
      requires At(c, s) && s.Node?
      ensures s.left.Node? ==>
                && s.left.n in repr && s.left.n.parent == s.n && s.left.n.color == s.left.color
                && s.left.n.left == Root(s.left.left) && s.left.n.right == Root(s.left.right)
      ensures s.right.Node? ==>
                && s.right.n in repr && s.right.n.parent == s.n && s.right.n.color == s.right.color
                && s.right.n.left == Root(s.right.left) && s.right.n.right == Root(s.right.right)
    {
      assert Linked(s.left, s.n) && Linked(s.right, s.n);
    }

    method PaintLeft(child: Timer, color: Color, ghost c: Ctx, ghost s: Shape)
      requires At(c, s) && s.Node? && s.left.Node? && s.left.n == child
      modifies child`color
      ensures At(c, Node(Painted(s.left, color), s.n, s.color, s.right))
    {
      ghost var c1 := LeftOf(c, s.n, s.color, s.right);
      Zip(c1, s.left);
      Paint(child, color, c1, s.left);
      Zip(c1, Painted(s.left, color));
    }

    method PaintRight(child: Timer, color: Color, ghost c: Ctx, ghost s: Shape)
      requires At(c, s) && s.Node? && s.right.Node? && s.right.n == child
      modifies child`color
      ensures At(c, Node(s.left, s.n, s.color, Painted(s.right, color)))
    {
      ghost var c1 := RightOf(s.left, s.n, s.color, c);
      Zip(c1, s.right);
      Paint(child, color, c1, s.right);
      Zip(c1, Painted(s.right, color));
    }

    /** Red parent on the left, red uncle: recolouring at the grandparent `g`. */
    method FlipLeft(uncle: Timer, parent: Timer, gparent: Timer, ghost c: Ctx, ghost g: Shape)
      requires At(c, g) && g.Node? && g.n == gparent && g.left.Node? && g.right.Node?
      requires g.left.n == parent && g.right.n == uncle
      modifies repr`color
      ensures At(c, Flipped(g))
    {
      Children(c, g);
      PaintRight(uncle, Black, c, g);
      ghost var g1 := Node(g.left, g.n, g.color, Painted(g.right, Black));
      PaintLeft(parent, Black, c, g1);
      Paint(gparent, Red, c, Node(Painted(g1.left, Black), g1.n, g1.color, g1.right));
    }

    method FlipRight(uncle: Timer, parent: Timer, gparent: Timer, ghost c: Ctx, ghost g: Shape)
      requires At(c, g) && g.Node? && g.n == gparent && g.left.Node? && g.right.Node?
      requires g.right.n == parent && g.left.n == uncle
      modifies repr`color
      ensures At(c, Flipped(g))
    {
      Children(c, g);
      PaintLeft(uncle, Black, c, g);
      ghost var g1 := Node(Painted(g.left, Black), g.n, g.color, g.right);
      PaintRight(parent, Black, c, g1);
      Paint(gparent, Red, c, Node(g1.left, g1.n, g1.color, Painted(g1.right, Black)));
    }

    /** Red parent on the left, black uncle: at most two rotations at grandparent `g`. */
    method FixLeft(node0: Timer, parent: Timer, gparent: Timer, ghost c: Ctx, ghost g: Shape)
      returns (node: Timer)
      requires At(c, g) && g.Node? && g.n == gparent && g.left.Node? && g.left.n == parent
      requires IsAt(node0, g.left.left) || IsAt(node0, g.left.right)
      modifies this`root, repr`left, repr`right, repr`parent, repr`color
      ensures At(c, FixedLeft(g, node0)) && IsAt(node, FixedLeft(g, node0).left)
    {
      node := node0;
      ghost var c1 := LeftOf(c, g.n, g.color, g.right);
      ghost var p := g.left;
      Zip(c1, p);
      Children(c1, p);
      if node == parent.right {
        node := node.parent;
        RotateLeft(node, c1, p);
        p := RotatedLeft(p);
        Children(c1, p);
      }
      Zip(c1, p);
      PaintLeft(node.parent, Black, c, Node(p, g.n, g.color, g.right));
      Paint(gparent, Red, c, Node(Painted(p, Black), g.n, g.color, g.right));
      RotateRight(gparent, c, Node(Painted(p, Black), g.n, Red, g.right));
    }

    /** Red parent on the right, black uncle. */
    method FixRight(node0: Timer, parent: Timer, gparent: Timer, ghost c: Ctx, ghost g: Shape)
      returns (node: Timer)
      requires At(c, g) && g.Node? && g.n == gparent && g.right.Node? && g.right.n == parent
      requires IsAt(node0, g.right.left) || IsAt(node0, g.right.right)
      modifies this`root, repr`left, repr`right, repr`parent, repr`color
      ensures At(c, FixedRight(g, node0)) && IsAt(node, FixedRight(g, node0).right)
    {
      node := node0;
      ghost var c1 := RightOf(g.left, g.n, g.color, c);
      ghost var p := g.right;
      Zip(c1, p);
      Children(c1, p);
      if node == parent.left {
        node := node.parent;
        RotateRight(node, c1, p);
        p := RotatedRight(p);
        Children(c1, p);
      }
      Zip(c1, p);
      PaintRight(node.parent, Black, c, Node(g.left, g.n, g.color, p));
      Paint(gparent, Red, c, Node(g.left, g.n, g.color, Painted(p, Black)));
      RotateLeft(gparent, c, Node(g.left, g.n, Red, Painted(p, Black)));
    }

    /** The loop invariant of ogs_rbtree_insert_color(). */
    ghost predicate Reddened(node: Timer, c: Ctx, s: Shape, h: nat)
      reads this`root, this`repr, repr`parent, repr`left, repr`right, repr`color
    {
      At(c, s) && IsAt(node, s) && IsRed(s) && RB(s, h) && CtxOk(c, h)
    }

    /** One turn of the loop, with the parent a left child. */
    method InsertStepLeft(node0: Timer, parent: Timer, gparent: Timer, ghost c: Ctx, ghost s: Shape, ghost h: nat)
      returns (node: Timer, ghost c': Ctx, ghost s': Shape, ghost h': nat)
      requires Reddened(node0, c, s, h) && !c.Top? && c.color.Red? && c.up.LeftOf?
      requires c.n == parent && c.up.n == gparent
      modifies this`root, repr`left, repr`right, repr`parent, repr`color
      ensures Reddened(node, c', s', h') && Depth(c') < Depth(c)
      ensures InOrder(Fill(c', s')) == InOrder(Fill(c, s))
    {
      ghost var up, g := c.up.up, Up(c.up, Up(c, s));
      Zip(c, s);
      Zip(c.up, Up(c, s));
      Children(up, g);
      var uncle := gparent.right;
      if uncle != null && uncle.color == Red {
        FlipStep(c, s, h);
        FlipLeft(uncle, parent, gparent, up, g);
        node := gparent;
        c', s', h' := up, Flipped(g), h + 1;
      } else {
        node, c', s' := FixTurnLeft(node0, parent, gparent, c, s, h);
        h' := h;
      }
    }

    method FixTurnLeft(node0: Timer, parent: Timer, gparent: Timer, ghost c: Ctx, ghost s: Shape, ghost h: nat)
      returns (node: Timer, ghost c': Ctx, ghost s': Shape)
      requires IsAt(node0, s) && RedRed(c, s, h) && c.up.LeftOf? && !IsRed(c.up.right) && At(c.up.up, Up(c.up, Up(c, s)))
      requires c.n == parent && c.up.n == gparent
      modifies this`root, repr`left, repr`right, repr`parent, repr`color
      ensures Reddened(node, c', s', h) && Depth(c') < Depth(c)
      ensures InOrder(Fill(c', s')) == InOrder(Fill(c, s))
    {
      ghost var up, g := c.up.up, Up(c.up, Up(c, s));
      FixLeftStep(c, s, h);
      ghost var f := FixedLeft(g, node0);
      node := FixLeft(node0, parent, gparent, up, g);
      c', s' := LeftOf(up, f.n, f.color, f.right), f.left;
      Zip(c', s');
    }

    /** One turn of the loop, with the parent a right child. */
    method InsertStepRight(node0: Timer, parent: Timer, gparent: Timer, ghost c: Ctx, ghost s: Shape, ghost h: nat)
      returns (node: Timer, ghost c': Ctx, ghost s': Shape, ghost h': nat)
      requires Reddened(node0, c, s, h) && !c.Top? && c.color.Red? && c.up.RightOf?
      requires c.n == parent && c.up.n == gparent
      modifies this`root, repr`left, repr`right, repr`parent, repr`color
      ensures Reddened(node, c', s', h') && Depth(c') < Depth(c)
      ensures InOrder(Fill(c', s')) == InOrder(Fill(c, s))
    {
      ghost var up, g := c.up.up, Up(c.up, Up(c, s));
      Zip(c, s);
      Zip(c.up, Up(c, s));
      Children(up, g);
      var uncle := gparent.left;
      if uncle != null && uncle.color == Red {
        FlipStep(c, s, h);
        FlipRight(uncle, parent, gparent, up, g);
        node := gparent;
        c', s', h' := up, Flipped(g), h + 1;
      } else {
        node, c', s' := FixTurnRight(node0, parent, gparent, c, s, h);
        h' := h;
      }
    }

    method FixTurnRight(node0: Timer, parent: Timer, gparent: Timer, ghost c: Ctx, ghost s: Shape, ghost h: nat)
      returns (node: Timer, ghost c': Ctx, ghost s': Shape)
      requires IsAt(node0, s) && RedRed(c, s, h) && c.up.RightOf? && !IsRed(c.up.left) && At(c.up.up, Up(c.up, Up(c, s)))
      requires c.n == parent && c.up.n == gparent
      modifies this`root, repr`left, repr`right, repr`parent, repr`color
      ensures Reddened(node, c', s', h) && Depth(c') < Depth(c)
      ensures InOrder(Fill(c', s')) == InOrder(Fill(c, s))
    {
      ghost var up, g := c.up.up, Up(c.up, Up(c, s));
      FixRightStep(c, s, h);
      ghost var f := FixedRight(g, node0);
      node := FixRight(node0, parent, gparent, up, g);
      c', s' := RightOf(f.left, f.n, f.color, up), f.right;
      Zip(c', s');
    }

    /** ogs_rbtree_insert_color(): `s0`, a red subtree where black height `h0` fits,
        is worked into a red-black tree with the same in-order nodes. */
    method InsertColor(rbNode: Timer, ghost c0: Ctx, ghost s0: Shape, ghost h0: nat)
      returns (ghost t: Shape)
      requires Reddened(rbNode, c0, s0, h0)
      modifies this`root, repr`left, repr`right, repr`parent, repr`color
      ensures At(Top, t) && IsRbTree(t) && InOrder(t) == InOrder(Fill(c0, s0))
    {
      var node := rbNode;
      ghost var c, s, h := c0, s0, h0;
      while node.parent != null && node.parent.color == Red
        invariant Reddened(node, c, s, h)
        invariant InOrder(Fill(c, s)) == InOrder(Fill(c0, s0))
        decreases Depth(c)
      {
        var parent := node.parent;
        var gparent := parent.parent;
        assert gparent != null;
        Zip(c, s);
        LeftChild(c.up, Up(c, s));
        if parent == gparent.left {
          node, c, s, h := InsertStepLeft(node, parent, gparent, c, s, h);
        } else {
          node, c, s, h := InsertStepRight(node, parent, gparent, c, s, h);
        }
      }
      t := BlackenRoot(c, s, h);
    }

    /** The last line of ogs_rbtree_insert_color(). */
    method BlackenRoot(ghost c: Ctx, ghost s: Shape, ghost h: nat) returns (ghost t: Shape)
      requires At(c, s) && s.Node? && RB(s, h) && CtxOk(c, h) && (c.Top? || BlackHolder(c))
      modifies repr`color
      ensures At(Top, t) && IsRbTree(t) && InOrder(t) == InOrder(Fill(c, s))
    {
      ZipAll(c, s);
      FillNonempty(c, s);
      t := Painted(Fill(c, s), Black);
      if c.Top? {
        HeightUnique(t, if s.color.Red? then h + 1 else h);
      } else {
        FillRB(c, s, h);
      }
      Paint(root, Black, Top, Fill(c, s));
    }

    /** `node == parent->left` tells which side the focus hangs on. */
    lemma {:induction false} LeftChild(c: Ctx, s: Shape)
      requires At(c, s) && !c.Top? && s.Node?
      ensures c.n in repr && s.n.parent == c.n
      ensures s.n == c.n.left <==> c.LeftOf?
    {
      assert c.RightOf? && c.left.Node? ==> c.left.n in Nodes(c.left);
    }

    /** Case 1 of rb_delete_color(): a red sibling. */
    method Case1Left(parent: Timer, sibling: Timer, ghost c: Ctx, ghost p: Shape)
      requires At(c, p) && IsAt(parent, p) && IsAt(sibling, p.right)
      modifies this`root, repr`left, repr`right, repr`parent, repr`color
      ensures At(c, RedSiblingLeft(p))
    {
      PaintRight(sibling, Black, c, p);
      ghost var p1 := Node(p.left, p.n, p.color, Painted(p.right, Black));
      Paint(parent, Red, c, p1);
      RotateLeft(parent, c, Painted(p1, Red));
    }

    /** Case 3: the far nephew is black. */
    method Case3Left(parent: Timer, sibling: Timer, ghost c: Ctx, ghost p: Shape)
      requires At(c, p) && IsAt(parent, p) && IsAt(sibling, p.right) && p.right.left.Node?
      modifies this`root, repr`left, repr`right, repr`parent, repr`color
      ensures At(c, NearNephewLeft(p))
    {
      ghost var c1, s := RightOf(p.left, p.n, p.color, c), p.right;
      Zip(c1, s);
      PaintLeft(sibling.left, Black, c1, s);
      s := Node(Painted(s.left, Black), s.n, s.color, s.right);
      Paint(sibling, Red, c1, s);
      RotateRight(sibling, c1, Painted(s, Red));
      Zip(c1, RotatedRight(Painted(s, Red)));
    }

    /** Case 4: the far nephew is red. */
    method Case4Left(parent: Timer, sibling: Timer, ghost c: Ctx, ghost p: Shape)
      requires At(c, p) && IsAt(parent, p) && IsAt(sibling, p.right) && p.right.right.Node?
      modifies this`root, repr`left, repr`right, repr`parent, repr`color
      ensures At(c, FarNephewLeft(p))
    {
      PaintRight(sibling, parent.color, c, p);
      ghost var p1 := Node(p.left, p.n, p.color, Painted(p.right, p.color));
      Paint(parent, Black, c, p1);
      p1 := Painted(p1, Black);
      ghost var c1 := RightOf(p1.left, p1.n, p1.color, c);
      Zip(c1, p1.right);
      PaintRight(sibling.right, Black, c1, p1.right);
      ghost var s := Node(p1.right.left, p1.right.n, p1.right.color, Painted(p1.right.right, Black));
      Zip(c1, s);
      RotateLeft(parent, c, Node(p1.left, p1.n, p1.color, s));
    }

    /** Case 1, mirrored. */
    method Case1Right(parent: Timer, sibling: Timer, ghost c: Ctx, ghost p: Shape)
      requires At(c, p) && IsAt(parent, p) && IsAt(sibling, p.left)
      modifies this`root, repr`right, repr`left, repr`parent, repr`color
      ensures At(c, RedSiblingRight(p))
    {
      PaintLeft(sibling, Black, c, p);
      ghost var p1 := Node(Painted(p.left, Black), p.n, p.color, p.right);
      Paint(parent, Red, c, p1);
      RotateRight(parent, c, Painted(p1, Red));
    }

    /** Case 3, mirrored. */
    method Case3Right(parent: Timer, sibling: Timer, ghost c: Ctx, ghost p: Shape)
      requires At(c, p) && IsAt(parent, p) && IsAt(sibling, p.left) && p.left.right.Node?
      modifies this`root, repr`right, repr`left, repr`parent, repr`color
      ensures At(c, NearNephewRight(p))
    {
      ghost var c1, s := LeftOf(c, p.n, p.color, p.right), p.left;
      Zip(c1, s);
      PaintRight(sibling.right, Black, c1, s);
      s := Node(s.left, s.n, s.color, Painted(s.right, Black));
      Paint(sibling, Red, c1, s);
      RotateLeft(sibling, c1, Painted(s, Red));
      Zip(c1, RotatedLeft(Painted(s, Red)));
    }

    /** Case 4, mirrored. */
    method Case4Right(parent: Timer, sibling: Timer, ghost c: Ctx, ghost p: Shape)
      requires At(c, p) && IsAt(parent, p) && IsAt(sibling, p.left) && p.left.left.Node?
      modifies this`root, repr`right, repr`left, repr`parent, repr`color
      ensures At(c, FarNephewRight(p))
    {
      PaintLeft(sibling, parent.color, c, p);
      ghost var p1 := Node(Painted(p.left, p.color), p.n, p.color, p.right);
      Paint(parent, Black, c, p1);
      p1 := Painted(p1, Black);
      ghost var c1 := LeftOf(c, p1.n, p1.color, p1.right);
      Zip(c1, p1.left);
      PaintLeft(sibling.left, Black, c1, p1.left);
      ghost var s := Node(Painted(p1.left.left, Black), p1.left.n, p1.left.color, p1.left.right);
      Zip(c1, s);
      RotateRight(parent, c, Node(s, p1.n, p1.color, p1.right));
    }

    /** rb_is_black() */
    static predicate IsBlack(r: Timer?)
      reads r
    {
      r == null || r.color == Black
    }

    /** The loop invariant of rb_delete_color(). */
    ghost predicate Shortened(node: Timer?, parent: Timer?, c: Ctx, s: Shape, h: nat)
      reads this`root, this`repr, repr`parent, repr`left, repr`right, repr`color
    {
      At(c, s) && node == Root(s) && Short(c, s, h) && (!c.Top? ==> parent == c.n)
    }

    /** Termination measure of rb_delete_color(): a red focus is the last one. */
    ghost function Rank(c: Ctx, s: Shape): nat {
      2 * Depth(c) + if IsRed(s) then 0 else 1
    }

    /** What the fields of the grandchildren of the focus hold. */
    lemma {:induction false} Grandchildren(c: Ctx, s: Shape)
      requires At(c, s) && s.Node?
      ensures s.left.Node? ==> ColorAt(s.left.left) && ColorAt(s.left.right)
      ensures s.right.Node? ==> ColorAt(s.right.left) && ColorAt(s.right.right)
    {
      if s.left.Node? {
        Zip(LeftOf(c, s.n, s.color, s.right), s.left);
        Children(LeftOf(c, s.n, s.color, s.right), s.left);
      }
      if s.right.Node? {
        Zip(RightOf(s.left, s.n, s.color, c), s.right);
        Children(RightOf(s.left, s.n, s.color, c), s.right);
      }
    }

    static ghost predicate ColorAt(s: Shape)
      reads Opt(Root(s))
    {
      s.Node? ==> s.n.color == s.color
    }

    /** `node == parent->left` tells the short side even when `node` is NULL:
        the sibling of a short side is never NULL. */
    lemma {:induction false} HoleSide(c: Ctx, s: Shape, h: nat)
      requires At(c, s) && Short(c, s, h) && Root(s) != root && !IsRed(s)
      ensures !c.Top? && c.n in repr && (Root(s) == c.n.left <==> c.LeftOf?)
    {
      assert s.Node? ==> s.n in Nodes(s);
      assert c.RightOf? ==> c.left.Node? && c.left.n in Nodes(c.left);
    }

    /** Only at the top does the focus equal the root. */
    lemma {:induction false} NotRoot(c: Ctx, s: Shape)
      requires At(c, s) && !c.Top?
      ensures root != null && root in CNodes(c) && root != Root(s)
    {
      TopInCtx(c, Root(s));
      assert s.Node? ==> s.n in Nodes(s);
    }

    /** Cases 2 to 4 of rb_delete_color(), reached with a black sibling. */
    method BlackSiblingLeft(parent0: Timer, ghost c: Ctx, ghost s: Shape, ghost h: nat)
      returns (node: Timer?, parent: Timer?, ghost c': Ctx, ghost s': Shape, ghost h': nat)
      requires At(c, s) && Short(c, s, h) && c.LeftOf? && !IsRed(s) && c.n == parent0 && !IsRed(c.right)
      modifies this`root, repr`left, repr`right, repr`parent, repr`color
      ensures Shortened(node, parent, c', s', h') && InOrder(Fill(c', s')) == InOrder(Fill(c, s))
      ensures c'.Top? || (c' == c.up && IsAt(parent0, s') && s'.color == c.color)
    {
      parent := parent0;
      Zip(c, s);
      ghost var p := Up(c, s);
      Children(c.up, p);
      Grandchildren(c.up, p);
      var sibling := parent.right;
      if IsBlack(sibling.left) && IsBlack(sibling.right) {
        h' := BlackNephewsLeftStep(c, s, h);
        PaintRight(sibling, Red, c.up, p);
        node := parent;
        parent := node.parent;
        c', s' := c.up, Node(s, c.n, c.color, Painted(c.right, Red));
      } else {
        ghost var c1 := c;
        if IsBlack(sibling.right) {
          c1 := NearNephewLeftStep(c, s, h);
          Case3Left(parent, sibling, c.up, p);
          p := Up(c1, s);
          sibling := parent.right;
        }
        FarNephewLeftStep(c1, s, h);
        Case4Left(parent, sibling, c.up, p);
        c', s' := Top, Fill(c.up, FarNephewLeft(p));
        ZipAll(c.up, FarNephewLeft(p));
        h' := BlackHeight(s');
        node := root;
      }
    }

    /** One turn of the loop of rb_delete_color(), with the short side on the left. */
    method DeleteStepLeft(parent0: Timer, ghost c: Ctx, ghost s: Shape, ghost h: nat)
      returns (node: Timer?, parent: Timer?, ghost c': Ctx, ghost s': Shape, ghost h': nat)
      requires At(c, s) && Short(c, s, h) && c.LeftOf? && !IsRed(s) && c.n == parent0
      modifies this`root, repr`left, repr`right, repr`parent, repr`color
      ensures Shortened(node, parent, c', s', h') && InOrder(Fill(c', s')) == InOrder(Fill(c, s))
      ensures Rank(c', s') < Rank(c, s)
    {
      Zip(c, s);
      Children(c.up, Up(c, s));
      var sibling := parent0.right;
      ghost var c1 := c;
      if sibling.color == Red {
        c1 := RedSiblingLeftStep(c, s, h);
        Case1Left(parent0, sibling, c.up, Up(c, s));
        Zip(c1.up, Up(c1, s));
        Zip(c1, s);
      }
      node, parent, c', s', h' := BlackSiblingLeft(parent0, c1, s, h);
    }

    /** Cases 2 to 4, mirrored. */
    method BlackSiblingRight(parent0: Timer, ghost c: Ctx, ghost s: Shape, ghost h: nat)
      returns (node: Timer?, parent: Timer?, ghost c': Ctx, ghost s': Shape, ghost h': nat)
      requires At(c, s) && Short(c, s, h) && c.RightOf? && !IsRed(s) && c.n == parent0 && !IsRed(c.left)
      modifies this`root, repr`right, repr`left, repr`parent, repr`color
      ensures Shortened(node, parent, c', s', h') && InOrder(Fill(c', s')) == InOrder(Fill(c, s))
      ensures c'.Top? || (c' == c.up && IsAt(parent0, s') && s'.color == c.color)
    {
      parent := parent0;
      Zip(c, s);
      ghost var p := Up(c, s);
      Children(c.up, p);
      Grandchildren(c.up, p);
      var sibling := parent.left;
      if IsBlack(sibling.right) && IsBlack(sibling.left) {
        h' := BlackNephewsRightStep(c, s, h);
        PaintLeft(sibling, Red, c.up, p);
        node := parent;
        parent := node.parent;
        c', s' := c.up, Node(Painted(c.left, Red), c.n, c.color, s);
      } else {
        ghost var c1 := c;
        if IsBlack(sibling.left) {
          c1 := NearNephewRightStep(c, s, h);
          Case3Right(parent, sibling, c.up, p);
          p := Up(c1, s);
          sibling := parent.left;
        }
        FarNephewRightStep(c1, s, h);
        Case4Right(parent, sibling, c.up, p);
        c', s' := Top, Fill(c.up, FarNephewRight(p));
        ZipAll(c.up, FarNephewRight(p));
        h' := BlackHeight(s');
        node := root;
      }
    }

    /** One turn of the loop of rb_delete_color(), with the short side on the right. */
    method DeleteStepRight(parent0: Timer, ghost c: Ctx, ghost s: Shape, ghost h: nat)
      returns (node: Timer?, parent: Timer?, ghost c': Ctx, ghost s': Shape, ghost h': nat)
      requires At(c, s) && Short(c, s, h) && c.RightOf? && !IsRed(s) && c.n == parent0
      modifies this`root, repr`right, repr`left, repr`parent, repr`color
      ensures Shortened(node, parent, c', s', h') && InOrder(Fill(c', s')) == InOrder(Fill(c, s))
      ensures Rank(c', s') < Rank(c, s)
    {
      Zip(c, s);
      Children(c.up, Up(c, s));
      var sibling := parent0.left;
      ghost var c1 := c;
      if sibling.color == Red {
        c1 := RedSiblingRightStep(c, s, h);
        Case1Right(parent0, sibling, c.up, Up(c, s));
        Zip(c1.up, Up(c1, s));
        Zip(c1, s);
      }
      node, parent, c', s', h' := BlackSiblingRight(parent0, c1, s, h);
    }

    /** rb_delete_color(): a position one black node short is repaired. */
    method DeleteColor(node0: Timer?, parent0: Timer?, ghost c0: Ctx, ghost s0: Shape, ghost h0: nat)
      returns (ghost t: Shape)
      requires Shortened(node0, parent0, c0, s0, h0)
      modifies this`root, repr`left, repr`right, repr`parent, repr`color
      ensures At(Top, t) && IsRbTree(t) && InOrder(t) == InOrder(Fill(c0, s0))
    {
      var node, parent := node0, parent0;
      ghost var c, s, h := c0, s0, h0;
      while node != root && IsBlack(node)
        invariant Shortened(node, parent, c, s, h)
        invariant InOrder(Fill(c, s)) == InOrder(Fill(c0, s0))
        decreases Rank(c, s)
      {
        HoleSide(c, s, h);
        if node == parent.left {
          node, parent, c, s, h := DeleteStepLeft(parent, c, s, h);
        } else {
          node, parent, c, s, h := DeleteStepRight(parent, c, s, h);
        }
      }
      if !c.Top? {
        NotRoot(c, s);
      }
      t := BlackenNode(node, c, s, h);
    }

    /** The last line of rb_delete_color(). */
    method BlackenNode(node: Timer?, ghost c: Ctx, ghost s: Shape, ghost h: nat) returns (ghost t: Shape)
      requires At(c, s) && node == Root(s) && Short(c, s, h) && (c.Top? || IsRed(s))
      modifies repr`color
      ensures At(Top, t) && IsRbTree(t) && InOrder(t) == InOrder(Fill(c, s))
    {
      if node != null {
        t := Painted(s, Black);
        PaintInOrder(c, s, Black);
        FillRB(c, t, if IsRed(s) then h + 1 else h);
        Paint(node, Black, c, s);
        ZipAll(c, t);
        t := Fill(c, t);
      } else {
        t := s;
      }
    }

    /** The rb_replace_node() of ogs_rbtree_delete() when `node` has at most one child. */
    method RemoveSingle(node: Timer, child: Timer?, parent: Timer?, ghost c: Ctx, ghost s: Shape, ghost cs: Shape)
      requires At(c, s) && IsAt(node, s) && parent == node.parent && child == Root(cs)
      requires (s.left.Leaf? && cs == s.right) || (s.right.Leaf? && cs == s.left)
      modifies this`root, this`repr, repr`left, repr`right, repr`parent
      ensures At(c, cs) && repr == old(repr) - {node}
    {
      assert Proper(cs) && Linked(cs, node) && Nodes(cs) <= repr;
      assert cs.Node? ==> cs.n in Nodes(cs);
      ReplaceNode(node, child, parent, c);
      assert cs.Node? ==> Linked(cs.left, cs.n) && Linked(cs.right, cs.n);
      repr := repr - {node};
    }

    /** The writes of ogs_rbtree_delete() when the successor is the right child. */
    method SpliceNearLinks(node: Timer, new_: Timer, left: Timer, ghost c: Ctx)
      requires ProperCtx(c) && CNodes(c) <= repr && LinkedCtx(c, node, null)
      requires node.parent == Holder(c, null) && root == TopOf(c, node)
      requires node !in CNodes(c) && new_ !in CNodes(c) && left !in CNodes(c)
      requires node.left == left && node != new_ && node != left && new_ != left
      modifies this`root, CNodes(c)`left, CNodes(c)`right
      modifies new_`left, new_`color, new_`parent, left`parent
      ensures LinkedCtx(c, new_, null) && root == TopOf(c, new_)
      ensures new_.left == left && new_.color == node.color && new_.parent == Holder(c, null)
      ensures left.parent == new_
    {
      new_.left := node.left;
      node.left.parent := new_;
      new_.color := node.color;
      ReplaceNode(node, new_, node.parent, c);
    }

    /** The successor is the right child: it takes over the left subtree and the place. */
    method SpliceNear(node: Timer, new_: Timer, ghost c: Ctx, ghost s: Shape)
      requires At(c, s) && IsAt(node, s) && s.left.Node? && IsAt(new_, s.right) && s.right.left.Leaf?
      modifies this`root, this`repr, repr`left, repr`right, repr`parent, repr`color
      ensures At(c, Node(s.left, new_, s.color, s.right.right)) && repr == old(repr) - {node}
    {
      ghost var a, b := s.left, s.right.right;
      RotateLeftProper(c, s);
      assert Linked(s.right, node) && Linked(a, node) && a.n in Nodes(a);
      SpliceNearLinks(node, new_, node.left, c);
      assert Linked(b, new_);
      assert Linked(a.left, a.n) && Linked(a.right, a.n);
      assert Linked(a, new_);
      repr := repr - {node};
    }

    // The writes of ogs_rbtree_delete() when the successor lies deeper, in three groups.

    /** `new->left = node->left; node->left->parent = new` */
    method TakeLeft(node: Timer, new_: Timer, ghost l: Shape)
      requires Proper(l) && l.Node? && Nodes(l) <= repr && Linked(l, node) && node.left == l.n && new_ !in Nodes(l)
      modifies new_`left, l.n`parent
      ensures Linked(l, new_) && new_.left == l.n
    {
      new_.left := node.left;
      node.left.parent := new_;
    }

    /** `if (child) child->parent = parent; parent->left = child` */
    method UnlinkMin(new_: Timer, parent: Timer, child: Timer?, ghost path: Ctx, ghost cs: Shape, ghost tp: Timer)
      requires LeftSpine(path) && !path.Top? && ProperCtx(path) && Proper(cs) && CNodes(path) !! Nodes(cs)
      requires LinkedCtx(path, new_, tp) && Linked(cs, new_) && child == Root(cs) && parent == path.n
      modifies parent`left, Opt(child)`parent
      ensures Linked(Fill(path, cs), tp)
    {
      assert cs.Node? ==> cs.n in Nodes(cs);
      if child != null {
        child.parent := parent;
      }
      parent.left := child;
      LinkedFill(path, cs, tp);
    }

    /** `new->right = node->right; node->right->parent = new; new->color = node->color` and the replacement */
    method TakePlace(node: Timer, new_: Timer, top: Timer, ghost c: Ctx)
      requires ProperCtx(c) && CNodes(c) <= repr && LinkedCtx(c, node, null)
      requires node.parent == Holder(c, null) && root == TopOf(c, node)
      requires node !in CNodes(c) && new_ !in CNodes(c) && top !in CNodes(c)
      requires node.right == top && node != new_ && node != top && new_ != top
      modifies this`root, CNodes(c)`left, CNodes(c)`right, new_`right, new_`color, new_`parent, top`parent
      ensures LinkedCtx(c, new_, null) && root == TopOf(c, new_)
      ensures new_.right == top && new_.color == node.color && new_.parent == Holder(c, null)
      ensures top.parent == new_
    {
      new_.right := node.right;
      node.right.parent := new_;
      new_.color := node.color;
      ReplaceNode(node, new_, node.parent, c);
    }

    /** The successor is cut out of the right subtree and takes over the left one. */
    method SpineLower(node: Timer, new_: Timer, parent: Timer, child: Timer?,
                      ghost l: Shape, ghost path: Ctx, ghost y: Shape)
      requires LeftSpine(path) && !path.Top? && y.Node? && y.left.Leaf? && new_ == y.n && l.Node?
      requires Proper(l) && ProperCtx(path) && Proper(y) && Nodes(y) !! CNodes(path)
      requires Nodes(l) !! CNodes(path) && Nodes(l) !! Nodes(y) && Nodes(l) + CNodes(path) + Nodes(y) <= repr
      requires Linked(l, node) && node.left == l.n && Linked(Fill(path, y), node)
      requires parent == new_.parent && child == new_.right
      modifies new_`left, l.n`parent, path.n`left, Nodes(y)`parent
      ensures Linked(l, new_) && Linked(Fill(path, y.right), node) && new_.left == l.n
    {
      LinkedFill(path, y, node);
      assert Linked(y.right, new_) && Proper(y.right) && (y.right.Node? ==> y.right.n in Nodes(y.right));
      TakeLeft(node, new_, l);
      assert LinkedCtx(path, new_, node) && Linked(y.right, new_);
      UnlinkMin(new_, parent, child, path, y.right, node);
    }

    /** The successor lies deeper: it is unlinked there and takes the place of `node`. */
    method SpliceFar(node: Timer, new_: Timer, parent: Timer, child: Timer?,
                     ghost c: Ctx, ghost s: Shape, ghost path: Ctx, ghost y: Shape)
      requires At(c, s) && IsAt(node, s) && s.left.Node? && s.right == Fill(path, y)
      requires LeftSpine(path) && !path.Top? && y.Node? && y.left.Leaf? && new_ == y.n
      requires parent == new_.parent && child == new_.right
      modifies this`root, this`repr, repr`left, repr`right, repr`parent, repr`color
      ensures At(c, Node(s.left, new_, s.color, Fill(path, y.right))) && repr == old(repr) - {node}
    {
      SpineProper(c, s, path, y);
      SpineParts(c, s, path, y);
      SpineUnlink(node, new_, parent, child, c, s, path, y);
      SpinePlace(node, new_, c, s.left, s.color, Fill(path, y.right));
    }

    /** Unlinking the successor leaves what is above `node` alone. */
    method SpineUnlink(node: Timer, new_: Timer, parent: Timer, child: Timer?,
                       ghost c: Ctx, ghost s: Shape, ghost path: Ctx, ghost y: Shape)
      requires At(c, s) && IsAt(node, s) && s.left.Node? && s.right == Fill(path, y)
      requires LeftSpine(path) && !path.Top? && y.Node? && y.left.Leaf? && new_ == y.n
      requires parent == new_.parent && child == new_.right
      requires ProperCtx(path) && Proper(y) && Nodes(y) !! CNodes(path) && Nodes(s.right) == CNodes(path) + Nodes(y)
      modifies new_`left, Nodes(s.left)`parent, CNodes(path)`left, Nodes(y)`parent
      ensures Linked(s.left, new_) && Linked(Fill(path, y.right), node) && new_.left == s.left.n
      ensures LinkedCtx(c, node, null)
    {
      assert s.left.n in Nodes(s.left) && path.n in CNodes(path) && Linked(s.left, node) && Linked(s.right, node);
      SpineLower(node, new_, parent, child, s.left, path, y);
    }

    method SpinePlace(node: Timer, new_: Timer, ghost c: Ctx, ghost l: Shape, ghost col: Color, ghost r: Shape)
      requires ProperAt(c, Node(l, new_, col, r)) && repr == CNodes(c) + Nodes(l) + Nodes(r) + {node, new_}
      requires node !in CNodes(c) + Nodes(l) + Nodes(r) + {new_} && r.Node? && l.Node?
      requires Linked(l, new_) && Linked(r, node) && LinkedCtx(c, node, null) && new_.left == l.n
      requires node.parent == Holder(c, null) && root == TopOf(c, node) && node.right == r.n && node.color == col
      modifies this`root, this`repr, repr`left, repr`right, repr`parent, repr`color
      ensures At(c, Node(l, new_, col, r)) && repr == old(repr) - {node}
    {
      assert Proper(r) && r.n in Nodes(r) && Nodes(l) !! Nodes(r) && Nodes(l) !! CNodes(c) && Nodes(r) !! CNodes(c);
      TakePlace(node, new_, node.right, c);
      assert Linked(l, new_);
      assert Linked(r.left, r.n) && Linked(r.right, r.n);
      repr := repr - {node};
    }

    lemma {:induction false} ZipPath(path: Ctx, base: Ctx, s: Shape)
      ensures At(Append(path, base), s) <==> At(base, Fill(path, s))
    {
      if !path.Top? {
        Zip(Append(path, base), s);
        ZipPath(path.up, base, Up(path, s));
      }
    }

    /** ogs_rbtree_min() */
    method Min(rbNode: Timer, ghost c: Ctx, ghost s: Shape) returns (node: Timer, ghost path: Ctx, ghost y: Shape)
      requires At(c, s) && IsAt(rbNode, s)
      ensures s == Fill(path, y) && LeftSpine(path) && IsAt(node, y) && y.left.Leaf?
    {
      node, path, y := rbNode, Top, s;
      while node.left != null
        invariant At(Append(path, c), y) && IsAt(node, y) && LeftSpine(path) && s == Fill(path, y)
        decreases y
      {
        node := node.left;
        path, y := LeftOf(path, y.n, y.color, y.right), y.left;
        Zip(Append(path, c), y);
      }
    }

    /** What ogs_rbtree_delete() hands to its fix-up: the spot where a node of colour
        `color` left the tree. */
    ghost predicate Vacated(child: Timer?, parent: Timer?, color: Color, c: Ctx, s: Shape, h: nat)
      reads this`root, this`repr, repr`parent, repr`left, repr`right, repr`color
    {
      && At(c, s) && child == Root(s)
      && if color == Black then Shortened(child, parent, c, s, h) else RB(s, h) && CtxOk(c, h) && !IsRed(s)
    }

    /** The two-children branch of ogs_rbtree_delete(). */
    method DeleteSplice(node: Timer, ghost c: Ctx, ghost s: Shape, ghost h: nat)
      returns (child: Timer?, parent: Timer?, color: Color, ghost c': Ctx, ghost cs: Shape, ghost h': nat)
      requires At(c, s) && IsAt(node, s) && s.left.Node? && s.right.Node?
      requires RB(s, h) && CtxOk(c, h) && (IsRed(s) ==> BlackHolder(c))
      modifies this`root, this`repr, repr`left, repr`right, repr`parent, repr`color
      ensures Vacated(child, parent, color, c', cs, h') && repr == old(repr) - {node}
      ensures InOrder(Fill(c', cs)) == Without(InOrder(Fill(c, s)), node)
    {
      ghost var base := RightOf(s.left, node, s.color, c);
      Zip(base, s.right);
      ghost var path, y;
      var new_;
      new_, path, y := Min(node.right, base, s.right);
      ZipPath(path, base, y);
      child, parent, color := new_.right, new_.parent, new_.color;
      ghost var base' := RightOf(s.left, new_, s.color, c);
      h' := SpliceFacts(c, s, h, path, y);
      c', cs := Append(path, base'), y.right;
      if parent == node {
        PathIsTop(path, base, y);
        SpliceNear(node, new_, c, s);
        parent := new_;
      } else {
        SpliceFar(node, new_, parent, child, c, s, path, y);
      }
      ZipPath(path, base', cs);
      Zip(base', Fill(path, cs));
    }

    /** The successor hangs from the deleted node exactly when it is its right child. */
    lemma {:induction false} PathIsTop(path: Ctx, base: Ctx, y: Shape)
      requires At(Append(path, base), y) && y.Node? && !base.Top? && LeftSpine(path)
      ensures y.n.parent == base.n <==> path.Top?
    {
      assert path.LeftOf? ==> path.n in CNodes(Append(path, base));
      AppendNodes(path, base);
    }

    /** A branch of ogs_rbtree_delete() for a node with at most one child. */
    method DeleteSingle(node: Timer, child: Timer?, parent: Timer?, color: Color,
                        ghost c: Ctx, ghost s: Shape, ghost cs: Shape, ghost h: nat)
      returns (ghost h': nat)
      requires At(c, s) && IsAt(node, s) && RB(s, h) && CtxOk(c, h)
      requires (s.left.Leaf? && cs == s.right) || (s.right.Leaf? && cs == s.left)
      requires child == Root(cs) && parent == node.parent && color == node.color
      modifies this`root, this`repr, repr`left, repr`right, repr`parent
      ensures Vacated(child, parent, color, c, cs, h') && repr == old(repr) - {node}
      ensures InOrder(Fill(c, cs)) == Without(InOrder(Fill(c, s)), node)
    {
      h' := if s.color.Black? then h - 1 else h;
      assert InOrder(cs) == InOrder(s.left) + InOrder(s.right);
      RemoveInOrder(c, s, cs);
      RemoveSingle(node, child, parent, c, s, cs);
    }

    /** ogs_rbtree_delete() up to its fix-up. */
    method Detach(node: Timer)
      returns (child: Timer?, parent: Timer?, color: Color, ghost c': Ctx, ghost cs: Shape, ghost h': nat)
      requires Valid() && node in repr
      modifies this`root, this`repr, repr`left, repr`right, repr`parent, repr`color
      ensures Vacated(child, parent, color, c', cs, h') && repr == old(repr) - {node}
      ensures InOrder(Fill(c', cs)) == Without(old(Contents()), node)
    {
      ghost var (c, s) := Locate(shape, node, Top);
      ghost var h := LocateRB(shape, node, Top, BlackHeight(shape));
      ZipAll(c, s);
      if node.left == null {
        child, parent, color := node.right, node.parent, node.color;
        c', cs := c, s.right;
        h' := DeleteSingle(node, child, parent, color, c, s, cs, h);
      } else if node.right == null {
        child, parent, color := node.left, node.parent, node.color;
        c', cs := c, s.left;
        h' := DeleteSingle(node, child, parent, color, c, s, cs, h);
      } else {
        child, parent, color, c', cs, h' := DeleteSplice(node, c, s, h);
      }
    }

    /** ogs_rbtree_delete() */
    method Delete(rbNode: Timer)
      requires Valid() && rbNode in repr
      modifies this, repr`left, repr`right, repr`parent, repr`color
      ensures Valid() && repr == old(repr) - {rbNode}
      ensures Contents() == Without(old(Contents()), rbNode)
    {
      var child, parent, color;
      ghost var c', cs, h', t;
      child, parent, color, c', cs, h' := Detach(rbNode);
      if color == Black {
        t := DeleteColor(child, parent, c', cs, h');
      } else {
        t := Settled(child, parent, c', cs, h');
      }
      shape := t;
    }

    /** Losing a red node breaks no rule. */
    lemma {:induction false} Settled(child: Timer?, parent: Timer?, c: Ctx, s: Shape, h: nat) returns (t: Shape)
      requires Vacated(child, parent, Red, c, s, h)
      ensures At(Top, t) && IsRbTree(t) && InOrder(t) == InOrder(Fill(c, s))
    {
      t := Fill(c, s);
      ZipAll(c, s);
      FillRB(c, s, h);
    }

    /** ogs_rbtree_max() */
    method Max(rbNode: Timer, ghost c: Ctx, ghost s: Shape) returns (node: Timer, ghost path: Ctx, ghost y: Shape)
      requires At(c, s) && IsAt(rbNode, s)
      ensures s == Fill(path, y) && RightSpine(path) && IsAt(node, y) && y.right.Leaf?
    {
      node, path, y := rbNode, Top, s;
      while node.right != null
        invariant At(Append(path, c), y) && IsAt(node, y) && RightSpine(path) && s == Fill(path, y)
        decreases y
      {
        node := node.right;
        path, y := RightOf(y.left, y.n, y.color, path), y.right;
        Zip(Append(path, c), y);
      }
    }

    /** ogs_rbtree_first() */
    method First() returns (node: Timer?)
      requires Valid()
      ensures node == if Contents() == [] then null else Contents()[0]
    {
      node := root;
      if node == null {
        return null;
      }
      ghost var path, y;
      node, path, y := Min(node, Top, shape);
      SpineFill(path, y);
    }

    /** ogs_rbtree_last() */
    method Last() returns (node: Timer?)
      requires Valid()
      ensures node == if Contents() == [] then null else Contents()[|Contents()| - 1]
    {
      node := root;
      if node == null {
        return null;
      }
      ghost var path, y;
      node, path, y := Max(node, Top, shape);
      RightSpineFill(path, y);
    }

    /** ogs_rbtree_next(): the in-order successor; `i` is the position of `rbNode`. */
    method Next(rbNode: Timer) returns (next: Timer?, ghost i: nat)
      requires Valid() && rbNode in repr
      ensures i < |Contents()| && Contents()[i] == rbNode
      ensures next == if i + 1 < |Contents()| then Contents()[i + 1] else null
    {
      ghost var (c, s) := Locate(shape, rbNode, Top);
      ZipAll(c, s);
      i := PlaceOf(c, s);
      SelfParent(c, s);
      if rbNode.parent == rbNode {
        return null, i;
      }
      if rbNode.right != null {
        ghost var path, y;
        Zip(RightOf(s.left, s.n, s.color, c), s.right);
        next, path, y := Min(rbNode.right, RightOf(s.left, s.n, s.color, c), s.right);
        SpineFill(path, y);
        return;
      }
      next := ClimbRight(rbNode, c, s);
    }

    /** The loop of ogs_rbtree_next(): the nearest ancestor reached from its left. */
    method ClimbRight(rbNode: Timer, ghost c0: Ctx, ghost s0: Shape) returns (parent: Timer?)
      requires At(c0, s0) && IsAt(rbNode, s0)
      ensures parent == if After(c0) == [] then null else After(c0)[0]
    {
      var node := rbNode;
      ghost var c, s := c0, s0;
      while node.parent != null && node == node.parent.right
        invariant At(c, s) && IsAt(node, s) && After(c) == After(c0)
        decreases Depth(c)
      {
        RightChild(c, s);
        Zip(c, s);
        node := node.parent;
        c, s := c.up, Up(c, s);
      }
      if !c.Top? {
        RightChild(c, s);
      }
      parent := node.parent;
    }

    /** ogs_rbtree_prev() */
    method Prev(rbNode: Timer) returns (prev: Timer?, ghost i: nat)
      requires Valid() && rbNode in repr
      ensures i < |Contents()| && Contents()[i] == rbNode
      ensures prev == if i > 0 then Contents()[i - 1] else null
    {
      ghost var (c, s) := Locate(shape, rbNode, Top);
      ZipAll(c, s);
      i := PlaceOf(c, s);
      SelfParent(c, s);
      if rbNode.parent == rbNode {
        return null, i;
      }
      if rbNode.left != null {
        ghost var path, y;
        Zip(LeftOf(c, s.n, s.color, s.right), s.left);
        prev, path, y := Max(rbNode.left, LeftOf(c, s.n, s.color, s.right), s.left);
        RightSpineFill(path, y);
        assert InOrder(s.left)[|InOrder(s.left)| - 1] == y.n;
        assert Contents()[i - 1] == Contents()[..i][i - 1];
        return;
      }
      prev := ClimbLeft(rbNode, c, s);
      assert i > 0 ==> Contents()[i - 1] == Contents()[..i][i - 1];
    }

    /** The loop of ogs_rbtree_prev(): the nearest ancestor reached from its right. */
    method ClimbLeft(rbNode: Timer, ghost c0: Ctx, ghost s0: Shape) returns (parent: Timer?)
      requires At(c0, s0) && IsAt(rbNode, s0)
      ensures parent == if Before(c0) == [] then null else Before(c0)[|Before(c0)| - 1]
    {
      var node := rbNode;
      ghost var c, s := c0, s0;
      while node.parent != null && node == node.parent.left
        invariant At(c, s) && IsAt(node, s) && Before(c) == Before(c0)
        decreases Depth(c)
      {
        LeftChild(c, s);
        Zip(c, s);
        node := node.parent;
        c, s := c.up, Up(c, s);
      }
      if !c.Top? {
        LeftChild(c, s);
      }
      parent := node.parent;
    }

    lemma {:induction false} RightChild(c: Ctx, s: Shape)
      requires At(c, s) && !c.Top? && s.Node?
      ensures c.n in repr && s.n.parent == c.n
      ensures s.n == c.n.right <==> c.RightOf?
    {
      assert c.LeftOf? && c.right.Node? ==> c.right.n in Nodes(c.right);
    }

    /** A linked node is never its own parent, so rb_empty_node() is false of it. */
    lemma {:induction false} SelfParent(c: Ctx, s: Shape)
      requires At(c, s) && s.Node?
      ensures s.n.parent != s.n
    {
      assert s.n in Nodes(s);
      assert !c.Top? ==> c.n in CNodes(c);
    }

    /** ogs_rbtree_link_node(); `link` says which field `rb_link` points at. */
    method LinkNode(node: Timer, parent: Timer?, link: Link, ghost c: Ctx)
      requires At(c, Leaf) && node !in repr && parent == Holder(c, null)
      requires link == if c.Top? then RootLink else if c.LeftOf? then LeftLink else RightLink
      modifies this`root, this`repr, node`parent, node`left, node`right, node`color, repr`left, repr`right
      ensures At(c, Node(Leaf, node, Red, Leaf)) && repr == old(repr) + {node}
    {
      node.parent := parent;
      node.left, node.right := null, null;
      node.color := Red;
      match link {
        case RootLink => root := node;
        case LeftLink => parent.left := node;
        case RightLink => parent.right := node;
      }
      repr := repr + {node};
    }
  }

  datatype Link = RootLink | LeftLink | RightLink

  lemma {:induction false} LinkedFill(path: Ctx, s: Shape, tp: Timer?)
    ensures Root(Fill(path, s)) == TopOf(path, Root(s))
    ensures Linked(Fill(path, s), tp) <==> Linked(s, Holder(path, tp)) && LinkedCtx(path, Root(s), tp)
  {
    if !path.Top? {
      LinkedFill(path.up, Up(path, s), tp);
    }
  }

  ghost function Opt(x: Timer?): set<Timer> {
    if x == null then {} else {x}
  }
}
