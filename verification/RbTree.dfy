/**
  The red-black tree of WIN32-Code/tree.h: nodes linked by left, right and parent pointers,
  rotated and recoloured in place.
*/
module RbTree {
  import opened RbShape

  /** The tree head, struct event_map of win32.c. */
  class Tree {
    var root: Node?

    /** What the fields of the nodes hold; every assignment below keeps it up to date. */
    ghost var mem: Store

    /** The tree the nodes spell out. */
    ghost var shape: Shape

    /** The tree between two calls. */
    ghost predicate Valid()
      reads this, mem.Keys
    {
      Mirrors() && At(mem, Top, shape, root) && RedBlack(shape) && mem.Keys == Nodes(shape)
    }

    /** RB_INIT. */
    constructor ()
      ensures Valid() && mem.Keys == {}
    {
      root, mem, shape := null, map[], Leaf;
    }

    ghost predicate Mirrors()
      reads this, mem.Keys
    {
      forall n | n in mem :: Cell(n.left, n.right, n.parent, n.red) == mem[n]
    }

    method SetLeft(n: Node, x: Node?)
      requires Mirrors() && n in mem
      modifies n`left, this`mem
      ensures Mirrors() && mem.Keys == old(mem).Keys && mem == old(mem)[n := old(mem)[n].(left := x)]
    {
      n.left := x;
      mem := mem[n := mem[n].(left := x)];
    }

    method SetRight(n: Node, x: Node?)
      requires Mirrors() && n in mem
      modifies n`right, this`mem
      ensures Mirrors() && mem.Keys == old(mem).Keys && mem == old(mem)[n := old(mem)[n].(right := x)]
    {
      n.right := x;
      mem := mem[n := mem[n].(right := x)];
    }

    method SetParent(n: Node, x: Node?)
      requires Mirrors() && n in mem
      modifies n`parent, this`mem
      ensures Mirrors() && mem.Keys == old(mem).Keys && mem == old(mem)[n := old(mem)[n].(parent := x)]
    {
      n.parent := x;
      mem := mem[n := mem[n].(parent := x)];
    }

    method SetRed(n: Node, red: bool)
      requires Mirrors() && n in mem
      modifies n`red, this`mem
      ensures Mirrors() && mem.Keys == old(mem).Keys && mem == old(mem)[n := old(mem)[n].(red := red)]
    {
      n.red := red;
      mem := mem[n := mem[n].(red := red)];
    }

    /** Points whatever leads to `elm`, its parent's child field or the head, at `other`. */
    method Redirect(elm: Node, other: Node?)
      requires Mirrors() && elm in mem && (mem[elm].parent != null ==> mem[elm].parent in mem)
      modifies this`root, this`mem, mem.Keys
      ensures Mirrors() && mem.Keys == old(mem).Keys
      ensures mem == Redirected(old(mem), elm, other)
      ensures root == if old(mem)[elm].parent == null then other else old(root)
    {
      if elm.parent != null {
        if elm == elm.parent.left {
          SetLeft(elm.parent, other);
        } else {
          SetRight(elm.parent, other);
        }
      } else {
        root := other;
      }
    }

    /** `tmp` is put in the place of `elm`. */
    method Lift(elm: Node, tmp: Node)
      requires Mirrors() && elm in mem && tmp in mem && elm != tmp &&
        (mem[elm].parent != null ==> mem[elm].parent in mem)
      modifies this`root, this`mem, mem.Keys
      ensures Mirrors() && mem.Keys == old(mem).Keys && mem == Lifted(old(mem), elm, tmp)
      ensures root == if old(mem)[elm].parent == null then tmp else old(root)
    {
      SetParent(tmp, elm.parent);
      Redirect(elm, tmp);
    }

    method AdoptInnerLeft(elm: Node, b: Node?)
      requires Mirrors() && elm in mem && (b != null ==> b in mem)
      modifies this`mem, mem.Keys
      ensures Mirrors() && mem.Keys == old(mem).Keys && mem == InnerLeft(old(mem), elm, b)
    {
      SetRight(elm, b);
      if b != null {
        SetParent(b, elm);
      }
    }

    /** The assignments of RB_ROTATE_LEFT. */
    method SpinLeft(elm: Node)
      requires Mirrors() && CanSpinLeft(mem, elm)
      modifies this`root, this`mem, mem.Keys
      ensures Mirrors() && mem.Keys == old(mem).Keys
      ensures mem == SpunLeft(old(mem), elm)
      ensures root == if old(mem)[elm].parent == null then old(mem)[elm].right else old(root)
    {
      var tmp := elm.right;
      AdoptInnerLeft(elm, tmp.left);
      assert mem[elm].parent == old(mem)[elm].parent;
      Lift(elm, tmp);
      SetLeft(tmp, elm);
      SetParent(elm, tmp);
    }

    method AdoptInnerRight(elm: Node, b: Node?)
      requires Mirrors() && elm in mem && (b != null ==> b in mem)
      modifies this`mem, mem.Keys
      ensures Mirrors() && mem.Keys == old(mem).Keys && mem == InnerRight(old(mem), elm, b)
    {
      SetLeft(elm, b);
      if b != null {
        SetParent(b, elm);
      }
    }

    /** The assignments of RB_ROTATE_RIGHT. */
    method SpinRight(elm: Node)
      requires Mirrors() && CanSpinRight(mem, elm)
      modifies this`root, this`mem, mem.Keys
      ensures Mirrors() && mem.Keys == old(mem).Keys
      ensures mem == SpunRight(old(mem), elm)
      ensures root == if old(mem)[elm].parent == null then old(mem)[elm].left else old(root)
    {
      var tmp := elm.left;
      AdoptInnerRight(elm, tmp.right);
      assert mem[elm].parent == old(mem)[elm].parent;
      Lift(elm, tmp);
      SetRight(tmp, elm);
      SetParent(elm, tmp);
    }

    /** RB_ROTATE_LEFT at the root of `t`, whose right child moves up. */
    method RotateLeft(elm: Node, ghost c: Ctx, ghost t: Shape)
      requires Mirrors() && At(mem, c, t, root)
      requires t.Fork? && t.n == elm && t.r.Fork?
      modifies this`root, this`mem, mem.Keys
      ensures Mirrors() && mem.Keys == old(mem).Keys
      ensures At(mem, c, RotatedLeft(t), root)
    {
      SpunLeftLinks(mem, c, t, root);
      SpinLeft(elm);
    }

    /** RB_ROTATE_RIGHT at the root of `t`, whose left child moves up. */
    method RotateRight(elm: Node, ghost c: Ctx, ghost t: Shape)
      requires Mirrors() && At(mem, c, t, root)
      requires t.Fork? && t.n == elm && t.l.Fork?
      modifies this`root, this`mem, mem.Keys
      ensures Mirrors() && mem.Keys == old(mem).Keys
      ensures At(mem, c, RotatedRight(t), root)
    {
      SpunRightLinks(mem, c, t, root);
      SpinRight(elm);
    }

    method Paint(n: Node, red: bool, ghost c: Ctx, ghost t: Shape)
      requires Mirrors() && At(mem, c, t, root) && t.Fork? && t.n == n
      modifies this`mem, mem.Keys
      ensures Mirrors() && mem.Keys == old(mem).Keys
      ensures At(mem, c, t.(red := red), root)
    {
      Painted(mem, c, t, root, red);
      SetRed(n, red);
    }

    method PaintLeft(n: Node, red: bool, ghost c: Ctx, ghost t: Shape)
      requires Mirrors() && At(mem, c, t, root) && t.Fork? && t.l.Fork? && t.l.n == n
      modifies this`mem, mem.Keys
      ensures Mirrors() && mem.Keys == old(mem).Keys
      ensures At(mem, c, t.(l := t.l.(red := red)), root)
    {
      PaintedLeft(mem, c, t, root, red);
      SetRed(n, red);
    }

    method PaintRight(n: Node, red: bool, ghost c: Ctx, ghost t: Shape)
      requires Mirrors() && At(mem, c, t, root) && t.Fork? && t.r.Fork? && t.r.n == n
      modifies this`mem, mem.Keys
      ensures Mirrors() && mem.Keys == old(mem).Keys
      ensures At(mem, c, t.(r := t.r.(red := red)), root)
    {
      PaintedRight(mem, c, t, root, red);
      SetRed(n, red);
    }

    /** Parent and uncle turn black, the grandparent red; `g` is the subtree of the grandparent. */
    method PushRedUp(parent: Node, uncle: Node, gparent: Node, ghost c: Ctx, ghost g: Shape)
      requires Mirrors() && At(mem, c, g, root) && g.Fork? && g.l.Fork? && g.r.Fork? && g.n == gparent
      requires (g.l.n == parent && g.r.n == uncle) || (g.l.n == uncle && g.r.n == parent)
      modifies this`mem, mem.Keys
      ensures Mirrors() && mem.Keys == old(mem).Keys
      ensures At(mem, c, Fork(g.l.(red := false), gparent, true, g.r.(red := false)), root)
    {
      if g.l.n == parent {
        PaintedRight(mem, c, g, root, false);
      } else {
        PaintedLeft(mem, c, g, root, false);
      }
      SetRed(uncle, false);
      if g.l.n == parent {
        PaintedLeft(mem, c, g.(r := g.r.(red := false)), root, false);
      } else {
        PaintedRight(mem, c, g.(l := g.l.(red := false)), root, false);
      }
      SetRed(parent, false);
      Paint(gparent, true, c, g.(l := g.l.(red := false), r := g.r.(red := false)));
    }

    /** RB_SET_BLACKRED(parent, gparent) and the rotation at the grandparent, for a left parent. */
    method LiftLeft(parent: Node, gparent: Node, ghost c: Ctx, ghost g: Shape)
      requires Mirrors() && At(mem, c, g, root) && g.Fork? && g.l.Fork? && g.n == gparent && g.l.n == parent
      modifies this`root, this`mem, mem.Keys
      ensures Mirrors() && mem.Keys == old(mem).Keys
      ensures At(mem, c, Fork(g.l.l, parent, false, Fork(g.l.r, gparent, true, g.r)), root)
    {
      PaintLeft(parent, false, c, g);
      Paint(gparent, true, c, g.(l := g.l.(red := false)));
      RotateRight(gparent, c, g.(l := g.l.(red := false), red := true));
    }

    /** For a left parent: a right child `elm` is first rotated above its parent. */
    method StraightenLeft(elm0: Node, parent0: Node, ghost c: Ctx, ghost t: Shape)
      returns (elm: Node, parent: Node, ghost p: Shape)
      requires Mirrors() && At(mem, c, t, root) && Inserting(c, t) && t.n == elm0
      requires RedAbove(c) && c.n == parent0
      modifies this`root, this`mem, mem.Keys
      ensures Mirrors() && mem.Keys == old(mem).Keys
      ensures p.Fork? && At(mem, c.up, p, root) && Nodes(p) == Nodes(UpTree(c, t))
      ensures p.n == parent && RedPair(p.l, p.r, BlackHeight(t)) && p.l.n == elm
    {
      parent, elm, p := parent0, elm0, UpTree(c, t);
      StraightPair(c, t);
      Up(mem, c, t, root);
      assert parent in mem && mem[parent].right == Root(p.r);
      Disjoint(c, t);
      if parent.right == elm {
        assert c.InRight?;
        RotatedLeftOrdered(c.up, p);
        RotateLeft(parent, c.up, p);
        p := RotatedLeft(p);
        parent, elm := elm, parent;
      }
    }

    /** One turn of the loop of RB_INSERT_COLOR whose parent is a left child with a black sibling. */
    method BlackUncleLeft(elm0: Node, parent0: Node, gparent: Node, ghost c: Ctx, ghost t: Shape)
      returns (elm: Node, ghost c': Ctx, ghost t': Shape)
      requires Mirrors() && At(mem, c, t, root) && Inserting(c, t) && t.n == elm0
      requires RedAbove(c) && c.n == parent0 && c.up.InLeft? && c.up.n == gparent && !IsRed(c.up.r)
      modifies this`root, this`mem, mem.Keys
      ensures Mirrors() && mem.Keys == old(mem).Keys
      ensures At(mem, c', t', root) && Inserting(c', t') && t'.n == elm
      ensures Nodes(t') + CtxNodes(c') == Nodes(t) + CtxNodes(c) && Depth(c') < Depth(c)
    {
      var parent;
      ghost var p;
      elm, parent, p := StraightenLeft(elm0, parent0, c, t);
      Up(mem, c.up, p, root);
      LiftLeft(parent, gparent, c.up.up, UpTree(c.up, p));
      c', t' := InLeft(parent, false, Fork(p.r, gparent, true, c.up.r), c.up.up), p.l;
      Up(mem, c', t', root);
      LiftedNodes(c, t, p, t', p.r, c');
      BlackUncleInserts(c, t, t', p.r, c');
    }

    /** RB_SET_BLACKRED(parent, gparent) and the rotation at the grandparent, for a right parent. */
    method LiftRight(parent: Node, gparent: Node, ghost c: Ctx, ghost g: Shape)
      requires Mirrors() && At(mem, c, g, root) && g.Fork? && g.r.Fork? && g.n == gparent && g.r.n == parent
      modifies this`root, this`mem, mem.Keys
      ensures Mirrors() && mem.Keys == old(mem).Keys
      ensures At(mem, c, Fork(Fork(g.l, gparent, true, g.r.l), parent, false, g.r.r), root)
    {
      PaintRight(parent, false, c, g);
      Paint(gparent, true, c, g.(r := g.r.(red := false)));
      RotateLeft(gparent, c, g.(r := g.r.(red := false), red := true));
    }

    /** For a right parent: a left child `elm` is first rotated above its parent. */
    method StraightenRight(elm0: Node, parent0: Node, ghost c: Ctx, ghost t: Shape)
      returns (elm: Node, parent: Node, ghost p: Shape)
      requires Mirrors() && At(mem, c, t, root) && Inserting(c, t) && t.n == elm0
      requires RedAbove(c) && c.n == parent0
      modifies this`root, this`mem, mem.Keys
      ensures Mirrors() && mem.Keys == old(mem).Keys
      ensures p.Fork? && At(mem, c.up, p, root) && Nodes(p) == Nodes(UpTree(c, t))
      ensures p.n == parent && RedPair(p.r, p.l, BlackHeight(t)) && p.r.n == elm
    {
      parent, elm, p := parent0, elm0, UpTree(c, t);
      StraightPair(c, t);
      Up(mem, c, t, root);
      assert parent in mem && mem[parent].left == Root(p.l);
      Disjoint(c, t);
      if parent.left == elm {
        assert c.InLeft?;
        RotatedRightOrdered(c.up, p);
        RotateRight(parent, c.up, p);
        p := RotatedRight(p);
        parent, elm := elm, parent;
      }
    }

    /** One turn of the loop of RB_INSERT_COLOR whose parent is a right child with a black sibling. */
    method BlackUncleRight(elm0: Node, parent0: Node, gparent: Node, ghost c: Ctx, ghost t: Shape)
      returns (elm: Node, ghost c': Ctx, ghost t': Shape)
      requires Mirrors() && At(mem, c, t, root) && Inserting(c, t) && t.n == elm0
      requires RedAbove(c) && c.n == parent0 && c.up.InRight? && c.up.n == gparent && !IsRed(c.up.l)
      modifies this`root, this`mem, mem.Keys
      ensures Mirrors() && mem.Keys == old(mem).Keys
      ensures At(mem, c', t', root) && Inserting(c', t') && t'.n == elm
      ensures Nodes(t') + CtxNodes(c') == Nodes(t) + CtxNodes(c) && Depth(c') < Depth(c)
    {
      var parent;
      ghost var p;
      elm, parent, p := StraightenRight(elm0, parent0, c, t);
      Up(mem, c.up, p, root);
      LiftRight(parent, gparent, c.up.up, UpTree(c.up, p));
      c', t' := InRight(Fork(c.up.l, gparent, true, p.l), parent, false, c.up.up), p.r;
      Up(mem, c', t', root);
      LiftedNodes(c, t, p, t', p.l, c');
      BlackUncleInserts(c, t, t', p.l, c');
    }

    /** One turn of the loop of RB_INSERT_COLOR. */
    method InsertTurn(elm0: Node, ghost c: Ctx, ghost t: Shape)
      returns (elm: Node, ghost c': Ctx, ghost t': Shape)
      requires Mirrors() && At(mem, c, t, root) && Inserting(c, t) && t.n == elm0 && RedAbove(c)
      modifies this`root, this`mem, mem.Keys
      ensures Mirrors() && mem.Keys == old(mem).Keys
      ensures At(mem, c', t', root) && Inserting(c', t') && t'.n == elm
      ensures Nodes(t') + CtxNodes(c') == Nodes(t) + CtxNodes(c) && Depth(c') < Depth(c)
    {
      GrandparentExists(c, t);
      ghost var g := UpTree(c.up, UpTree(c, t));
      Up(mem, c, t, root);
      Up(mem, c.up, UpTree(c, t), root);
      assert elm0 in mem && c.n in mem && c.up.n in mem && mem[c.up.n] == Holding(c.up, c.n);
      var parent := elm0.parent;
      var gparent := parent.parent;
      assert c.up.InRight? ==> Root(c.up.l) != parent by {
        Separate(g);
      }
      if parent == gparent.left {
        var tmp := gparent.right;
        assert tmp == Root(c.up.r) && (tmp != null ==> tmp in mem && mem[tmp].red == c.up.r.red);
        if tmp != null && tmp.red {
          PushRedUp(parent, tmp, gparent, c.up.up, g);
          elm, c', t' := gparent, c.up.up, RedUncle(c, t);
          RedUncleNodes(c, t);
          RedUncleInserts(c, t);
        } else {
          elm, c', t' := BlackUncleLeft(elm0, parent, gparent, c, t);
        }
      } else {
        var tmp := gparent.left;
        assert tmp == Root(c.up.l) && (tmp != null ==> tmp in mem && mem[tmp].red == c.up.l.red);
        if tmp != null && tmp.red {
          PushRedUp(parent, tmp, gparent, c.up.up, g);
          elm, c', t' := gparent, c.up.up, RedUncle(c, t);
          RedUncleNodes(c, t);
          RedUncleInserts(c, t);
        } else {
          elm, c', t' := BlackUncleRight(elm0, parent, gparent, c, t);
        }
      }
    }

    /** RB_INSERT_COLOR: restores the colours above a freshly linked red node. */
    method InsertColor(elm0: Node, ghost c0: Ctx, ghost t0: Shape) returns (ghost s: Shape)
      requires Mirrors() && At(mem, c0, t0, root) && Inserting(c0, t0) && t0.n == elm0
      modifies this`root, this`mem, mem.Keys
      ensures Mirrors() && mem.Keys == old(mem).Keys
      ensures At(mem, Top, s, root) && RedBlack(s) && Nodes(s) == Nodes(t0) + CtxNodes(c0)
    {
      var elm := elm0;
      ghost var c, t := c0, t0;
      assert c.Top? || (c.n in mem && mem[c.n].red == c.red);
      while elm.parent != null && elm.parent.red
        invariant Mirrors() && mem.Keys == old(mem).Keys
        invariant At(mem, c, t, root) && Inserting(c, t) && t.n == elm
        invariant c.Top? || (c.n in mem && mem[c.n].red == c.red)
        invariant Nodes(t) + CtxNodes(c) == Nodes(t0) + CtxNodes(c0)
        decreases Depth(c)
      {
        elm, c, t := InsertTurn(elm, c, t);
      }
      PlugAt(mem, c, t, root);
      PlugNodes(c, t);
      InsertedWhole(c, t);
      Paint(root, false, Top, Plug(c, t));
      s := Plug(c, t).(red := false);
    }

    /** RB_FIND: the element with the given key, or null. */
    method Find(key: int) returns (found: Node?)
      requires Valid()
      ensures found != null ==> found in mem.Keys && found.key == key
      ensures found == null ==> forall n | n in mem.Keys :: n.key != key
    {
      var tmp := root;
      ghost var c, t := Top, shape;
      while tmp != null
        invariant tmp == Root(t) && At(mem, c, t, root) && Fits(c, key)
        invariant Nodes(t) + CtxNodes(c) == mem.Keys
        decreases t
      {
        if key < tmp.key {
          Up(mem, InLeft(t.n, t.red, t.r, c), t.l, root);
          c, t := InLeft(t.n, t.red, t.r, c), t.l;
          tmp := tmp.left;
        } else if key > tmp.key {
          Up(mem, InRight(t.l, t.n, t.red, c), t.r, root);
          c, t := InRight(t.l, t.n, t.red, c), t.r;
          tmp := tmp.right;
        } else {
          return tmp;
        }
      }
      Apart(c, key);
      return null;
    }

    /** The walk of RB_INSERT down to the node with the key, or to the empty place where it belongs. */
    method Descend(key: int) returns (tmp: Node?, parent: Node?, comp: int, ghost c: Ctx)
      requires Valid()
      ensures tmp != null ==> tmp in mem.Keys && tmp.key == key
      ensures tmp == null ==>
        && At(mem, c, Leaf, root) && Plug(c, Leaf) == shape
        && Fits(c, key) && (forall n | n in mem.Keys :: n.key != key)
        && parent == Above(c) && (!c.Top? ==> (comp < 0 <==> c.InLeft?))
    {
      tmp, parent, comp, c := root, null, 0, Top;
      ghost var t := shape;
      while tmp != null
        invariant tmp == Root(t) && parent == Above(c) && At(mem, c, t, root) && Fits(c, key)
        invariant !c.Top? ==> (comp < 0 <==> c.InLeft?)
        invariant Plug(c, t) == shape
        decreases t
      {
        parent := tmp;
        comp := key - parent.key;
        if comp < 0 {
          Up(mem, InLeft(t.n, t.red, t.r, c), t.l, root);
          c, t := InLeft(t.n, t.red, t.r, c), t.l;
          tmp := tmp.left;
        } else if comp > 0 {
          Up(mem, InRight(t.l, t.n, t.red, c), t.r, root);
          c, t := InRight(t.l, t.n, t.red, c), t.r;
          tmp := tmp.right;
        } else {
          PlugNodes(c, t);
          return;
        }
      }
      PlugNodes(c, t);
      Apart(c, key);
    }

    /** RB_SET and the link from the parent: `elm` becomes a red leaf. */
    method Attach(elm: Node, parent: Node?, comp: int, ghost c: Ctx)
      requires Mirrors() && At(mem, c, Leaf, root) && Fits(c, elm.key) && elm !in mem
      requires parent == Above(c) && (!c.Top? ==> (comp < 0 <==> c.InLeft?))
      modifies this`root, this`mem, mem.Keys, elm
      ensures Mirrors() && mem.Keys == old(mem).Keys + {elm}
      ensures At(mem, c, Fork(Leaf, elm, true, Leaf), root)
    {
      ghost var m0, root0 := mem, root;
      InitNode(elm, parent);
      if parent != null {
        if comp < 0 {
          SetLeft(parent, elm);
        } else {
          SetRight(parent, elm);
        }
      } else {
        root := elm;
      }
      Attached(m0, mem, c, elm, root0, root);
    }

    /** RB_SET: a red node without children. */
    method InitNode(elm: Node, parent: Node?)
      requires Mirrors() && elm !in mem
      modifies this`mem, elm
      ensures Mirrors() && mem == old(mem)[elm := Cell(null, null, parent, true)]
    {
      elm.left, elm.right, elm.parent, elm.red := null, null, parent, true;
      mem := mem[elm := Cell(null, null, parent, true)];
    }

    /** RB_INSERT: links `elm` unless its key is taken, in which case the holder of the key is returned. */
    method Insert(elm: Node) returns (existing: Node?)
      requires Valid()
      modifies this, mem.Keys, elm
      ensures Valid()
      ensures existing != null ==>
        && existing in old(mem.Keys) && existing.key == elm.key
        && shape == old(shape) && mem == old(mem)
      ensures existing == null ==>
        && (forall n | n in old(mem.Keys) :: n.key != elm.key)
        && mem.Keys == old(mem.Keys) + {elm}
    {
      var tmp, parent, comp;
      ghost var c;
      tmp, parent, comp, c := Descend(elm.key);
      if tmp != null {
        return tmp;
      }
      shape := AttachRed(elm, parent, comp, c);
      return null;
    }

    /** The end of RB_INSERT: `elm` is linked as a red leaf and the colours are restored. */
    method AttachRed(elm: Node, parent: Node?, comp: int, ghost c: Ctx) returns (ghost s: Shape)
      requires Mirrors() && At(mem, c, Leaf, root) && RedBlack(Plug(c, Leaf)) && Fits(c, elm.key) && elm !in mem
      requires parent == Above(c) && (!c.Top? ==> (comp < 0 <==> c.InLeft?))
      modifies this`root, this`mem, mem.Keys, elm
      ensures Mirrors() && mem.Keys == old(mem).Keys + {elm}
      ensures At(mem, Top, s, root) && RedBlack(s) && Nodes(s) == Nodes(Plug(c, Leaf)) + {elm}
    {
      FreshLeaf(c, elm);
      Attach(elm, parent, comp, c);
      s := InsertColor(elm, c, Fork(Leaf, elm, true, Leaf));
    }

    /** RB_REMOVE_COLOR, a red sibling on the right: it turns black and is rotated above the parent. */
    method RedSiblingLeft(parent: Node, tmp: Node, ghost c: Ctx, ghost t: Shape)
      requires Mirrors() && At(mem, c, t, root) && c.InLeft? && c.n == parent && c.r.Fork? && c.r.n == tmp
      modifies this`root, this`mem, mem.Keys
      ensures Mirrors() && mem.Keys == old(mem).Keys
      ensures At(mem, BelowRedSibling(c), t, root)
    {
      ghost var g, w, c' := UpTree(c, t), c.r, BelowRedSibling(c);
      Up(mem, c, t, root);
      PaintRight(tmp, false, c.up, g);
      Paint(parent, true, c.up, g.(r := w.(red := false)));
      RotateLeft(parent, c.up, g.(r := w.(red := false), red := true));
      Up(mem, c'.up, UpTree(c', t), root);
      Up(mem, c', t, root);
    }

    /** The sibling on the right with two black children turns red. */
    method BlackNephewsLeft(tmp: Node, ghost c: Ctx, ghost t: Shape)
      requires Mirrors() && At(mem, c, t, root) && c.InLeft? && c.r.Fork? && c.r.n == tmp
      modifies this`root, this`mem, mem.Keys
      ensures Mirrors() && mem.Keys == old(mem).Keys
      ensures At(mem, c.up, UpTree(c.(r := c.r.(red := true)), t), root)
    {
      Up(mem, c, t, root);
      PaintRight(tmp, true, c.up, UpTree(c, t));
    }

    /** The sibling on the right has a red left child, which is rotated above it. */
    method NearNephewLeft(tmp: Node, ghost c: Ctx, ghost t: Shape)
      requires Mirrors() && At(mem, c, t, root) && c.InLeft? && c.r.Fork? && c.r.n == tmp && c.r.l.Fork?
      modifies this`root, this`mem, mem.Keys
      ensures Mirrors() && mem.Keys == old(mem).Keys
      ensures At(mem, NearNephewUp(c), t, root)
    {
      ghost var cw, w := InRight(t, c.n, c.red, c.up), c.r;
      Up(mem, c, t, root);
      Up(mem, cw, w, root);
      assert tmp in mem && mem[tmp].left == w.l.n;
      var oleft := tmp.left;
      if oleft != null {
        PaintLeft(oleft, false, cw, w);
      }
      w := w.(l := w.l.(red := false));
      Paint(tmp, true, cw, w);
      w := w.(red := true);
      RotateRight(tmp, cw, w);
      Up(mem, cw, RotatedRight(w), root);
      Up(mem, NearNephewUp(c), t, root);
    }

    /** The sibling on the right has a red right child: the last rotation. */
    method FarNephewLeft(parent: Node, tmp: Node, ghost c: Ctx, ghost t: Shape)
      requires Mirrors() && At(mem, c, t, root) && c.InLeft? && c.n == parent && c.r.Fork? && c.r.n == tmp &&
        c.r.r.Fork?
      modifies this`root, this`mem, mem.Keys
      ensures Mirrors() && mem.Keys == old(mem).Keys
      ensures At(mem, c.up, FarNephewUp(c, t), root)
    {
      ghost var g, w := UpTree(c, t), c.r;
      Up(mem, c, t, root);
      assert parent in mem && mem[parent].red == c.red;
      PaintRight(tmp, parent.red, c.up, g);
      w := w.(red := c.red);
      g := g.(r := w);
      Paint(parent, false, c.up, g);
      g := g.(red := false);
      ghost var cw := InRight(t, parent, false, c.up);
      Up(mem, cw, w, root);
      assert tmp in mem && mem[tmp].right == w.r.n;
      if tmp.right != null {
        PaintRight(tmp.right, false, cw, w);
      }
      w := w.(r := Black(w.r));
      Up(mem, cw, w, root);
      RotateLeft(parent, c.up, g.(r := w));
    }

    /** RB_REMOVE_COLOR, a red sibling on the left: it turns black and is rotated above the parent. */
    method RedSiblingRight(parent: Node, tmp: Node, ghost c: Ctx, ghost t: Shape)
      requires Mirrors() && At(mem, c, t, root) && c.InRight? && c.n == parent && c.l.Fork? && c.l.n == tmp
      modifies this`root, this`mem, mem.Keys
      ensures Mirrors() && mem.Keys == old(mem).Keys
      ensures At(mem, BelowRedSibling(c), t, root)
    {
      ghost var g, w, c' := UpTree(c, t), c.l, BelowRedSibling(c);
      Up(mem, c, t, root);
      PaintLeft(tmp, false, c.up, g);
      Paint(parent, true, c.up, g.(l := w.(red := false)));
      RotateRight(parent, c.up, g.(l := w.(red := false), red := true));
      Up(mem, c'.up, UpTree(c', t), root);
      Up(mem, c', t, root);
    }

    /** The sibling on the left with two black children turns red. */
    method BlackNephewsRight(tmp: Node, ghost c: Ctx, ghost t: Shape)
      requires Mirrors() && At(mem, c, t, root) && c.InRight? && c.l.Fork? && c.l.n == tmp
      modifies this`root, this`mem, mem.Keys
      ensures Mirrors() && mem.Keys == old(mem).Keys
      ensures At(mem, c.up, UpTree(c.(l := c.l.(red := true)), t), root)
    {
      Up(mem, c, t, root);
      PaintLeft(tmp, true, c.up, UpTree(c, t));
    }

    /** The sibling on the left has a red right child, which is rotated above it. */
    method NearNephewRight(tmp: Node, ghost c: Ctx, ghost t: Shape)
      requires Mirrors() && At(mem, c, t, root) && c.InRight? && c.l.Fork? && c.l.n == tmp && c.l.r.Fork?
      modifies this`root, this`mem, mem.Keys
      ensures Mirrors() && mem.Keys == old(mem).Keys
      ensures At(mem, NearNephewUp(c), t, root)
    {
      ghost var cw, w := InLeft(c.n, c.red, t, c.up), c.l;
      Up(mem, c, t, root);
      Up(mem, cw, w, root);
      assert tmp in mem && mem[tmp].right == w.r.n;
      var oright := tmp.right;
      if oright != null {
        PaintRight(oright, false, cw, w);
      }
      w := w.(r := w.r.(red := false));
      Paint(tmp, true, cw, w);
      w := w.(red := true);
      RotateLeft(tmp, cw, w);
      Up(mem, cw, RotatedLeft(w), root);
      Up(mem, NearNephewUp(c), t, root);
    }

    /** The sibling on the left has a red left child: the last rotation. */
    method FarNephewRight(parent: Node, tmp: Node, ghost c: Ctx, ghost t: Shape)
      requires Mirrors() && At(mem, c, t, root) && c.InRight? && c.n == parent && c.l.Fork? && c.l.n == tmp &&
        c.l.l.Fork?
      modifies this`root, this`mem, mem.Keys
      ensures Mirrors() && mem.Keys == old(mem).Keys
      ensures At(mem, c.up, FarNephewUp(c, t), root)
    {
      ghost var g, w := UpTree(c, t), c.l;
      Up(mem, c, t, root);
      assert parent in mem && mem[parent].red == c.red;
      PaintLeft(tmp, parent.red, c.up, g);
      w := w.(red := c.red);
      g := g.(l := w);
      Paint(parent, false, c.up, g);
      g := g.(red := false);
      ghost var cw := InLeft(parent, false, t, c.up);
      Up(mem, cw, w, root);
      assert tmp in mem && mem[tmp].left == w.l.n;
      if tmp.left != null {
        PaintLeft(tmp.left, false, cw, w);
      }
      w := w.(l := Black(w.l));
      Up(mem, cw, w, root);
      RotateRight(parent, c.up, g.(l := w));
    }

    /** What the code reads off the sibling and the nephews. */
    lemma SiblingShows(c: Ctx, t: Shape)
      requires Mirrors() && At(mem, c, t, root) && !c.Top? && Sibling(c).Fork?
      ensures var w := Sibling(c);
        && c.n in mem.Keys && c.n.parent == Above(c.up)
        && (if c.InLeft? then c.n.right == w.n else c.n.left == w.n)
        && w.n in mem.Keys && w.n.red == w.red && w.n.left == Root(w.l) && w.n.right == Root(w.r)
        && (w.l.Fork? ==> w.l.n in mem.Keys && w.l.n.red == w.l.red)
        && (w.r.Fork? ==> w.r.n in mem.Keys && w.r.n.red == w.r.red)
    {
      var w := Sibling(c);
      assert Linked(mem, w, c.n);
      assert Linked(mem, w.l, w.n) && Linked(mem, w.r, w.n);
    }

    /** The first step of a turn of RB_REMOVE_COLOR for a left child: the sibling becomes black. */
    method BlackSiblingLeft(parent: Node, ghost c: Ctx, ghost t: Shape) returns (tmp: Node, ghost c': Ctx)
      requires Mirrors() && At(mem, c, t, root) && Removing(c, t) && !IsRed(t) && c.InLeft? && c.n == parent
      modifies this`root, this`mem, mem.Keys
      ensures Mirrors() && mem.Keys == old(mem).Keys
      ensures At(mem, c', t, root) && Removing(c', t) && CtxNodes(c') == CtxNodes(c)
      ensures c'.InLeft? && c'.n == parent && c'.r.Fork? && c'.r.n == tmp && !c'.r.red
      ensures Depth(c') == Depth(c) || (Depth(c') == Depth(c) + 1 && c'.red)
    {
      c' := c;
      SiblingExists(c, t);
      SiblingShows(c, t);
      tmp := parent.right;
      if tmp.red {
        RedSiblingLeft(parent, tmp, c, t);
        RedSiblingRemoves(c, t);
        RemovalNodes(c, t);
        c' := BelowRedSibling(c);
        SiblingExists(c', t);
        SiblingShows(c', t);
        tmp := parent.right;
      }
    }

    /** The last step of a turn of RB_REMOVE_COLOR for a left child with a red nephew. */
    method RedNephewLeft(parent: Node, tmp0: Node, ghost c: Ctx, ghost t: Shape) returns (ghost t': Shape)
      requires Mirrors() && At(mem, c, t, root) && Removing(c, t) && !IsRed(t)
      requires c.InLeft? && c.n == parent && c.r.Fork? && c.r.n == tmp0 && !c.r.red && (IsRed(c.r.l) || IsRed(c.r.r))
      modifies this`root, this`mem, mem.Keys
      ensures Mirrors() && mem.Keys == old(mem).Keys
      ensures At(mem, c.up, t', root) && Fixed(c.up, t') && Nodes(t') + CtxNodes(c.up) == Nodes(t) + CtxNodes(c)
    {
      var tmp := tmp0;
      ghost var c' := c;
      SiblingShows(c, t);
      if tmp.right == null || !tmp.right.red {
        NearNephewRemoves(c, t);
        NearNephewNodes(c);
        NearNephewLeft(tmp, c, t);
        c' := NearNephewUp(c);
        SiblingShows(c', t);
        tmp := parent.right;
      }
      RemovalNodes(c', t);
      FarNephewDone(c', t);
      FarNephewLeft(parent, tmp, c', t);
      t' := FarNephewUp(c', t);
    }

    /** Both nephews are black: the sibling becomes red, and the missing black node is the parent's affair. */
    method AscendLeft(elm: Node, tmp: Node, ghost c: Ctx, ghost t: Shape)
      returns (parent: Node?, ghost c': Ctx, ghost t': Shape)
      requires Mirrors() && At(mem, c, t, root) && Removing(c, t) && !IsRed(t) && c.InLeft? && c.n == elm
      requires c.r.Fork? && c.r.n == tmp && !c.r.red && !IsRed(c.r.l) && !IsRed(c.r.r)
      modifies this`root, this`mem, mem.Keys
      ensures Mirrors() && mem.Keys == old(mem).Keys
      ensures At(mem, c', t', root) && Nodes(t') + CtxNodes(c') == Nodes(t) + CtxNodes(c)
      ensures c' == c.up && t' == UpTree(c.(r := c.r.(red := true)), t)
      ensures Removing(c', t') && Root(t') == elm && parent == Above(c')
    {
      ghost var c1 := c.(r := c.r.(red := true));
      BlackNephewsLeft(tmp, c, t);
      BlackNephewsRemove(c, t, c1);
      UpNodes(c, t);
      c', t' := c1.up, UpTree(c1, t);
      assert elm in mem && mem[elm].parent == Above(c');
      parent := elm.parent;
    }

    /** One turn of the loop of RB_REMOVE_COLOR for a left child. */
    method RemoveTurnLeft(parent0: Node, ghost c: Ctx, ghost t: Shape)
      returns (elm: Node?, parent: Node?, done: bool, ghost c': Ctx, ghost t': Shape)
      requires Mirrors() && At(mem, c, t, root) && Removing(c, t) && !IsRed(t) && c.InLeft? && parent0 == c.n
      modifies this`root, this`mem, mem.Keys
      ensures Mirrors() && mem.Keys == old(mem).Keys
      ensures At(mem, c', t', root) && Nodes(t') + CtxNodes(c') == Nodes(t) + CtxNodes(c)
      ensures !done ==> elm == Root(t') && parent == Above(c') && Removing(c', t') && Measure(c', t') < Measure(c, t)
      ensures done ==> elm == root && Fixed(c', t')
    {
      parent := parent0;
      var tmp;
      tmp, c' := BlackSiblingLeft(parent, c, t);
      SiblingShows(c', t);
      if (tmp.left == null || !tmp.left.red) && (tmp.right == null || !tmp.right.red) {
        elm, done := parent, false;
        parent, c', t' := AscendLeft(parent, tmp, c', t);
      } else {
        t' := RedNephewLeft(parent, tmp, c', t);
        c' := c'.up;
        elm, done := root, true;
      }
    }

    /** The first step of a turn of RB_REMOVE_COLOR for a right child: the sibling becomes black. */
    method BlackSiblingRight(parent: Node, ghost c: Ctx, ghost t: Shape) returns (tmp: Node, ghost c': Ctx)
      requires Mirrors() && At(mem, c, t, root) && Removing(c, t) && !IsRed(t) && c.InRight? && c.n == parent
      modifies this`root, this`mem, mem.Keys
      ensures Mirrors() && mem.Keys == old(mem).Keys
      ensures At(mem, c', t, root) && Removing(c', t) && CtxNodes(c') == CtxNodes(c)
      ensures c'.InRight? && c'.n == parent && c'.l.Fork? && c'.l.n == tmp && !c'.l.red
      ensures Depth(c') == Depth(c) || (Depth(c') == Depth(c) + 1 && c'.red)
    {
      c' := c;
      SiblingExists(c, t);
      SiblingShows(c, t);
      tmp := parent.left;
      if tmp.red {
        RedSiblingRight(parent, tmp, c, t);
        RedSiblingRemoves(c, t);
        RemovalNodes(c, t);
        c' := BelowRedSibling(c);
        SiblingExists(c', t);
        SiblingShows(c', t);
        tmp := parent.left;
      }
    }

    /** The last step of a turn of RB_REMOVE_COLOR for a right child with a red nephew. */
    method RedNephewRight(parent: Node, tmp0: Node, ghost c: Ctx, ghost t: Shape) returns (ghost t': Shape)
      requires Mirrors() && At(mem, c, t, root) && Removing(c, t) && !IsRed(t)
      requires c.InRight? && c.n == parent && c.l.Fork? && c.l.n == tmp0 && !c.l.red && (IsRed(c.l.r) || IsRed(c.l.l))
      modifies this`root, this`mem, mem.Keys
      ensures Mirrors() && mem.Keys == old(mem).Keys
      ensures At(mem, c.up, t', root) && Fixed(c.up, t') && Nodes(t') + CtxNodes(c.up) == Nodes(t) + CtxNodes(c)
    {
      var tmp := tmp0;
      ghost var c' := c;
      SiblingShows(c, t);
      if tmp.left == null || !tmp.left.red {
        NearNephewRemoves(c, t);
        NearNephewNodes(c);
        NearNephewRight(tmp, c, t);
        c' := NearNephewUp(c);
        SiblingShows(c', t);
        tmp := parent.left;
      }
      RemovalNodes(c', t);
      FarNephewDone(c', t);
      FarNephewRight(parent, tmp, c', t);
      t' := FarNephewUp(c', t);
    }

    /** Both nephews are black: the sibling becomes red, and the missing black node is the parent's affair. */
    method AscendRight(elm: Node, tmp: Node, ghost c: Ctx, ghost t: Shape)
      returns (parent: Node?, ghost c': Ctx, ghost t': Shape)
      requires Mirrors() && At(mem, c, t, root) && Removing(c, t) && !IsRed(t) && c.InRight? && c.n == elm
      requires c.l.Fork? && c.l.n == tmp && !c.l.red && !IsRed(c.l.l) && !IsRed(c.l.r)
      modifies this`root, this`mem, mem.Keys
      ensures Mirrors() && mem.Keys == old(mem).Keys
      ensures At(mem, c', t', root) && Nodes(t') + CtxNodes(c') == Nodes(t) + CtxNodes(c)
      ensures c' == c.up && t' == UpTree(c.(l := c.l.(red := true)), t)
      ensures Removing(c', t') && Root(t') == elm && parent == Above(c')
    {
      ghost var c1 := c.(l := c.l.(red := true));
      BlackNephewsRight(tmp, c, t);
      BlackNephewsRemove(c, t, c1);
      UpNodes(c, t);
      c', t' := c1.up, UpTree(c1, t);
      assert elm in mem && mem[elm].parent == Above(c');
      parent := elm.parent;
    }

    /** One turn of the loop of RB_REMOVE_COLOR for a right child. */
    method RemoveTurnRight(parent0: Node, ghost c: Ctx, ghost t: Shape)
      returns (elm: Node?, parent: Node?, done: bool, ghost c': Ctx, ghost t': Shape)
      requires Mirrors() && At(mem, c, t, root) && Removing(c, t) && !IsRed(t) && c.InRight? && parent0 == c.n
      modifies this`root, this`mem, mem.Keys
      ensures Mirrors() && mem.Keys == old(mem).Keys
      ensures At(mem, c', t', root) && Nodes(t') + CtxNodes(c') == Nodes(t) + CtxNodes(c)
      ensures !done ==> elm == Root(t') && parent == Above(c') && Removing(c', t') && Measure(c', t') < Measure(c, t)
      ensures done ==> elm == root && Fixed(c', t')
    {
      parent := parent0;
      var tmp;
      tmp, c' := BlackSiblingRight(parent, c, t);
      SiblingShows(c', t);
      if (tmp.right == null || !tmp.right.red) && (tmp.left == null || !tmp.left.red) {
        elm, done := parent, false;
        parent, c', t' := AscendRight(parent, tmp, c', t);
      } else {
        t' := RedNephewRight(parent, tmp, c', t);
        c' := c'.up;
        elm, done := root, true;
      }
    }

    /** The loop of RB_REMOVE_COLOR. */
    method RemoveLoop(parent0: Node?, elm0: Node?, ghost c0: Ctx, ghost t0: Shape)
      returns (elm: Node?, ghost done: bool, ghost c: Ctx, ghost t: Shape)
      requires Mirrors() && At(mem, c0, t0, root) && Removing(c0, t0)
      requires elm0 == Root(t0) && parent0 == Above(c0)
      modifies this`root, this`mem, mem.Keys
      ensures Mirrors() && mem.Keys == old(mem).Keys
      ensures At(mem, c, t, root) && Nodes(t) + CtxNodes(c) == Nodes(t0) + CtxNodes(c0)
      ensures done ==> elm == root && Fixed(c, t)
      ensures !done ==> elm == Root(t) && Removing(c, t) && (IsRed(t) || elm == root)
    {
      var parent, stop := parent0, false;
      elm, c, t := elm0, c0, t0;
      while !stop && (elm == null || !elm.red) && elm != root
        invariant Mirrors() && mem.Keys == old(mem).Keys && At(mem, c, t, root)
        invariant Nodes(t) + CtxNodes(c) == Nodes(t0) + CtxNodes(c0)
        invariant !stop ==> elm == Root(t) && parent == Above(c) && Removing(c, t)
        invariant stop ==> elm == root && Fixed(c, t)
        decreases !stop, Measure(c, t)
      {
        Separate(UpTree(c, t));
        SiblingExists(c, t);
        SiblingShows(c, t);
        if parent.left == elm {
          elm, parent, stop, c, t := RemoveTurnLeft(parent, c, t);
        } else {
          elm, parent, stop, c, t := RemoveTurnRight(parent, c, t);
        }
      }
      done := stop;
    }

    /** RB_REMOVE_COLOR: `elm0`, possibly null, heads a subtree that is one black node short. */
    method RemoveColor(parent0: Node?, elm0: Node?, ghost c0: Ctx, ghost t0: Shape) returns (ghost s: Shape)
      requires Mirrors() && At(mem, c0, t0, root) && Removing(c0, t0)
      requires elm0 == Root(t0) && parent0 == Above(c0)
      modifies this`root, this`mem, mem.Keys
      ensures Mirrors() && mem.Keys == old(mem).Keys
      ensures At(mem, Top, s, root) && RedBlack(s) && Nodes(s) == Nodes(t0) + CtxNodes(c0)
    {
      var elm;
      ghost var done, c, t;
      elm, done, c, t := RemoveLoop(parent0, elm0, c0, t0);
      c, t := Settle(mem, c, t, root, elm, done);
      s := Blacken(elm, c, t);
    }

    /** The last step: the node that is left, if there is one, is painted black. */
    method Blacken(elm: Node?, ghost c: Ctx, ghost t: Shape) returns (ghost s: Shape)
      requires Mirrors() && At(mem, c, t, root) && Fixed(c, Black(t)) && elm == Root(t)
      modifies this`mem, mem.Keys
      ensures Mirrors() && mem.Keys == old(mem).Keys
      ensures At(mem, Top, s, root) && RedBlack(s) && Nodes(s) == Nodes(Black(t)) + CtxNodes(c)
    {
      if elm != null {
        Paint(elm, false, c, t);
      }
      Whole(mem, c, Black(t), root);
      s := Plug(c, Black(t));
    }

    /** `child`, the only child of `elm`, is linked to the parent of `elm`. */
    method Unlink(elm: Node, child: Node?)
      requires Mirrors() && CanUnlink(mem, elm, child)
      modifies this`root, this`mem, mem.Keys
      ensures Mirrors() && mem.Keys == old(mem).Keys
      ensures mem == UnlinkStore(old(mem), elm, child)
      ensures root == if old(mem)[elm].parent == null then child else old(root)
    {
      if child != null {
        SetParent(child, elm.parent);
      }
      Redirect(elm, child);
    }

    method CopyFields(elm: Node, from: Node)
      requires Mirrors() && elm in mem && from in mem
      modifies elm, this`mem
      ensures Mirrors() && mem.Keys == old(mem).Keys && mem == old(mem)[elm := old(mem)[from]]
    {
      elm.left, elm.right, elm.parent, elm.red := from.left, from.right, from.parent, from.red;
      mem := mem[elm := mem[from]];
    }

    /** `elm` takes over the fields of `old_` and every pointer that led to it. */
    method Substitute(old_: Node, elm: Node)
      requires Mirrors() && CanSubstitute(mem, old_, elm)
      modifies this`root, this`mem, mem.Keys
      ensures Mirrors() && mem.Keys == old(mem).Keys
      ensures mem == SubstituteStore(old(mem), old_, elm)
      ensures root == if old(mem)[old_].parent == null then elm else old(root)
    {
      CopyFields(elm, old_);
      Redirect(old_, elm);
      assert mem[old_] == old(mem)[old_];
      var l := old_.left;
      SetParent(l, elm);
      assert mem[old_] == old(mem)[old_];
      var r := old_.right;
      if r != null {
        SetParent(r, elm);
      }
    }

    /** The walk of RB_REMOVE to the leftmost node of the right subtree `r`. */
    method Leftmost(first: Node, ghost outer: Ctx, ghost r: Shape) returns (elm: Node, ghost inner: Ctx, ghost s: Shape)
      requires Mirrors() && At(mem, outer, r, root) && r.Fork? && first == r.n
      ensures OnlyLeft(inner) && Plug(inner, s) == r && s.Fork? && s.l.Leaf? && s.n == elm
    {
      elm, inner, s := first, Top, r;
      while elm.left != null
        invariant OnlyLeft(inner) && Plug(inner, s) == r && s.Fork? && s.n == elm
        invariant At(mem, Compose(inner, outer), s, root) && elm in mem && mem[elm].left == Root(s.l)
        decreases s
      {
        elm := elm.left;
        inner, s := InLeft(s.n, s.red, s.r, inner), s.l;
        Up(mem, Compose(inner, outer), s, root);
      }
    }

    /** RB_REMOVE of a node with at most one child, up to the repair of the colours. */
    method SpliceOuter(elm: Node, ghost c: Ctx, ghost t: Shape)
      returns (parent: Node?, child: Node?, black: bool, ghost ch: Shape)
      requires Valid() && At(mem, c, t, root) && Plug(c, t) == shape && t.Fork? && t.n == elm &&
        (t.l.Leaf? || t.r.Leaf?)
      modifies this`root, this`mem, mem.Keys
      ensures Mirrors() && mem.Keys == old(mem).Keys
      ensures At(mem, c, ch, root) && parent == Above(c) && child == Root(ch)
      ensures if black then Removing(c, ch) else Fixed(c, ch)
      ensures HasOnlyChild(t, ch)
    {
      assert elm in mem && mem[elm] == Cell(Root(t.l), Root(t.r), Above(c), t.red);
      if elm.left == null {
        child, ch := elm.right, t.r;
      } else {
        child, ch := elm.left, t.l;
      }
      parent, black := elm.parent, !elm.red;
      UnlinkedColours(c, t, ch);
      UnlinkStoreLinks(mem, c, t, ch, root);
      Unlink(elm, child);
    }

    /** The leftmost node of the right subtree is unlinked. */
    method TakeSuccessor(old_: Node, ghost c: Ctx, ghost t: Shape)
      returns (elm: Node, parent: Node?, child: Node?, black: bool, ghost inner: Ctx, ghost s: Shape)
      requires Valid() && At(mem, c, t, root) && Plug(c, t) == shape && t.Fork? && t.n == old_ && t.r.Fork?
      modifies this`root, this`mem, mem.Keys
      ensures Mirrors() && mem.Keys == old(mem).Keys
      ensures OnlyLeft(inner) && Plug(inner, s) == t.r && s.Fork? && s.l.Leaf? && s.n == elm && child == Root(s.r)
      ensures At(mem, c, Fork(t.l, old_, t.red, Plug(inner, s.r)), root)
      ensures parent == (if inner.Top? then old_ else inner.n) && elm in mem
      ensures var path := Compose(inner, InRight(t.l, old_, t.red, c));
        if black then Removing(path, s.r) else Fixed(path, s.r)
    {
      Up(mem, InRight(t.l, old_, t.red, c), t.r, root);
      assert old_ in mem && mem[old_].right == t.r.n;
      elm, inner, s := Leftmost(old_.right, InRight(t.l, old_, t.red, c), t.r);
      PathAt(mem, c, t.l, old_, t.red, inner, s, root);
      SuccessorFits(c, t, inner, s);
      ghost var ch;
      parent, child, black, ch := SpliceOuter(elm, Compose(inner, InRight(t.l, old_, t.red, c)), s);
      PathAt(mem, c, t.l, old_, t.red, inner, s.r, root);
    }

    /** RB_REMOVE of a node with two children, up to the repair of the colours. */
    method SpliceInner(old_: Node, ghost c: Ctx, ghost t: Shape)
      returns (parent: Node?, child: Node?, black: bool, ghost c': Ctx, ghost ch: Shape)
      requires Valid() && At(mem, c, t, root) && Plug(c, t) == shape && t.Fork? && t.n == old_ && t.l.Fork? && t.r.Fork?
      modifies this`root, this`mem, mem.Keys
      ensures Mirrors() && mem.Keys == old(mem).Keys
      ensures At(mem, c', ch, root) && parent == Above(c') && child == Root(ch)
      ensures if black then Removing(c', ch) else Fixed(c', ch)
      ensures Nodes(ch) + CtxNodes(c') == (Nodes(t) - {old_}) + CtxNodes(c)
    {
      var elm;
      ghost var inner, s;
      elm, parent, child, black, inner, s := TakeSuccessor(old_, c, t);
      SuccessorFits(c, t, inner, s);
      RenamedNodes(c, t, inner, s);
      ch := s.r;
      if parent == old_ {
        parent := elm;
      }
      SubstituteStoreLinks(mem, c, Fork(t.l, old_, t.red, Plug(inner, ch)), elm, root);
      Substitute(old_, elm);
      RenamedColours(c, t.l, old_, elm, t.red, inner, ch);
      PathAt(mem, c, t.l, elm, t.red, inner, ch, root);
      c' := Compose(inner, InRight(t.l, elm, t.red, c));
    }

    /** RB_REMOVE up to the repair of the colours. */
    method Splice(elm: Node) returns (parent: Node?, child: Node?, black: bool, ghost c: Ctx, ghost ch: Shape)
      requires Valid() && elm in mem.Keys
      modifies this`root, this`mem, mem.Keys
      ensures Mirrors() && mem.Keys == old(mem).Keys
      ensures At(mem, c, ch, root) && parent == Above(c) && child == Root(ch)
      ensures if black then Removing(c, ch) else Fixed(c, ch)
      ensures Nodes(ch) + CtxNodes(c) == mem.Keys - {elm}
    {
      ghost var c0, t := Locate(Top, shape, elm);
      PlugAt(mem, c0, t, root);
      assert mem[elm] == Cell(Root(t.l), Root(t.r), Above(c0), t.red);
      RemovedNodes(c0, t);
      if elm.left == null || elm.right == null {
        parent, child, black, ch := SpliceOuter(elm, c0, t);
        UnlinkedNodes(c0, t, ch);
        c := c0;
      } else {
        parent, child, black, c, ch := SpliceInner(elm, c0, t);
      }
    }

    /** RB_REMOVE: takes the element `elm` out of the tree. */
    method Remove(elm: Node) returns (removed: Node)
      requires Valid() && elm in mem.Keys
      modifies this, mem.Keys
      ensures Valid() && removed == elm && mem.Keys == old(mem.Keys) - {elm}
    {
      removed := elm;
      var parent, child, black;
      ghost var c, ch;
      parent, child, black, c, ch := Splice(elm);
      ghost var s := Recolor(parent, child, black, c, ch);
      Drop(elm, s);
    }

    /** The element is no longer part of the tree, whose shape is `s` now. */
    ghost method Drop(elm: Node, s: Shape)
      requires Mirrors() && At(mem, Top, s, root) && RedBlack(s) && Nodes(s) == mem.Keys - {elm}
      modifies this`shape, this`mem
      ensures Valid() && mem.Keys == old(mem.Keys) - {elm}
    {
      Forget(mem, s, root, elm);
      shape := s;
      mem := mem - {elm};
    }

    /** The end of RB_REMOVE: only the loss of a black node needs a repair. */
    method Recolor(parent: Node?, child: Node?, black: bool, ghost c: Ctx, ghost ch: Shape) returns (ghost s: Shape)
      requires Mirrors() && At(mem, c, ch, root) && parent == Above(c) && child == Root(ch)
      requires if black then Removing(c, ch) else Fixed(c, ch)
      modifies this`root, this`mem, mem.Keys
      ensures Mirrors() && mem.Keys == old(mem).Keys
      ensures At(mem, Top, s, root) && RedBlack(s) && Nodes(s) == Nodes(ch) + CtxNodes(c)
    {
      if black {
        s := RemoveColor(parent, child, c, ch);
      } else {
        Whole(mem, c, ch, root);
        s := Plug(c, ch);
      }
    }

    /** RB_NEXT: the element that follows `elm` in key order. */
    method Next(elm: Node) returns (next: Node?)
      requires Valid() && elm in mem.Keys
      ensures Follows(mem.Keys, elm, next)
    {
      ghost var c, t := Locate(Top, shape, elm);
      PlugAt(mem, c, t, root);
      PlugNodes(c, t);
      assert mem[elm] == Cell(Root(t.l), Root(t.r), Above(c), t.red);
      if elm.right != null {
        ghost var inner, s;
        Up(mem, InRight(t.l, t.n, t.red, c), t.r, root);
        next, inner, s := Leftmost(elm.right, InRight(t.l, t.n, t.red, c), t.r);
        LeftmostFollows(c, t, inner, s);
      } else if elm.parent != null && elm == elm.parent.left {
        AncestorFollows(c, t, elm);
        next := elm.parent;
      } else {
        next := elm;
        while next.parent != null && next == next.parent.right
          invariant next != null && t.Fork? && next == t.n && At(mem, c, t, root) && next in mem &&
            mem[next].parent == Above(c)
          invariant Nodes(t) + CtxNodes(c) == mem.Keys && elm in Nodes(t) &&
            forall x | x in Nodes(t) :: x.key <= elm.key
          decreases Depth(c)
        {
          Separate(UpTree(c, t));
          Up(mem, c, t, root);
          next := next.parent;
          c, t := c.up, UpTree(c, t);
        }
        assert !c.InRight?;
        AncestorFollows(c, t, elm);
        next := next.parent;
      }
    }

    /** RB_MINMAX: the first element for a negative `val`, otherwise the last. */
    method MinMax(val: int) returns (parent: Node?)
      requires Valid()
      ensures parent == null <==> mem.Keys == {}
      ensures parent != null ==> parent in mem.Keys
      ensures parent != null && val < 0 ==> forall n | n in mem.Keys :: parent.key <= n.key
      ensures parent != null && val >= 0 ==> forall n | n in mem.Keys :: n.key <= parent.key
    {
      var tmp := root;
      parent := null;
      ghost var c, t := Top, shape;
      while tmp != null
        invariant tmp == Root(t) && parent == Above(c) && At(mem, c, t, root) && Nodes(t) + CtxNodes(c) == mem.Keys
        invariant val < 0 ==> forall a | a in CtxNodes(c) :: parent != null && parent.key <= a.key
        invariant val >= 0 ==> forall a | a in CtxNodes(c) :: parent != null && a.key <= parent.key
        invariant val < 0 ==> !c.InRight?
        invariant val >= 0 ==> !c.InLeft?
        decreases t
      {
        parent := tmp;
        assert t.n in Nodes(t);
        if val < 0 {
          Up(mem, InLeft(t.n, t.red, t.r, c), t.l, root);
          c, t := InLeft(t.n, t.red, t.r, c), t.l;
          tmp := tmp.left;
        } else {
          Up(mem, InRight(t.l, t.n, t.red, c), t.r, root);
          c, t := InRight(t.l, t.n, t.red, c), t.r;
          tmp := tmp.right;
        }
      }
      assert Nodes(t) + CtxNodes(c) == CtxNodes(c);
    }
  }
}
