/**
  Red-black trees as values: the tree a set of linked nodes spells out, the path from one of its
  subtrees up to the root, and the invariants of WIN32-Code/tree.h stated on both.

  The operations of RbTree move a pointer up and down a linked structure.  A pair
  (context, subtree) says where that pointer stands; every step of the code is a step on the pair.
*/
module RbShape {

  /** One element of the tree: the RB_ENTRY fields plus the key that `compare` looks at. */
  class Node {
    const key: int
    var left: Node?
    var right: Node?
    var parent: Node?
    var red: bool

    constructor (key: int)
      ensures this.key == key
    {
      this.key := key;
      left, right, parent, red := null, null, null, false;
    }
  }

  /** A tree with its colours, independent of the heap. */
  datatype Shape = Leaf | Fork(l: Shape, n: Node, red: bool, r: Shape)

  /** A tree with one subtree missing, read from the hole up to the root. */
  datatype Ctx =
    | Top
    | InLeft(n: Node, red: bool, r: Shape, up: Ctx)
    | InRight(l: Shape, n: Node, red: bool, up: Ctx)

  ghost function Nodes(t: Shape): set<Node> {
    match t
    case Leaf => {}
    case Fork(l, n, _, r) => Nodes(l) + {n} + Nodes(r)
  }

  ghost function CtxNodes(c: Ctx): set<Node> {
    match c
    case Top => {}
    case InLeft(n, _, r, up) => {n} + Nodes(r) + CtxNodes(up)
    case InRight(l, n, _, up) => {n} + Nodes(l) + CtxNodes(up)
  }

  ghost function Root(t: Shape): Node? {
    if t.Leaf? then null else t.n
  }

  /** The node whose child the hole is. */
  ghost function Above(c: Ctx): Node? {
    if c.Top? then null else c.n
  }

  ghost function Plug(c: Ctx, t: Shape): Shape
    decreases c
  {
    match c
    case Top => t
    case InLeft(n, red, r, up) => Plug(up, Fork(t, n, red, r))
    case InRight(l, n, red, up) => Plug(up, Fork(l, n, red, t))
  }

  ghost function Depth(c: Ctx): nat {
    if c.Top? then 0 else 1 + Depth(c.up)
  }

  // ---------- search order ----------

  ghost predicate Bst(t: Shape) {
    t.Fork? ==>
      && Bst(t.l)
      && Bst(t.r)
      && (forall a | a in Nodes(t.l) :: a.key < t.n.key)
      && (forall a | a in Nodes(t.r) :: t.n.key < a.key)
  }

  /** A key that may stand in the hole of `c`. */
  ghost predicate Fits(c: Ctx, k: int) {
    match c
    case Top => true
    case InLeft(n, _, _, up) => k < n.key && Fits(up, k)
    case InRight(_, n, _, up) => n.key < k && Fits(up, k)
  }

  ghost predicate CtxBst(c: Ctx) {
    match c
    case Top => true
    case InLeft(n, _, r, up) =>
      && CtxBst(up) && Bst(r) && Fits(up, n.key)
      && (forall a | a in Nodes(r) :: n.key < a.key && Fits(up, a.key))
    case InRight(l, n, _, up) =>
      && CtxBst(up) && Bst(l) && Fits(up, n.key)
      && (forall a | a in Nodes(l) :: a.key < n.key && Fits(up, a.key))
  }

  /** Search order of the whole tree, seen from one of its subtrees. */
  ghost predicate Ordered(c: Ctx, t: Shape) {
    && CtxBst(c)
    && Bst(t)
    && (forall a | a in Nodes(t) :: Fits(c, a.key))
  }

  // ---------- colours and black height ----------

  ghost predicate IsRed(t: Shape) {
    t.Fork? && t.red
  }

  ghost predicate RedAbove(c: Ctx) {
    !c.Top? && c.red
  }

  /** No red node has a red child. */
  ghost predicate NoRedRed(t: Shape) {
    t.Fork? ==>
      && NoRedRed(t.l)
      && NoRedRed(t.r)
      && (t.red ==> !IsRed(t.l) && !IsRed(t.r))
  }

  /** The black nodes on the leftmost path. */
  ghost function BlackHeight(t: Shape): nat {
    if t.Leaf? then 0 else BlackHeight(t.l) + (if t.red then 0 else 1)
  }

  /** Every path from the root down to a leaf holds the same number of black nodes. */
  ghost predicate Balanced(t: Shape) {
    t.Fork? ==> Balanced(t.l) && Balanced(t.r) && BlackHeight(t.l) == BlackHeight(t.r)
  }

  ghost function Sibling(c: Ctx): Shape
    requires !c.Top?
  {
    if c.InLeft? then c.r else c.l
  }

  ghost predicate CtxNoRedRed(c: Ctx) {
    !c.Top? ==>
      && CtxNoRedRed(c.up)
      && NoRedRed(Sibling(c))
      && (c.red ==> !IsRed(Sibling(c)) && !RedAbove(c.up))
  }

  /** The hole expects a subtree of black height `h`. */
  ghost predicate CtxBalanced(c: Ctx, h: int) {
    !c.Top? ==>
      && Balanced(Sibling(c))
      && BlackHeight(Sibling(c)) == h
      && CtxBalanced(c.up, h + if c.red then 0 else 1)
  }

  /** If the tree is larger than the hole, its root is black. */
  ghost predicate CtxRootBlack(c: Ctx) {
    !c.Top? ==> if c.up.Top? then !c.red else CtxRootBlack(c.up)
  }

  /** The red-black invariants of a whole tree. */
  ghost predicate RedBlack(t: Shape) {
    Bst(t) && NoRedRed(t) && Balanced(t) && !IsRed(t)
  }

  // ---------- the linked structure ----------

  /** The mutable fields of one node. */
  datatype Cell = Cell(left: Node?, right: Node?, parent: Node?, red: bool)

  type Store = map<Node, Cell>

  /** The links below `p` spell out `t`. */
  ghost predicate Linked(m: Store, t: Shape, p: Node?) {
    t.Fork? ==>
      && t.n in m
      && m[t.n] == Cell(Root(t.l), Root(t.r), p, t.red)
      && Linked(m, t.l, t.n)
      && Linked(m, t.r, t.n)
  }

  /** The links from the hole up spell out `c`, with `child` in the hole and `root` in the head. */
  ghost predicate LinkedCtx(m: Store, c: Ctx, child: Node?, root: Node?) {
    match c
    case Top => root == child
    case InLeft(n, red, r, up) =>
      && n in m
      && m[n] == Cell(child, Root(r), Above(up), red)
      && Linked(m, r, n)
      && LinkedCtx(m, up, n, root)
    case InRight(l, n, red, up) =>
      && n in m
      && m[n] == Cell(Root(l), child, Above(up), red)
      && Linked(m, l, n)
      && LinkedCtx(m, up, n, root)
  }

  /** The whole linked tree, seen from the subtree `t` below the context `c`. */
  ghost predicate At(m: Store, c: Ctx, t: Shape, root: Node?) {
    Ordered(c, t) && Linked(m, t, Above(c)) && LinkedCtx(m, c, Root(t), root)
  }

  lemma LinkedFrame(m: Store, m': Store, t: Shape, p: Node?)
    requires Linked(m, t, p)
    requires forall n | n in Nodes(t) && n in m :: n in m' && m'[n] == m[n]
    ensures Linked(m', t, p)
  {
  }

  lemma {:induction false} LinkedCtxFrame(m: Store, m': Store, c: Ctx, child: Node?, root: Node?)
    requires LinkedCtx(m, c, child, root)
    requires forall n | n in CtxNodes(c) && n in m :: n in m' && m'[n] == m[n]
    ensures LinkedCtx(m', c, child, root)
  {
    if !c.Top? {
      LinkedFrame(m, m', Sibling(c), c.n);
      LinkedCtxFrame(m, m', c.up, c.n, root);
    }
  }

  // ---------- moving the hole ----------

  /** The context and subtree one step up. */
  ghost function UpTree(c: Ctx, t: Shape): (u: Shape)
    requires !c.Top?
    ensures u.Fork?
  {
    if c.InLeft? then Fork(t, c.n, c.red, c.r) else Fork(c.l, c.n, c.red, t)
  }

  lemma {:induction false} UpOrdered(c: Ctx, t: Shape)
    requires !c.Top?
    ensures Ordered(c, t) <==> Ordered(c.up, UpTree(c, t))
  {
    var u := UpTree(c, t);
    if Ordered(c, t) {
      forall a | a in Nodes(u) ensures Fits(c.up, a.key) {}
    }
    if Ordered(c.up, u) {
      assert c.n in Nodes(u);
      assert forall a | a in Nodes(t) :: a in Nodes(u);
      assert forall a | a in Nodes(Sibling(c)) :: a in Nodes(u);
    }
  }

  lemma {:induction false} UpNodes(c: Ctx, t: Shape)
    requires !c.Top?
    ensures Nodes(t) + CtxNodes(c) == Nodes(UpTree(c, t)) + CtxNodes(c.up)
  {
  }

  lemma {:induction false} Up(m: Store, c: Ctx, t: Shape, root: Node?)
    requires !c.Top?
    ensures At(m, c, t, root) <==> At(m, c.up, UpTree(c, t), root)
    ensures Ordered(c, t) <==> Ordered(c.up, UpTree(c, t))
    ensures Nodes(t) + CtxNodes(c) == Nodes(UpTree(c, t)) + CtxNodes(c.up)
  {
    UpOrdered(c, t);
    UpNodes(c, t);
    assert (Linked(m, t, Above(c)) && LinkedCtx(m, c, Root(t), root)) <==>
           (Linked(m, UpTree(c, t), Above(c.up)) && LinkedCtx(m, c.up, Root(UpTree(c, t)), root));
  }

  /** Nothing in the context can be a node that fits the hole. */
  lemma {:induction false} Apart(c: Ctx, k: int)
    requires CtxBst(c) && Fits(c, k)
    ensures forall a | a in CtxNodes(c) :: a.key != k
  {
    if !c.Top? {
      Apart(c.up, k);
    }
  }

  lemma {:induction false} Disjoint(c: Ctx, t: Shape)
    requires Ordered(c, t)
    ensures Nodes(t) !! CtxNodes(c)
  {
    forall a | a in Nodes(t) ensures a !in CtxNodes(c) {
      Apart(c, a.key);
    }
  }

  /** A node of a search tree lies in one place only. */
  lemma {:induction false} Separate(t: Shape)
    requires Bst(t) && t.Fork?
    ensures t.n !in Nodes(t.l) && t.n !in Nodes(t.r) && Nodes(t.l) !! Nodes(t.r)
    ensures Nodes(t.l) <= Nodes(t) && Nodes(t.r) <= Nodes(t) && t.n in Nodes(t)
    ensures t.l.Fork? ==> t.l.n in Nodes(t.l)
    ensures t.r.Fork? ==> t.r.n in Nodes(t.r)
  {
  }

  lemma {:induction false} PlugNodes(c: Ctx, t: Shape)
    ensures Nodes(Plug(c, t)) == Nodes(t) + CtxNodes(c)
    decreases c
  {
    if !c.Top? {
      PlugNodes(c.up, UpTree(c, t));
    }
  }

  lemma {:induction false} PlugAt(m: Store, c: Ctx, t: Shape, root: Node?)
    ensures At(m, c, t, root) <==> At(m, Top, Plug(c, t), root)
    decreases c
  {
    if !c.Top? {
      Up(m, c, t, root);
      PlugAt(m, c.up, UpTree(c, t), root);
    }
  }

  // ---------- rotations ----------

  ghost function RotatedLeft(t: Shape): Shape
    requires t.Fork? && t.r.Fork?
  {
    Fork(Fork(t.l, t.n, t.red, t.r.l), t.r.n, t.r.red, t.r.r)
  }

  ghost function RotatedRight(t: Shape): Shape
    requires t.Fork? && t.l.Fork?
  {
    Fork(t.l.l, t.l.n, t.l.red, Fork(t.l.r, t.n, t.red, t.r))
  }

  lemma {:induction false} RotatedLeftOrdered(c: Ctx, t: Shape)
    requires t.Fork? && t.r.Fork? && Ordered(c, t)
    ensures Ordered(c, RotatedLeft(t)) && Nodes(RotatedLeft(t)) == Nodes(t)
  {
    assert Nodes(RotatedLeft(t)) == Nodes(t);
    assert Bst(t.r) && t.r.n in Nodes(t.r);
    assert forall a | a in Nodes(t.r.l) :: a in Nodes(t.r);
  }

  lemma {:induction false} RotatedRightOrdered(c: Ctx, t: Shape)
    requires t.Fork? && t.l.Fork? && Ordered(c, t)
    ensures Ordered(c, RotatedRight(t)) && Nodes(RotatedRight(t)) == Nodes(t)
  {
    assert Nodes(RotatedRight(t)) == Nodes(t);
    assert Bst(t.l) && t.l.n in Nodes(t.l);
    assert forall a | a in Nodes(t.l.r) :: a in Nodes(t.l);
  }

  /** The hole's owner with `child` in the hole. */
  ghost function Holding(c: Ctx, child: Node?): Cell
    requires !c.Top?
  {
    if c.InLeft? then Cell(child, Root(c.r), Above(c.up), c.red) else Cell(Root(c.l), child, Above(c.up), c.red)
  }

  /** A context whose hole receives another child. */
  lemma {:induction false} NewChild(m: Store, m': Store, c: Ctx, child: Node?, child': Node?, root: Node?, root': Node?)
    requires CtxBst(c) && LinkedCtx(m, c, child, root)
    requires c.Top? ==> root' == child'
    requires !c.Top? ==> root' == root && c.n in m' && m'[c.n] == Holding(c, child')
    requires forall n | n in CtxNodes(c) && n in m && n != Above(c) :: n in m' && m'[n] == m[n]
    ensures LinkedCtx(m', c, child', root')
  {
    if !c.Top? {
      Apart(c.up, c.n.key);
      LinkedFrame(m, m', Sibling(c), c.n);
      LinkedCtxFrame(m, m', c.up, c.n, root);
    }
  }

  /** A subtree that receives another parent. */
  lemma {:induction false} NewParent(m: Store, m': Store, t: Shape, p: Node?, p': Node?)
    requires Bst(t) && Linked(m, t, p)
    requires t.Fork? ==> t.n in m' && m'[t.n] == m[t.n].(parent := p')
    requires forall n | n in Nodes(t) && n in m && n != Root(t) :: n in m' && m'[n] == m[n]
    ensures Linked(m', t, p')
  {
    if t.Fork? {
      LinkedFrame(m, m', t.l, t.n);
      LinkedFrame(m, m', t.r, t.n);
    }
  }

  /** What pointing the way to `elm` at `other` leaves in the store. */
  ghost function Redirected(m: Store, elm: Node, other: Node?): Store
    requires elm in m && (m[elm].parent != null ==> m[elm].parent in m)
  {
    var p := m[elm].parent;
    if p == null then m
    else m[p := if m[p].left == elm then m[p].(left := other) else m[p].(right := other)]
  }

  /** `tmp` takes the place of `elm` below the parent of `elm`. */
  ghost function Lifted(m: Store, elm: Node, tmp: Node): Store
    requires elm in m && tmp in m && (m[elm].parent != null ==> m[elm].parent in m)
  {
    Redirected(m[tmp := m[tmp].(parent := m[elm].parent)], elm, tmp)
  }

  /** `elm` adopts the inner child `b` of its right child. */
  ghost function InnerLeft(m: Store, elm: Node, b: Node?): Store
    requires elm in m && (b != null ==> b in m)
  {
    var m1 := m[elm := m[elm].(right := b)];
    if b == null then m1 else m1[b := m1[b].(parent := elm)]
  }

  /** The store after the assignments of RB_ROTATE_LEFT at `elm`. */
  ghost function SpunLeft(m: Store, elm: Node): Store
    requires CanSpinLeft(m, elm)
  {
    var tmp := m[elm].right;
    var m4 := Lifted(InnerLeft(m, elm, m[tmp].left), elm, tmp);
    var m5 := m4[tmp := m4[tmp].(left := elm)];
    m5[elm := m5[elm].(parent := tmp)]
  }

  ghost predicate CanSpinLeft(m: Store, elm: Node) {
    && elm in m && (m[elm].parent != null ==> m[elm].parent in m)
    && m[elm].right != null && m[elm].right in m && m[elm].right != elm
    && var b := m[m[elm].right].left; b != null ==> b in m && b != elm && b != m[elm].right
  }

  /** `elm` adopts the inner child `b` of its left child. */
  ghost function InnerRight(m: Store, elm: Node, b: Node?): Store
    requires elm in m && (b != null ==> b in m)
  {
    var m1 := m[elm := m[elm].(left := b)];
    if b == null then m1 else m1[b := m1[b].(parent := elm)]
  }

  /** The store after the assignments of RB_ROTATE_RIGHT at `elm`. */
  ghost function SpunRight(m: Store, elm: Node): Store
    requires CanSpinRight(m, elm)
  {
    var tmp := m[elm].left;
    var m4 := Lifted(InnerRight(m, elm, m[tmp].right), elm, tmp);
    var m5 := m4[tmp := m4[tmp].(right := elm)];
    m5[elm := m5[elm].(parent := tmp)]
  }

  ghost predicate CanSpinRight(m: Store, elm: Node) {
    && elm in m && (m[elm].parent != null ==> m[elm].parent in m)
    && m[elm].left != null && m[elm].left in m && m[elm].left != elm
    && var b := m[m[elm].left].right; b != null ==> b in m && b != elm && b != m[elm].left
  }

  /** The links below the rotated subtree. */
  lemma {:induction false} RelinkedLeftBelow(m: Store, m': Store, t: Shape, p: Node?, p': Node?)
    requires t.Fork? && t.r.Fork? && Bst(t) && Linked(m, t, p)
    requires t.n in m' && m'[t.n] == Cell(Root(t.l), Root(t.r.l), t.r.n, t.red)
    requires t.r.n in m' && m'[t.r.n] == Cell(t.n, Root(t.r.r), p', t.r.red)
    requires t.r.l.Fork? ==> t.r.l.n in m && t.r.l.n in m' && m'[t.r.l.n] == m[t.r.l.n].(parent := t.n)
    requires forall n | n in Nodes(t) && n in m && n !in {t.n, t.r.n} && n != Root(t.r.l) :: n in m' && m'[n] == m[n]
    ensures Linked(m', RotatedLeft(t), p')
  {
    Separate(t);
    Separate(t.r);
    LinkedFrame(m, m', t.l, t.n);
    NewParent(m, m', t.r.l, t.r.n, t.n);
    LinkedFrame(m, m', t.r.r, t.r.n);
  }

  lemma {:induction false} RelinkedLeft(m: Store, m': Store, c: Ctx, t: Shape, root: Node?, root': Node?)
    requires t.Fork? && t.r.Fork? && At(m, c, t, root)
    requires t.n in m' && m'[t.n] == Cell(Root(t.l), Root(t.r.l), t.r.n, t.red)
    requires t.r.n in m' && m'[t.r.n] == Cell(t.n, Root(t.r.r), Above(c), t.r.red)
    requires t.r.l.Fork? ==> t.r.l.n in m && t.r.l.n in m' && m'[t.r.l.n] == m[t.r.l.n].(parent := t.n)
    requires c.Top? ==> root' == t.r.n
    requires !c.Top? ==> root' == root && c.n in m' && m'[c.n] == Holding(c, t.r.n)
    requires forall n | n in m && n !in {t.n, t.r.n} && n != Root(t.r.l) && n != Above(c) :: n in m' && m'[n] == m[n]
    ensures At(m', c, RotatedLeft(t), root')
  {
    Disjoint(c, t);
    RotatedLeftOrdered(c, t);
    assert t.r.l.Fork? ==> t.r.l.n in Nodes(t.r.l);
    assert t.r.n in Nodes(t.r) && Nodes(t.r.l) <= Nodes(t.r) <= Nodes(t);
    NewChild(m, m', c, t.n, t.r.n, root, root');
    RelinkedLeftBelow(m, m', t, Above(c), Above(c));
  }

  /** The links below the rotated subtree. */
  lemma {:induction false} RelinkedRightBelow(m: Store, m': Store, t: Shape, p: Node?, p': Node?)
    requires t.Fork? && t.l.Fork? && Bst(t) && Linked(m, t, p)
    requires t.n in m' && m'[t.n] == Cell(Root(t.l.r), Root(t.r), t.l.n, t.red)
    requires t.l.n in m' && m'[t.l.n] == Cell(Root(t.l.l), t.n, p', t.l.red)
    requires t.l.r.Fork? ==> t.l.r.n in m && t.l.r.n in m' && m'[t.l.r.n] == m[t.l.r.n].(parent := t.n)
    requires forall n | n in Nodes(t) && n in m && n !in {t.n, t.l.n} && n != Root(t.l.r) :: n in m' && m'[n] == m[n]
    ensures Linked(m', RotatedRight(t), p')
  {
    Separate(t);
    Separate(t.l);
    LinkedFrame(m, m', t.r, t.n);
    NewParent(m, m', t.l.r, t.l.n, t.n);
    LinkedFrame(m, m', t.l.l, t.l.n);
  }

  lemma {:induction false} RelinkedRight(m: Store, m': Store, c: Ctx, t: Shape, root: Node?, root': Node?)
    requires t.Fork? && t.l.Fork? && At(m, c, t, root)
    requires t.n in m' && m'[t.n] == Cell(Root(t.l.r), Root(t.r), t.l.n, t.red)
    requires t.l.n in m' && m'[t.l.n] == Cell(Root(t.l.l), t.n, Above(c), t.l.red)
    requires t.l.r.Fork? ==> t.l.r.n in m && t.l.r.n in m' && m'[t.l.r.n] == m[t.l.r.n].(parent := t.n)
    requires c.Top? ==> root' == t.l.n
    requires !c.Top? ==> root' == root && c.n in m' && m'[c.n] == Holding(c, t.l.n)
    requires forall n | n in m && n !in {t.n, t.l.n} && n != Root(t.l.r) && n != Above(c) :: n in m' && m'[n] == m[n]
    ensures At(m', c, RotatedRight(t), root')
  {
    Disjoint(c, t);
    RotatedRightOrdered(c, t);
    assert t.l.r.Fork? ==> t.l.r.n in Nodes(t.l.r);
    assert t.l.n in Nodes(t.l) && Nodes(t.l.r) <= Nodes(t.l) <= Nodes(t);
    NewChild(m, m', c, t.n, t.l.n, root, root');
    RelinkedRightBelow(m, m', t, Above(c), Above(c));
  }

  /** The owner of the hole, told of another child. */
  lemma {:induction false} Held(m: Store, c: Ctx, child: Node, child': Node, root: Node?)
    requires CtxBst(c) && LinkedCtx(m, c, child, root) && Fits(c, child.key)
    ensures !c.Top? ==> c.n in m
    ensures !c.Top? ==>
      Holding(c, child') == if m[c.n].left == child then m[c.n].(left := child') else m[c.n].(right := child')
  {
    if c.InRight? && c.l.Fork? {
      assert c.l.n in Nodes(c.l);
    }
  }

  /** The fields after the assignments of RB_ROTATE_LEFT, node by node. */
  lemma {:induction false} SpunLeftCells(m: Store, elm: Node)
    requires CanSpinLeft(m, elm)
    requires var tmp, p := m[elm].right, m[elm].parent;
      p != null ==> p != elm && p != tmp && p != m[tmp].left
    ensures var m', tmp, p := SpunLeft(m, elm), m[elm].right, m[elm].parent;
      var b := m[tmp].left;
      && m'.Keys == m.Keys
      && m'[elm] == Cell(m[elm].left, b, tmp, m[elm].red) && m'[tmp] == Cell(elm, m[tmp].right, p, m[tmp].red)
      && (b != null ==> m'[b] == m[b].(parent := elm))
      && (p != null ==> m'[p] == if m[p].left == elm then m[p].(left := tmp) else m[p].(right := tmp))
      && forall n | n in m && n != elm && n != tmp && n != b && n != p :: m'[n] == m[n]
  {
  }

  lemma {:induction false} SpunLeftLinks(m: Store, c: Ctx, t: Shape, root: Node?)
    requires t.Fork? && t.r.Fork? && At(m, c, t, root)
    ensures CanSpinLeft(m, t.n)
    ensures At(SpunLeft(m, t.n), c, RotatedLeft(t), if c.Top? then t.r.n else root)
  {
    Disjoint(c, t);
    Separate(t);
    Separate(t.r);
    assert Linked(m, t.r, t.n) && Linked(m, t.r.l, t.r.n);
    SpunLeftCells(m, t.n);
    Held(m, c, t.n, t.r.n, root);
    RelinkedLeft(m, SpunLeft(m, t.n), c, t, root, if c.Top? then t.r.n else root);
  }

  /** The fields after the assignments of RB_ROTATE_RIGHT, node by node. */
  lemma {:induction false} SpunRightCells(m: Store, elm: Node)
    requires CanSpinRight(m, elm)
    requires var tmp, p := m[elm].left, m[elm].parent;
      p != null ==> p != elm && p != tmp && p != m[tmp].right
    ensures var m', tmp, p := SpunRight(m, elm), m[elm].left, m[elm].parent;
      var b := m[tmp].right;
      && m'.Keys == m.Keys
      && m'[elm] == Cell(b, m[elm].right, tmp, m[elm].red) && m'[tmp] == Cell(m[tmp].left, elm, p, m[tmp].red)
      && (b != null ==> m'[b] == m[b].(parent := elm))
      && (p != null ==> m'[p] == if m[p].left == elm then m[p].(left := tmp) else m[p].(right := tmp))
      && forall n | n in m && n != elm && n != tmp && n != b && n != p :: m'[n] == m[n]
  {
  }

  lemma {:induction false} SpunRightLinks(m: Store, c: Ctx, t: Shape, root: Node?)
    requires t.Fork? && t.l.Fork? && At(m, c, t, root)
    ensures CanSpinRight(m, t.n)
    ensures At(SpunRight(m, t.n), c, RotatedRight(t), if c.Top? then t.l.n else root)
  {
    Disjoint(c, t);
    Separate(t);
    Separate(t.l);
    assert Linked(m, t.l, t.n) && Linked(m, t.l.r, t.l.n);
    SpunRightCells(m, t.n);
    Held(m, c, t.n, t.l.n, root);
    RelinkedRight(m, SpunRight(m, t.n), c, t, root, if c.Top? then t.l.n else root);
  }

  // ---------- painting ----------

  lemma {:induction false} Painted(m: Store, c: Ctx, t: Shape, root: Node?, red: bool)
    requires t.Fork? && At(m, c, t, root)
    ensures t.n in m
    ensures At(m[t.n := m[t.n].(red := red)], c, t.(red := red), root)
    ensures Nodes(t.(red := red)) == Nodes(t)
  {
    var m' := m[t.n := m[t.n].(red := red)];
    Disjoint(c, t);
    Separate(t);
    LinkedFrame(m, m', t.l, t.n);
    LinkedFrame(m, m', t.r, t.n);
    LinkedCtxFrame(m, m', c, t.n, root);
  }

  lemma {:induction false} PaintedLeft(m: Store, c: Ctx, t: Shape, root: Node?, red: bool)
    requires t.Fork? && t.l.Fork? && At(m, c, t, root)
    ensures t.l.n in m
    ensures At(m[t.l.n := m[t.l.n].(red := red)], c, t.(l := t.l.(red := red)), root)
  {
    var below := InLeft(t.n, t.red, t.r, c);
    Up(m, below, t.l, root);
    Painted(m, below, t.l, root, red);
    Up(m[t.l.n := m[t.l.n].(red := red)], below, t.l.(red := red), root);
  }

  lemma {:induction false} PaintedRight(m: Store, c: Ctx, t: Shape, root: Node?, red: bool)
    requires t.Fork? && t.r.Fork? && At(m, c, t, root)
    ensures t.r.n in m
    ensures At(m[t.r.n := m[t.r.n].(red := red)], c, t.(r := t.r.(red := red)), root)
  {
    var below := InRight(t.l, t.n, t.red, c);
    Up(m, below, t.r, root);
    Painted(m, below, t.r, root, red);
    Up(m[t.r.n := m[t.r.n].(red := red)], below, t.r.(red := red), root);
  }

  // ---------- insertion ----------

  /** The invariant of RB_INSERT_COLOR: the tree is red-black but for a red `t` under a red parent. */
  ghost predicate Inserting(c: Ctx, t: Shape) {
    && IsRed(t) && NoRedRed(t) && Balanced(t)
    && CtxNoRedRed(c) && CtxBalanced(c, BlackHeight(t)) && CtxRootBlack(c)
  }

  /** A red uncle: parent and uncle turn black, the grandparent turns red and is the next to check. */
  ghost function RedUncle(c: Ctx, t: Shape): Shape
    requires !c.Top? && !c.up.Top? && Sibling(c.up).Fork?
  {
    var p := UpTree(c, t);
    var p := p.(red := false);
    var u := Sibling(c.up).(red := false);
    if c.up.InLeft? then Fork(p, c.up.n, true, u) else Fork(u, c.up.n, true, p)
  }

  lemma {:induction false} GrandparentExists(c: Ctx, t: Shape)
    requires Inserting(c, t) && RedAbove(c)
    ensures !c.up.Top? && !c.up.red
  {
  }

  lemma {:induction false} RedUncleNodes(c: Ctx, t: Shape)
    requires !c.Top? && !c.up.Top? && Sibling(c.up).Fork?
    ensures Nodes(RedUncle(c, t)) == Nodes(UpTree(c.up, UpTree(c, t)))
    ensures Nodes(RedUncle(c, t)) + CtxNodes(c.up.up) == Nodes(t) + CtxNodes(c)
  {
    UpNodes(c, t);
    UpNodes(c.up, UpTree(c, t));
  }

  lemma {:induction false} RedUncleInserts(c: Ctx, t: Shape)
    requires Inserting(c, t) && RedAbove(c) && !c.up.Top? && IsRed(Sibling(c.up))
    ensures Inserting(c.up.up, RedUncle(c, t))
  {
    assert CtxNoRedRed(c.up) && CtxBalanced(c.up, BlackHeight(t)) && CtxRootBlack(c.up);
    assert CtxRootBlack(c.up.up);
  }

  /** A red `x` that is the only red child of a red node whose other child is `y`. */
  ghost predicate RedPair(x: Shape, y: Shape, h: nat) {
    && IsRed(x) && NoRedRed(x) && Balanced(x) && BlackHeight(x) == h
    && !IsRed(y) && NoRedRed(y) && Balanced(y) && BlackHeight(y) == h
  }

  lemma {:induction false} StraightPair(c: Ctx, t: Shape)
    requires Inserting(c, t) && RedAbove(c)
    ensures RedPair(t, Sibling(c), BlackHeight(t))
    ensures c.InRight? ==> RedPair(RotatedLeft(UpTree(c, t)).l, RotatedLeft(UpTree(c, t)).r, BlackHeight(t))
    ensures c.InLeft? ==> RedPair(RotatedRight(UpTree(c, t)).r, RotatedRight(UpTree(c, t)).l, BlackHeight(t))
  {
  }

  /**
    A black uncle: after the rotation at the grandparent the parent is black and the loop ends.
    `x` is the lower red node, `y` the other subtree of its parent.
  */
  lemma {:induction false} BlackUncleInserts(c: Ctx, t: Shape, x: Shape, y: Shape, next: Ctx)
    requires Inserting(c, t) && RedAbove(c) && !c.up.Top? && !IsRed(Sibling(c.up))
    requires RedPair(x, y, BlackHeight(t))
    requires !next.Top? && !next.red && next.up == c.up.up
    requires Sibling(next) == Fork(y, c.up.n, true, Sibling(c.up)) ||
      Sibling(next) == Fork(Sibling(c.up), c.up.n, true, y)
    ensures Inserting(next, x) && Depth(next) < Depth(c)
  {
    var u := Sibling(c.up);
    assert CtxNoRedRed(c.up) && CtxBalanced(c.up, BlackHeight(t)) && CtxRootBlack(c.up);
    assert NoRedRed(u) && Balanced(u) && BlackHeight(u) == BlackHeight(t);
    assert CtxRootBlack(c.up.up) && CtxNoRedRed(c.up.up) && CtxBalanced(c.up.up, BlackHeight(t) + 1);
    assert NoRedRed(Sibling(next)) && Balanced(Sibling(next)) && BlackHeight(Sibling(next)) == BlackHeight(t);
  }

  lemma {:induction false} LiftedNodes(c: Ctx, t: Shape, p: Shape, x: Shape, y: Shape, next: Ctx)
    requires !c.Top? && !c.up.Top? && p.Fork? && Nodes(p) == Nodes(UpTree(c, t))
    requires (x == p.l && y == p.r) || (x == p.r && y == p.l)
    requires !next.Top? && next.n == p.n && next.up == c.up.up
    requires Sibling(next) == Fork(y, c.up.n, true, Sibling(c.up)) ||
      Sibling(next) == Fork(Sibling(c.up), c.up.n, true, y)
    ensures Nodes(x) + CtxNodes(next) == Nodes(t) + CtxNodes(c)
  {
    UpNodes(c, t);
    assert CtxNodes(c.up) == {c.up.n} + Nodes(Sibling(c.up)) + CtxNodes(c.up.up);
    assert CtxNodes(next) == {p.n} + Nodes(Sibling(next)) + CtxNodes(c.up.up);
    assert Nodes(Sibling(next)) == Nodes(y) + {c.up.n} + Nodes(Sibling(c.up));
    assert Nodes(p) == Nodes(x) + {p.n} + Nodes(y);
    Regroup(Nodes(x), {p.n}, Nodes(y), {c.up.n}, Nodes(Sibling(c.up)), CtxNodes(c.up.up));
  }

  lemma {:induction false} Regroup(x: set<Node>, p: set<Node>, y: set<Node>, g: set<Node>, u: set<Node>, up: set<Node>)
    ensures (x + p + y) + (g + u + up) == x + (p + (y + g + u) + up)
  {
  }

  /** The end of the loop: with no red parent above, the whole tree is red-black once its root is black. */
  lemma {:induction false} InsertedWhole(c: Ctx, t: Shape)
    requires NoRedRed(t) && Balanced(t) && CtxNoRedRed(c) && CtxBalanced(c, BlackHeight(t)) && CtxRootBlack(c)
    requires IsRed(t) ==> !RedAbove(c)
    ensures var s := Plug(c, t);
      && NoRedRed(s) && Balanced(s)
      && (!c.Top? ==> !IsRed(s))
      && (t.Fork? ==> s.Fork?)
    decreases c
  {
    if !c.Top? {
      InsertedWhole(c.up, UpTree(c, t));
    }
  }

  /** What the red-black invariants of the whole tree say about a subtree and its context. */
  lemma {:induction false} SplitRedBlack(c: Ctx, t: Shape)
    requires var s := Plug(c, t); NoRedRed(s) && Balanced(s) && !IsRed(s)
    ensures NoRedRed(t) && Balanced(t) && CtxNoRedRed(c) && CtxBalanced(c, BlackHeight(t)) && CtxRootBlack(c)
    ensures IsRed(t) ==> !c.Top? && !RedAbove(c)
    decreases c
  {
    if !c.Top? {
      SplitRedBlack(c.up, UpTree(c, t));
    }
  }

  lemma {:induction false} FreshLeaf(c: Ctx, elm: Node)
    requires RedBlack(Plug(c, Leaf))
    ensures Inserting(c, Fork(Leaf, elm, true, Leaf))
    ensures Nodes(Fork(Leaf, elm, true, Leaf)) + CtxNodes(c) == Nodes(Plug(c, Leaf)) + {elm}
  {
    SplitRedBlack(c, Leaf);
    PlugNodes(c, Leaf);
    assert Nodes(Fork(Leaf, elm, true, Leaf)) == {elm};
  }

  /** A new red leaf in the hole. */
  lemma {:induction false} Attached(m: Store, m': Store, c: Ctx, elm: Node, root: Node?, root': Node?)
    requires At(m, c, Leaf, root) && Fits(c, elm.key) && elm !in m
    requires elm in m' && m'[elm] == Cell(null, null, Above(c), true)
    requires c.Top? ==> root' == elm
    requires !c.Top? ==> root' == root && c.n in m' && m'[c.n] == Holding(c, elm)
    requires forall n | n in m && n != Above(c) :: n in m' && m'[n] == m[n]
    ensures At(m', c, Fork(Leaf, elm, true, Leaf), root')
  {
    NewChild(m, m', c, null, elm, root, root');
    assert Nodes(Fork(Leaf, elm, true, Leaf)) == {elm};
  }

  // ---------- removal ----------

  ghost function Black(t: Shape): Shape {
    if t.Leaf? then Leaf else Fork(t.l, t.n, false, t.r)
  }

  /** The invariant of RB_REMOVE_COLOR: the subtree `t` is one black node short. */
  ghost predicate Removing(c: Ctx, t: Shape) {
    && NoRedRed(Black(t)) && Balanced(t)
    && CtxNoRedRed(c) && CtxBalanced(c, BlackHeight(t) + 1) && CtxRootBlack(c)
  }

  /** Falls with every turn of RB_REMOVE_COLOR; a red subtree ends the loop. */
  ghost function Measure(c: Ctx, t: Shape): nat {
    2 * Depth(c) + if IsRed(t) then 0 else 1
  }

  /** The sibling of a subtree that is one black node short is a real node. */
  lemma {:induction false} SiblingExists(c: Ctx, t: Shape)
    requires Removing(c, t) && !c.Top?
    ensures Sibling(c).Fork? && NoRedRed(Sibling(c)) && Balanced(Sibling(c))
    ensures BlackHeight(Sibling(c)) == BlackHeight(t) + 1
    ensures IsRed(Sibling(c)) ==> !c.red && Sibling(c).l.Fork? && Sibling(c).r.Fork?
  {
  }

  /** The context below a red sibling once it has been rotated above the parent. */
  ghost function BelowRedSibling(c: Ctx): Ctx
    requires !c.Top? && Sibling(c).Fork?
  {
    var w := Sibling(c);
    if c.InLeft? then InLeft(c.n, true, w.l, InLeft(w.n, false, w.r, c.up))
    else InRight(w.r, c.n, true, InRight(w.l, w.n, false, c.up))
  }

  lemma {:induction false} RedSiblingRemoves(c: Ctx, t: Shape)
    requires Removing(c, t) && !IsRed(t) && !c.Top? && IsRed(Sibling(c))
    ensures Removing(BelowRedSibling(c), t) && !IsRed(Sibling(BelowRedSibling(c)))
  {
    SiblingExists(c, t);
  }

  /** Two black nephews: the sibling turns red and the parent's subtree is one black node short. */
  lemma {:induction false} BlackNephewsRemove(c: Ctx, t: Shape, c': Ctx)
    requires Removing(c, t) && !IsRed(t) && !c.Top?
    requires var w := Sibling(c); w.Fork? && !w.red && !IsRed(w.l) && !IsRed(w.r)
    requires c' ==
      if c.InLeft? then c.(r := Fork(c.r.l, c.r.n, true, c.r.r))
      else c.(l := Fork(c.l.l, c.l.n, true, c.l.r))
    ensures Removing(c.up, UpTree(c', t))
  {
    SiblingExists(c, t);
  }

  /** A red near nephew is rotated above the sibling. */
  ghost function NearNephewUp(c: Ctx): Ctx
    requires !c.Top? && Sibling(c).Fork?
    requires c.InLeft? ==> Sibling(c).l.Fork?
    requires c.InRight? ==> Sibling(c).r.Fork?
  {
    var w := Sibling(c);
    if c.InLeft? then c.(r := Fork(w.l.l, w.l.n, false, Fork(w.l.r, w.n, true, w.r)))
    else c.(l := Fork(Fork(w.l, w.n, true, w.r.l), w.r.n, false, w.r.r))
  }

  lemma {:induction false} NearNephewRemoves(c: Ctx, t: Shape)
    requires Removing(c, t) && !IsRed(t) && !c.Top? && Sibling(c).Fork? && !Sibling(c).red
    requires c.InLeft? ==> IsRed(Sibling(c).l) && !IsRed(Sibling(c).r)
    requires c.InRight? ==> IsRed(Sibling(c).r) && !IsRed(Sibling(c).l)
    ensures Removing(NearNephewUp(c), t)
    ensures c.InLeft? ==> IsRed(NearNephewUp(c).r.r)
    ensures c.InRight? ==> IsRed(NearNephewUp(c).l.l)
  {
    SiblingExists(c, t);
  }

  /** Nothing is left to repair. */
  ghost predicate Fixed(c: Ctx, t: Shape) {
    && NoRedRed(t) && Balanced(t) && CtxNoRedRed(c) && CtxBalanced(c, BlackHeight(t)) && CtxRootBlack(c)
    && (IsRed(t) ==> !c.Top? && !RedAbove(c))
  }

  /** A red far nephew: one rotation at the parent gives the missing black node back. */
  ghost function FarNephewUp(c: Ctx, t: Shape): Shape
    requires !c.Top? && Sibling(c).Fork?
  {
    var w := Sibling(c);
    if c.InLeft? then Fork(Fork(t, c.n, false, w.l), w.n, c.red, Black(w.r))
    else Fork(Black(w.l), w.n, c.red, Fork(w.r, c.n, false, t))
  }

  lemma {:induction false} FarNephewDone(c: Ctx, t: Shape)
    requires Removing(c, t) && !IsRed(t) && !c.Top? && Sibling(c).Fork? && !Sibling(c).red
    requires c.InLeft? ==> IsRed(Sibling(c).r)
    requires c.InRight? ==> IsRed(Sibling(c).l)
    ensures Fixed(c.up, FarNephewUp(c, t))
  {
    SiblingExists(c, t);
  }

  lemma {:induction false} RemovalNodes(c: Ctx, t: Shape)
    requires !c.Top? && Sibling(c).Fork?
    ensures CtxNodes(BelowRedSibling(c)) == CtxNodes(c)
    ensures Nodes(FarNephewUp(c, t)) + CtxNodes(c.up) == Nodes(t) + CtxNodes(c)
  {
    var w := Sibling(c);
    assert Nodes(w) == Nodes(w.l) + {w.n} + Nodes(w.r);
    assert CtxNodes(c) == {c.n} + Nodes(w) + CtxNodes(c.up);
    assert Nodes(Black(w.r)) == Nodes(w.r) && Nodes(Black(w.l)) == Nodes(w.l);
    if c.InLeft? {
      assert Nodes(FarNephewUp(c, t)) == (Nodes(t) + {c.n} + Nodes(w.l)) + {w.n} + Nodes(w.r);
      assert CtxNodes(BelowRedSibling(c)) == {c.n} + Nodes(w.l) + ({w.n} + Nodes(w.r) + CtxNodes(c.up));
    } else {
      assert Nodes(FarNephewUp(c, t)) == Nodes(w.l) + {w.n} + (Nodes(w.r) + {c.n} + Nodes(t));
      assert CtxNodes(BelowRedSibling(c)) == {c.n} + Nodes(w.r) + ({w.n} + Nodes(w.l) + CtxNodes(c.up));
    }
  }

  lemma {:induction false} NearNephewNodes(c: Ctx)
    requires !c.Top? && Sibling(c).Fork?
    requires c.InLeft? ==> Sibling(c).l.Fork?
    requires c.InRight? ==> Sibling(c).r.Fork?
    ensures CtxNodes(NearNephewUp(c)) == CtxNodes(c)
  {
    var w := Sibling(c);
    if c.InLeft? {
      assert Nodes(NearNephewUp(c).r) == Nodes(w.l.l) + {w.l.n} + (Nodes(w.l.r) + {w.n} + Nodes(w.r));
      assert Nodes(w) == (Nodes(w.l.l) + {w.l.n} + Nodes(w.l.r)) + {w.n} + Nodes(w.r);
    } else {
      assert Nodes(NearNephewUp(c).l) == (Nodes(w.l) + {w.n} + Nodes(w.r.l)) + {w.r.n} + Nodes(w.r.r);
      assert Nodes(w) == Nodes(w.l) + {w.n} + (Nodes(w.r.l) + {w.r.n} + Nodes(w.r.r));
    }
  }

  /** The head of a tree that is larger than the hole lies in the context. */
  lemma {:induction false} RootInCtx(m: Store, c: Ctx, child: Node?, root: Node?)
    requires LinkedCtx(m, c, child, root) && !c.Top?
    ensures root != null && root in CtxNodes(c)
    decreases c
  {
    if !c.up.Top? {
      RootInCtx(m, c.up, c.n, root);
    }
  }

  lemma {:induction false} FixedWhole(c: Ctx, t: Shape)
    requires Ordered(c, t) && Fixed(c, t)
    ensures RedBlack(Plug(c, t)) && Nodes(Plug(c, t)) == Nodes(t) + CtxNodes(c)
  {
    InsertedWhole(c, t);
    PlugNodes(c, t);
    PlugOrdered(c, t);
  }

  lemma {:induction false} PlugOrdered(c: Ctx, t: Shape)
    requires Ordered(c, t)
    ensures Bst(Plug(c, t))
    decreases c
  {
    if !c.Top? {
      UpOrdered(c, t);
      PlugOrdered(c.up, UpTree(c, t));
    }
  }

  /** The end of RB_REMOVE_COLOR: painting the subtree black repays the missing node. */
  lemma {:induction false} LastBlack(c: Ctx, t: Shape)
    requires Removing(c, t) && (IsRed(t) || c.Top?)
    ensures Fixed(c, Black(t)) && Nodes(Black(t)) == Nodes(t)
  {
  }

  /** A repaired subtree makes a red-black tree. */
  lemma {:induction false} Whole(m: Store, c: Ctx, t: Shape, root: Node?)
    requires At(m, c, t, root) && Fixed(c, t)
    ensures At(m, Top, Plug(c, t), root) && RedBlack(Plug(c, t)) && Nodes(Plug(c, t)) == Nodes(t) + CtxNodes(c)
  {
    PlugAt(m, c, t, root);
    FixedWhole(c, t);
  }

  /** After the loop of RB_REMOVE_COLOR, painting `elm` black repairs the tree. */
  lemma {:induction false} Settle(m: Store, c: Ctx, t: Shape, root: Node?, elm: Node?, done: bool)
    returns (c': Ctx, t': Shape)
    requires At(m, c, t, root)
    requires done ==> elm == root && Fixed(c, t)
    requires !done ==> elm == Root(t) && Removing(c, t) && (IsRed(t) || elm == root)
    ensures At(m, c', t', root) && Fixed(c', Black(t')) && Root(t') == elm
    ensures Nodes(Black(t')) + CtxNodes(c') == Nodes(t) + CtxNodes(c)
  {
    if done {
      Whole(m, c, t, root);
      c', t' := Top, Plug(c, t);
    } else {
      if !c.Top? {
        RootInCtx(m, c, elm, root);
        Disjoint(c, t);
      }
      LastBlack(c, t);
      c', t' := c, t;
    }
  }

  // ---------- unlinking a node ----------

  /** The place of a node of the tree. */
  lemma {:induction false} Locate(c0: Ctx, s: Shape, elm: Node) returns (c: Ctx, t: Shape)
    requires elm in Nodes(s)
    ensures t.Fork? && t.n == elm && Plug(c, t) == Plug(c0, s)
    decreases s
  {
    if s.n == elm {
      c, t := c0, s;
    } else if elm in Nodes(s.l) {
      c, t := Locate(InLeft(s.n, s.red, s.r, c0), s.l, elm);
    } else {
      c, t := Locate(InRight(s.l, s.n, s.red, c0), s.r, elm);
    }
  }

  /** A node with at most one child. */
  ghost predicate HasOnlyChild(t: Shape, child: Shape) {
    t.Fork? && ((t.l.Leaf? && child == t.r) || (t.r.Leaf? && child == t.l))
  }

  /** The only child of a node takes its place. */
  lemma {:induction false} Unlinked(m: Store, m': Store, c: Ctx, t: Shape, child: Shape, root: Node?, root': Node?)
    requires At(m, c, t, root) && HasOnlyChild(t, child)
    requires child.Fork? ==> child.n in m && child.n in m' && m'[child.n] == m[child.n].(parent := Above(c))
    requires c.Top? ==> root' == Root(child)
    requires !c.Top? ==> root' == root && c.n in m' && m'[c.n] == Holding(c, Root(child))
    requires forall n | n in m && n != t.n && n != Root(child) && n != Above(c) :: n in m' && m'[n] == m[n]
    ensures At(m', c, child, root')
  {
    Disjoint(c, t);
    Separate(t);
    NewChild(m, m', c, t.n, Root(child), root, root');
    NewParent(m, m', child, t.n, Above(c));
  }

  /** The store after `child` has been linked to the parent of `elm`. */
  ghost function UnlinkStore(m: Store, elm: Node, child: Node?): Store
    requires CanUnlink(m, elm, child)
  {
    Redirected(if child == null then m else m[child := m[child].(parent := m[elm].parent)], elm, child)
  }

  ghost predicate CanUnlink(m: Store, elm: Node, child: Node?) {
    && elm in m && (m[elm].parent != null ==> m[elm].parent in m)
    && (child != null ==> child in m && child != elm)
  }

  lemma {:induction false} UnlinkStoreLinks(m: Store, c: Ctx, t: Shape, child: Shape, root: Node?)
    requires At(m, c, t, root) && HasOnlyChild(t, child)
    ensures CanUnlink(m, t.n, Root(child))
    ensures m[t.n].parent == Above(c)
    ensures At(UnlinkStore(m, t.n, Root(child)), c, child, if c.Top? then Root(child) else root)
  {
    Disjoint(c, t);
    Separate(t);
    assert Linked(m, child, t.n);
    if !c.Top? {
      assert c.n in CtxNodes(c);
      assert c.InRight? && c.l.Fork? ==> c.l.n in CtxNodes(c);
    }
    Unlinked(m, UnlinkStore(m, t.n, Root(child)), c, t, child, root, if c.Top? then Root(child) else root);
  }

  lemma {:induction false} UnlinkedNodes(c: Ctx, t: Shape, child: Shape)
    requires Ordered(c, t) && HasOnlyChild(t, child)
    ensures Nodes(child) + CtxNodes(c) == Nodes(Plug(c, t)) - {t.n}
  {
    RemovedNodes(c, t);
    Separate(t);
    assert Nodes(child) == Nodes(t) - {t.n};
  }

  lemma {:induction false} RemovedNodes(c: Ctx, t: Shape)
    requires Ordered(c, t) && t.Fork?
    ensures (Nodes(t) - {t.n}) + CtxNodes(c) == Nodes(Plug(c, t)) - {t.n}
  {
    PlugNodes(c, t);
    Disjoint(c, t);
    assert t.n in Nodes(t);
  }

  lemma {:induction false} UnlinkedColours(c: Ctx, t: Shape, child: Shape)
    requires RedBlack(Plug(c, t)) && HasOnlyChild(t, child)
    ensures !t.red ==> Removing(c, child)
    ensures t.red ==> Fixed(c, child)
  {
    SplitRedBlack(c, t);
  }

  lemma {:induction false} SubstitutedOrdered(c: Ctx, t: Shape, elm: Node)
    requires Ordered(c, t) && t.Fork? && Fits(c, elm.key)
    requires (forall a | a in Nodes(t.l) :: a.key < elm.key) && (forall a | a in Nodes(t.r) :: elm.key < a.key)
    ensures Ordered(c, t.(n := elm))
  {
    assert Nodes(t.(n := elm)) == Nodes(t.l) + {elm} + Nodes(t.r);
  }

  /** The node of `t` is replaced by another one with a key that fits. */
  lemma {:induction false} Substituted(m: Store, m': Store, c: Ctx, t: Shape, elm: Node, root: Node?, root': Node?)
    requires At(m, c, t, root) && t.Fork?
    requires elm !in Nodes(t) && elm !in CtxNodes(c) && Fits(c, elm.key)
    requires (forall a | a in Nodes(t.l) :: a.key < elm.key) && (forall a | a in Nodes(t.r) :: elm.key < a.key)
    requires elm in m' && m'[elm] == Cell(Root(t.l), Root(t.r), Above(c), t.red)
    requires t.l.Fork? ==> t.l.n in m && t.l.n in m' && m'[t.l.n] == m[t.l.n].(parent := elm)
    requires t.r.Fork? ==> t.r.n in m && t.r.n in m' && m'[t.r.n] == m[t.r.n].(parent := elm)
    requires c.Top? ==> root' == elm
    requires !c.Top? ==> root' == root && c.n in m' && m'[c.n] == Holding(c, elm)
    requires forall n | n in m && n !in {t.n, elm} && n != Root(t.l) && n != Root(t.r) && n != Above(c) ::
               n in m' && m'[n] == m[n]
    ensures At(m', c, t.(n := elm), root')
  {
    Disjoint(c, t);
    Separate(t);
    NewChild(m, m', c, t.n, elm, root, root');
    NewParent(m, m', t.l, t.n, elm);
    NewParent(m, m', t.r, t.n, elm);
    SubstitutedOrdered(c, t, elm);
  }

  // ---------- the path to the successor ----------

  ghost function Compose(inner: Ctx, outer: Ctx): Ctx {
    match inner
    case Top => outer
    case InLeft(n, red, r, up) => InLeft(n, red, r, Compose(up, outer))
    case InRight(l, n, red, up) => InRight(l, n, red, Compose(up, outer))
  }

  lemma {:induction false} ComposePlug(inner: Ctx, outer: Ctx, t: Shape)
    ensures Plug(Compose(inner, outer), t) == Plug(outer, Plug(inner, t))
    decreases inner
  {
    if !inner.Top? {
      ComposePlug(inner.up, outer, UpTree(inner, t));
    }
  }

  lemma {:induction false} ComposeAt(m: Store, inner: Ctx, outer: Ctx, t: Shape, root: Node?)
    ensures At(m, Compose(inner, outer), t, root) <==> At(m, outer, Plug(inner, t), root)
    decreases inner
  {
    if !inner.Top? {
      Up(m, Compose(inner, outer), t, root);
      ComposeAt(m, inner.up, outer, UpTree(inner, t), root);
    }
  }

  lemma {:induction false} ComposeNodes(inner: Ctx, outer: Ctx)
    ensures CtxNodes(Compose(inner, outer)) == CtxNodes(inner) + CtxNodes(outer)
    decreases inner
  {
    if !inner.Top? {
      ComposeNodes(inner.up, outer);
    }
  }

  /** Renaming a node leaves the colours of a context alone. */
  lemma {:induction false} ComposeColours(inner: Ctx, c: Ctx, c': Ctx, h: int)
    requires !c.Top? && !c'.Top? && Sibling(c) == Sibling(c') && c.red == c'.red && c.up == c'.up
    ensures CtxNoRedRed(Compose(inner, c)) <==> CtxNoRedRed(Compose(inner, c'))
    ensures CtxBalanced(Compose(inner, c), h) <==> CtxBalanced(Compose(inner, c'), h)
    ensures CtxRootBlack(Compose(inner, c)) <==> CtxRootBlack(Compose(inner, c'))
    ensures RedAbove(Compose(inner, c)) <==> RedAbove(Compose(inner, c'))
    decreases inner
  {
    if !inner.Top? {
      ComposeColours(inner.up, c, c', h + if inner.red then 0 else 1);
    }
  }

  ghost predicate OnlyLeft(c: Ctx) {
    c.Top? || (c.InLeft? && OnlyLeft(c.up))
  }

  /** What lies to the right of a path that only goes left has larger keys. */
  lemma {:induction false} LeftmostIsLeast(inner: Ctx, outer: Ctx, k: int)
    requires OnlyLeft(inner) && CtxBst(Compose(inner, outer)) && Fits(Compose(inner, outer), k)
    ensures forall a | a in CtxNodes(inner) :: k < a.key
    ensures Fits(outer, k)
    decreases inner
  {
    if !inner.Top? {
      LeftmostIsLeast(inner.up, outer, k);
    }
  }

  /** The store after `elm` has taken over the fields and the neighbours of `old`. */
  ghost function SubstituteStore(m: Store, old_: Node, elm: Node): Store
    requires CanSubstitute(m, old_, elm)
  {
    var m1 := Redirected(m[elm := m[old_]], old_, elm);
    var m2 := m1[m1[old_].left := m1[m1[old_].left].(parent := elm)];
    var r := m2[old_].right;
    if r == null then m2 else m2[r := m2[r].(parent := elm)]
  }

  ghost predicate CanSubstitute(m: Store, old_: Node, elm: Node) {
    && old_ in m && elm in m && elm != old_
    && m[old_].parent != old_ && (m[old_].parent != null ==> m[old_].parent in m)
    && m[old_].left != null && m[old_].left in m && m[old_].left != old_
    && (m[old_].right != null ==> m[old_].right in m)
  }

  lemma {:induction false} SubstituteStoreLinks(m: Store, c: Ctx, t: Shape, elm: Node, root: Node?)
    requires At(m, c, t, root) && t.Fork? && t.l.Fork?
    requires elm in m && elm !in Nodes(t) && elm !in CtxNodes(c) && Fits(c, elm.key)
    requires (forall a | a in Nodes(t.l) :: a.key < elm.key) && (forall a | a in Nodes(t.r) :: elm.key < a.key)
    ensures CanSubstitute(m, t.n, elm) && m[t.n].parent == Above(c)
    ensures At(SubstituteStore(m, t.n, elm), c, t.(n := elm), if c.Top? then elm else root)
  {
    Disjoint(c, t);
    Separate(t);
    assert Linked(m, t.l, t.n) && Linked(m, t.r, t.n);
    if !c.Top? {
      assert c.n in CtxNodes(c);
      assert c.InRight? && c.l.Fork? ==> c.l.n in CtxNodes(c);
    }
    Substituted(m, SubstituteStore(m, t.n, elm), c, t, elm, root, if c.Top? then elm else root);
  }

  /** The whole step: the leftmost node of the right subtree is unlinked and then takes the place of the root. */
  lemma {:induction false} SuccessorFits(c: Ctx, t: Shape, inner: Ctx, s: Shape)
    requires t.Fork? && Ordered(c, t) && OnlyLeft(inner) && Plug(inner, s) == t.r && s.Fork? && s.l.Leaf?
    ensures Ordered(Compose(inner, InRight(t.l, t.n, t.red, c)), s)
    ensures Plug(Compose(inner, InRight(t.l, t.n, t.red, c)), s) == Plug(c, t)
    ensures s.n !in Nodes(t.l) && s.n != t.n && s.n !in CtxNodes(c) && s.n !in Nodes(Plug(inner, s.r)) &&
      Fits(c, s.n.key)
    ensures (forall a | a in Nodes(t.l) :: a.key < s.n.key) &&
      (forall a | a in Nodes(Plug(inner, s.r)) :: s.n.key < a.key)
    ensures Nodes(Plug(inner, s.r)) + {s.n} == Nodes(t.r)
  {
    var outer := InRight(t.l, t.n, t.red, c);
    var k := s.n.key;
    ComposePlug(inner, outer, s);
    UpOrdered(outer, t.r);
    ComposeOrdered(inner, outer, s);
    assert s.n in Nodes(s);
    LeftmostIsLeast(inner, outer, k);
    PlugNodes(inner, s.r);
    PlugNodes(inner, s);
    Apart(outer, k);
    assert Nodes(s) == {s.n} + Nodes(s.r);
  }

  lemma {:induction false} ComposeOrdered(inner: Ctx, outer: Ctx, t: Shape)
    ensures Ordered(Compose(inner, outer), t) <==> Ordered(outer, Plug(inner, t))
    decreases inner
  {
    if !inner.Top? {
      UpOrdered(Compose(inner, outer), t);
      ComposeOrdered(inner.up, outer, UpTree(inner, t));
    }
  }

  /** Renaming the removed node on the path leaves the colours alone. */
  lemma {:induction false} RenamedColours(c: Ctx, l: Shape, n: Node, elm: Node, red: bool, inner: Ctx, ch: Shape)
    ensures var path, path' := Compose(inner, InRight(l, n, red, c)), Compose(inner, InRight(l, elm, red, c));
      && (Removing(path, ch) ==> Removing(path', ch))
      && (Fixed(path, ch) ==> Fixed(path', ch))
  {
    ComposeColours(inner, InRight(l, n, red, c), InRight(l, elm, red, c), BlackHeight(ch));
    ComposeColours(inner, InRight(l, n, red, c), InRight(l, elm, red, c), BlackHeight(ch) + 1);
    ComposeTop(inner, InRight(l, n, red, c));
    ComposeTop(inner, InRight(l, elm, red, c));
  }

  lemma {:induction false} ComposeTop(inner: Ctx, outer: Ctx)
    requires !outer.Top?
    ensures !Compose(inner, outer).Top?
  {
  }

  /** The nodes of the tree once the successor has taken the place of the removed node. */
  lemma {:induction false} RenamedNodes(c: Ctx, t: Shape, inner: Ctx, s: Shape)
    requires t.Fork? && Ordered(c, t) && OnlyLeft(inner) && Plug(inner, s) == t.r && s.Fork? && s.l.Leaf?
    ensures Nodes(s.r) + CtxNodes(Compose(inner, InRight(t.l, s.n, t.red, c))) == (Nodes(t) - {t.n}) + CtxNodes(c)
    ensures !inner.Top? ==> inner.n != t.n
  {
    var outer := InRight(t.l, s.n, t.red, c);
    Separate(t);
    SuccessorFits(c, t, inner, s);
    ComposeNodes(inner, outer);
    PlugNodes(inner, s.r);
    assert CtxNodes(outer) == {s.n} + Nodes(t.l) + CtxNodes(c);
    assert Nodes(t) - {t.n} == Nodes(t.l) + Nodes(t.r);
    assert Nodes(s.r) + CtxNodes(inner) + {s.n} == Nodes(t.r);
    assert !inner.Top? ==> inner.n in CtxNodes(inner);
  }

  /** Up the path: the tree seen from the node that is to be removed. */
  lemma {:induction false} PathAt(m: Store, c: Ctx, l: Shape, n: Node, red: bool, inner: Ctx, s: Shape, root: Node?)
    ensures At(m, Compose(inner, InRight(l, n, red, c)), s, root) <==> At(m, c, Fork(l, n, red, Plug(inner, s)), root)
    ensures Above(Compose(inner, InRight(l, n, red, c))) == if inner.Top? then n else inner.n
  {
    Up(m, InRight(l, n, red, c), Plug(inner, s), root);
    ComposeAt(m, inner, InRight(l, n, red, c), s, root);
  }

  /** A store without a node that is not in the tree. */
  lemma {:induction false} Forget(m: Store, t: Shape, root: Node?, n: Node)
    requires At(m, Top, t, root) && n !in Nodes(t)
    ensures At(m - {n}, Top, t, root)
  {
    LinkedFrame(m, m - {n}, t, null);
  }

  // ---------- order of the keys ----------

  /** Two keys that fit the same hole lie on the same side of every node of the context. */
  lemma {:induction false} SameSide(c: Ctx, j: int, k: int)
    requires CtxBst(c) && Fits(c, j) && Fits(c, k)
    ensures forall a | a in CtxNodes(c) :: j < a.key <==> k < a.key
    decreases c
  {
    if !c.Top? {
      SameSide(c.up, j, k);
    }
  }

  /** `b` is the element that follows `a` in `all`; null if `a` is the last. */
  ghost predicate Follows(all: set<Node>, a: Node, b: Node?) {
    if b == null then forall x | x in all :: x.key <= a.key
    else b in all && a.key < b.key && forall x | x in all && a.key < x.key :: b.key <= x.key
  }

  lemma {:induction false} LeftmostFollows(c: Ctx, t: Shape, inner: Ctx, s: Shape)
    requires t.Fork? && Ordered(c, t) && OnlyLeft(inner) && Plug(inner, s) == t.r && s.Fork? && s.l.Leaf?
    ensures Follows(Nodes(t) + CtxNodes(c), t.n, s.n)
  {
    SuccessorFits(c, t, inner, s);
    assert t.n in Nodes(t) && s.n in Nodes(t.r);
    SameSide(c, t.n.key, s.n.key);
  }

  lemma {:induction false} AncestorFollows(c: Ctx, t: Shape, a: Node)
    requires Ordered(c, t) && a in Nodes(t) && (forall x | x in Nodes(t) :: x.key <= a.key) && !c.InRight?
    ensures Follows(Nodes(t) + CtxNodes(c), a, Above(c))
  {
    if c.InLeft? {
      SameSide(c.up, a.key, c.n.key);
    }
  }
}
