/** `rbtree.c`: red-black trees with parent links. */
module RbTree {
  import opened IntrusiveTree

  const RED := 0
  const BLACK := 1

  // ---- what makes a tree red-black

  ghost predicate IsBlack(t: Tree) {
    t.Leaf? || t.mark != RED
  }

  ghost function Weight(mark: int): int {
    if mark == RED then 0 else 1
  }

  /** Black nodes on the way down the left side. */
  ghost function BlackHeight(t: Tree): int {
    match t
    case Leaf => 0
    case Fork(l, _, k, _) => BlackHeight(l) + Weight(k)
  }

  /** Equal black heights everywhere and no red node with a red child. */
  ghost predicate RB(t: Tree) {
    match t
    case Leaf => true
    case Fork(l, _, k, r) =>
      && RB(l) && RB(r) && BlackHeight(l) == BlackHeight(r)
      && (k == RED || k == BLACK) && (k == RED ==> IsBlack(l) && IsBlack(r))
  }

  ghost predicate UpRed(p: Path) {
    p != Top && p.mark == RED
  }

  /** A path that a subtree of black height `h` completes to a red-black tree with a black
      root, as far as the subtree's own root allows. */
  ghost predicate RBPath(p: Path, h: int) {
    match p
    case Top => true
    case L(_, k, r, up) => RBStep(k, r, up, h) && RBPath(up, h + Weight(k))
    case R(l, _, k, up) => RBStep(k, l, up, h) && RBPath(up, h + Weight(k))
  }

  /** One step of a path, past a node marked `k` with the other subtree `s`. */
  ghost predicate RBStep(k: int, s: Tree, up: Path, h: int) {
    && RB(s) && BlackHeight(s) == h
    && (k == RED || k == BLACK) && (k == RED ==> IsBlack(s) && !UpRed(up)) && (up == Top ==> k == BLACK)
  }

  /** `t` at the end of `p` makes a red-black tree. */
  ghost predicate Fine(p: Path, t: Tree) {
    RB(t) && RBPath(p, BlackHeight(t)) && (UpRed(p) || p == Top ==> IsBlack(t))
  }

  ghost predicate RBTree(t: Tree) {
    RB(t) && IsBlack(t)
  }

  lemma {:induction false} FinePlug(p: Path, t: Tree)
    ensures Fine(p, t) <==> RBTree(Plug(p, t))
    decreases p
  {
    match p
    case Top =>
    case L(n, k, r, up) => FinePlug(up, Fork(t, n, k, r));
    case R(l, n, k, up) => FinePlug(up, Fork(l, n, k, t));
  }

  // ---- insert repair on values

  /** A red node at the end of `p` that may clash with a red parent, or be a red root. */
  ghost predicate RedAt(p: Path, t: Tree) {
    t.Fork? && t.mark == RED && RB(t) && RBPath(p, BlackHeight(t))
  }

  function Blackened(t: Tree): Tree {
    if t.Leaf? then t else t.(mark := BLACK)
  }

  /** The grandparent's subtree with the parent and the uncle painted black. */
  function Recoloured(p: Path, t: Tree): Tree
    requires p != Top && p.up != Top
  {
    var parent := if p.L? then Fork(t, p.n, BLACK, p.right) else Fork(p.left, p.n, BLACK, t);
    if p.up.L? then Fork(parent, p.up.n, RED, Blackened(p.up.right))
    else Fork(Blackened(p.up.left), p.up.n, RED, parent)
  }

  /** The subtree beside the parent. */
  function Uncle(p: Path): Tree
    requires p != Top && p.up != Top
  {
    if p.up.L? then p.up.right else p.up.left
  }

  lemma RedParentHasParent(p: Path, t: Tree)
    requires RedAt(p, t) && UpRed(p)
    ensures p.up != Top && p.up.mark == BLACK
  {
    assert RBPath(p.up, BlackHeight(t));
  }

  /** Case 3: with a red uncle the clash moves two levels up. */
  lemma RecolouredRedAt(p: Path, t: Tree)
    requires RedAt(p, t) && UpRed(p) && p.up != Top && !IsBlack(Uncle(p))
    ensures RedAt(p.up.up, Recoloured(p, t))
  {
    assert RBPath(p.up, BlackHeight(t));
  }

  /** Case 4: with a black uncle the node in the middle goes on top, black, and the other
      two go below it, red. */
  function Rebuilt(p: Path, t: Tree): Tree
    requires p != Top && p.up != Top && t.Fork?
  {
    var g, s, u := p.up.n, (if p.L? then p.right else p.left), Uncle(p);
    if p.L? && p.up.L? then Fork(t, p.n, BLACK, Fork(s, g, RED, u))
    else if p.R? && p.up.R? then Fork(Fork(u, g, RED, s), p.n, BLACK, t)
    else if p.R? then Fork(Fork(s, p.n, RED, t.left), t.n, BLACK, Fork(t.right, g, RED, u))
    else Fork(Fork(u, g, RED, t.left), t.n, BLACK, Fork(t.right, p.n, RED, s))
  }

  lemma RebuiltFine(p: Path, t: Tree)
    requires RedAt(p, t) && UpRed(p) && p.up != Top && IsBlack(Uncle(p))
    ensures Fine(p.up.up, Rebuilt(p, t))
  {
    assert RBPath(p.up, BlackHeight(t));
    assert RB(t.left) && RB(t.right);
  }

  lemma BlackRootFine(t: Tree)
    requires RedAt(Top, t)
    ensures Fine(Top, Blackened(t))
  {
  }

  /** The grandparent's subtree as it stands. */
  function Grand(p: Path, t: Tree): (g: Tree)
    requires p != Top && p.up != Top
    ensures Plug(p, t) == Plug(p.up.up, g)
  {
    var parent := if p.L? then Fork(t, p.n, p.mark, p.right) else Fork(p.left, p.n, p.mark, t);
    assert Plug(p, t) == Plug(p.up, parent);
    if p.up.L? then Fork(parent, p.up.n, p.up.mark, p.up.right)
    else Fork(p.up.left, p.up.n, p.up.mark, parent)
  }

  lemma RecolouredInOrder(p: Path, t: Tree)
    requires p != Top && p.up != Top
    ensures InOrder(Recoloured(p, t)) == InOrder(Grand(p, t))
  {
    assert InOrder(Blackened(Uncle(p))) == InOrder(Uncle(p));
  }

  lemma RebuiltInOrder(p: Path, t: Tree)
    requires p != Top && p.up != Top && t.Fork?
    ensures InOrder(Rebuilt(p, t)) == InOrder(Grand(p, t))
  {
    var s, u, g := if p.L? then p.right else p.left, Uncle(p), p.up.n;
    if p.L? && p.up.L? {
      RotationInOrder(t, p.n, s, g, u);
    } else if p.R? && p.up.R? {
      RotationInOrder(u, g, s, p.n, t);
    } else if p.R? {
      RotationInOrder(s, p.n, t.left, t.n, t.right);
      RotationInOrder(Fork(s, p.n, RED, t.left), t.n, t.right, g, u);
      assert InOrder(Fork(s, p.n, p.mark, t)) == InOrder(s) + [p.n] + InOrder(t);
    } else {
      RotationInOrder(t.left, t.n, t.right, p.n, s);
      RotationInOrder(u, g, t.left, t.n, Fork(t.right, p.n, RED, s));
      assert InOrder(Fork(t, p.n, p.mark, s)) == InOrder(t) + [p.n] + InOrder(s);
    }
  }

  // ---- insert repair on the heap

  /** The links around a node with a red parent. */
  lemma AboveFacts(m: Mem, root: Node?, p: Path, t: Tree)
    requires t.Fork? && p != Top && p.up != Top && At(m, root, p, t)
    ensures t.n in m && m[t.n].parent == p.n
    ensures p.n in m && m[p.n].parent == p.up.n && m[p.n].mark == p.mark
    ensures p.L? ==> m[p.n].left == t.n && m[p.n].right != t.n
    ensures p.R? ==> m[p.n].right == t.n && m[p.n].left != t.n
    ensures p.up.n in m
    ensures p.up.L? ==> m[p.up.n].left == p.n && m[p.up.n].right == RootOf(Uncle(p))
    ensures p.up.R? ==> m[p.up.n].right == p.n && m[p.up.n].left == RootOf(Uncle(p)) != p.n
    ensures Uncle(p).Fork? ==> Uncle(p).n in m && m[Uncle(p).n].mark == Uncle(p).mark
    ensures Uncle(p).Fork? ==> m[Uncle(p).n].left != t.n && m[Uncle(p).n].right != t.n
    ensures p.n != p.up.n && (Uncle(p).Fork? ==> Uncle(p).n != p.n && Uncle(p).n != p.up.n)
  {
    RootIn(t);
    RootIn(Uncle(p));
    if p.R? { RootIn(p.left); } else { RootIn(p.right); }
    if Uncle(p).Fork? { RootIn(Uncle(p).left); RootIn(Uncle(p).right); }
    assert LinkedPath(m, p.up, p.n, null) && ProperPath(p.up);
    assert PathNodes(p.up) <= PathNodes(p);
    assert Linked(m, Uncle(p), p.up.n);
    assert Nodes(Uncle(p)) <= PathNodes(p.up) && p.up.n in PathNodes(p.up);
  }

  lemma RecolouredAt(m: Mem, root: Node?, p: Path, t: Tree)
    requires t.Fork? && p != Top && p.up != Top && Uncle(p).Fork? && At(m, root, p, t)
    requires p.n in m && p.up.n in m && Uncle(p).n in m
    ensures At(PutMark(PutMark(PutMark(m, p.n, BLACK), Uncle(p).n, BLACK), p.up.n, RED), root, p.up.up,
      Recoloured(p, t))
  {
    hide At, PutMark;
    var g, k, u, up := p.up.n, p.up.mark, Uncle(p), p.up.up;
    var m1 := PutMark(m, p.n, BLACK);
    var m2 := PutMark(m1, u.n, BLACK);
    var parent;
    if p.L? {
      parent := Fork(t, p.n, BLACK, p.right);
      ZipLeft(m, root, p.up, t, p.n, p.mark, p.right);
      Painted(m, root, p.n, BLACK, p.up, t, p.mark, p.right);
    } else {
      parent := Fork(p.left, p.n, BLACK, t);
      ZipRight(m, root, p.up, p.left, p.n, p.mark, t);
      Painted(m, root, p.n, BLACK, p.up, p.left, p.mark, t);
    }
    if p.up.L? {
      ZipLeft(m1, root, up, parent, g, k, u);
      ZipRight(m1, root, up, parent, g, k, u);
      Painted(m1, root, u.n, BLACK, R(parent, g, k, up), u.left, u.mark, u.right);
      ZipRight(m2, root, up, parent, g, k, Blackened(u));
      Painted(m2, root, g, RED, up, parent, k, Blackened(u));
    } else {
      ZipRight(m1, root, up, u, g, k, parent);
      ZipLeft(m1, root, up, u, g, k, parent);
      Painted(m1, root, u.n, BLACK, L(g, k, parent, up), u.left, u.mark, u.right);
      ZipLeft(m2, root, up, Blackened(u), g, k, parent);
      Painted(m2, root, g, RED, up, Blackened(u), k, parent);
    }
  }

  /** Case 3 on the heap: paints the parent and the uncle black and the grandparent red. */
  method Recolour(tree: Root, parent: Node, uncle: Node, g: Node, ghost p: Path, ghost t: Tree)
    requires tree.Sync() && t.Fork? && p != Top && p.up != Top && At(tree.mem, tree.root, p, t)
    requires parent == p.n && Uncle(p).Fork? && uncle == Uncle(p).n && g == p.up.n
    modifies tree, tree.mem.Keys
    ensures tree.Sync() && At(tree.mem, tree.root, p.up.up, Recoloured(p, t))
    ensures tree.mem.Keys == old(tree.mem.Keys)
  {
    hide Root.Sync, At, PutMark;
    AboveFacts(tree.mem, tree.root, p, t);
    RecolouredAt(tree.mem, tree.root, p, t);
    tree.SetMark(parent, BLACK);
    tree.SetMark(uncle, BLACK);
    tree.SetMark(g, RED);
    assert At(tree.mem, tree.root, p.up.up, Recoloured(p, t));
  }

  /** Case 4, first step: an inner grandchild is rotated to the outside. */
  ghost predicate Outer(p: Path) {
    p != Top && p.up != Top && (p.L? <==> p.up.L?)
  }

  function OuterPath(p: Path, t: Tree): Path
    requires p != Top && p.up != Top && t.Fork?
  {
    if p.R? && p.up.L? then L(t.n, t.mark, t.right, p.up)
    else if p.L? && p.up.R? then R(t.left, t.n, t.mark, p.up)
    else p
  }

  function OuterTree(p: Path, t: Tree): Tree
    requires p != Top && p.up != Top && t.Fork?
  {
    if p.R? && p.up.L? then Fork(p.left, p.n, p.mark, t.left)
    else if p.L? && p.up.R? then Fork(t.right, p.n, p.mark, p.right)
    else t
  }

  lemma OuterSame(p: Path, t: Tree)
    requires t.Fork? && t.mark == RED && p != Top && p.up != Top && p.mark == RED
    ensures Outer(OuterPath(p, t)) && OuterPath(p, t).up == p.up
    ensures OuterTree(p, t).Fork? && OuterPath(p, t).mark == RED
    ensures Rebuilt(OuterPath(p, t), OuterTree(p, t)) == Rebuilt(p, t)
  {
  }

  method TurnOut(tree: Root, node: Node, parent: Node, g: Node, ghost p: Path, ghost t: Tree) returns (child: Node)
    requires tree.Sync() && t.Fork? && t.mark == RED && p != Top && p.up != Top && p.mark == RED
    requires At(tree.mem, tree.root, p, t)
    requires node == t.n && parent == p.n && g == p.up.n
    modifies tree, tree.mem.Keys
    ensures tree.Sync() && At(tree.mem, tree.root, OuterPath(p, t), OuterTree(p, t))
    ensures child == OuterTree(p, t).n && tree.mem.Keys == old(tree.mem.Keys)
  {
    hide Root.Sync, At;
    AboveFacts(tree.mem, tree.root, p, t);
    tree.Fields(g);
    tree.Fields(parent);
    if Uncle(p).Fork? { tree.Fields(Uncle(p).n); }
    child := node;
    if g.left != null && node == g.left.right {
      ZipRight(tree.mem, tree.root, p.up, p.left, parent, p.mark, t);
      RotateLeft(tree, parent, p.up, p.left, p.mark, t.left, node, t.mark, t.right);
      child := parent;
      ZipLeft(tree.mem, tree.root, p.up, OuterTree(p, t), node, t.mark, t.right);
    } else if g.right != null && node == g.right.left {
      ZipLeft(tree.mem, tree.root, p.up, t, parent, p.mark, p.right);
      RotateRight(tree, parent, p.up, p.right, p.mark, t.right, node, t.mark, t.left);
      child := parent;
      ZipRight(tree.mem, tree.root, p.up, t.left, node, t.mark, OuterTree(p, t));
    }
  }

  /** Case 4, second step: the parent is rotated over the grandparent and they trade colours. */
  method LiftRight(tree: Root, parent: Node, g: Node, ghost p: Path, ghost t: Tree)
    requires tree.Sync() && t.Fork? && p.L? && p.up.L? && At(tree.mem, tree.root, p, t)
    requires parent == p.n && g == p.up.n
    modifies tree, tree.mem.Keys
    ensures tree.Sync() && At(tree.mem, tree.root, p.up.up, Rebuilt(p, t))
    ensures tree.mem.Keys == old(tree.mem.Keys)
  {
    hide Root.Sync, At;
    ghost var up, s, u, kp, kg := p.up.up, p.right, p.up.right, p.mark, p.up.mark;
    ZipLeft(tree.mem, tree.root, p.up, t, parent, kp, s);
    ZipLeft(tree.mem, tree.root, up, Fork(t, parent, kp, s), g, kg, u);
    RotateRight(tree, g, up, u, kg, s, parent, kp, t);
    Paint(tree, parent, BLACK, up, t, kp, Fork(s, g, kg, u));
    ZipRight(tree.mem, tree.root, up, t, parent, BLACK, Fork(s, g, kg, u));
    Paint(tree, g, RED, R(t, parent, BLACK, up), s, kg, u);
    ZipRight(tree.mem, tree.root, up, t, parent, BLACK, Fork(s, g, RED, u));
    assert At(tree.mem, tree.root, p.up.up, Rebuilt(p, t));
  }

  method LiftLeft(tree: Root, parent: Node, g: Node, ghost p: Path, ghost t: Tree)
    requires tree.Sync() && t.Fork? && p.R? && p.up.R? && At(tree.mem, tree.root, p, t)
    requires parent == p.n && g == p.up.n
    modifies tree, tree.mem.Keys
    ensures tree.Sync() && At(tree.mem, tree.root, p.up.up, Rebuilt(p, t))
    ensures tree.mem.Keys == old(tree.mem.Keys)
  {
    hide Root.Sync, At;
    ghost var up, s, u, kp, kg := p.up.up, p.left, p.up.left, p.mark, p.up.mark;
    ZipRight(tree.mem, tree.root, p.up, s, parent, kp, t);
    ZipRight(tree.mem, tree.root, up, u, g, kg, Fork(s, parent, kp, t));
    RotateLeft(tree, g, up, u, kg, s, parent, kp, t);
    Paint(tree, parent, BLACK, up, Fork(u, g, kg, s), kp, t);
    ZipLeft(tree.mem, tree.root, up, Fork(u, g, kg, s), parent, BLACK, t);
    Paint(tree, g, RED, L(parent, BLACK, t, up), u, kg, s);
    ZipLeft(tree.mem, tree.root, up, Fork(u, g, RED, s), parent, BLACK, t);
    assert At(tree.mem, tree.root, p.up.up, Rebuilt(p, t));
  }

  /** Case 4: the uncle is black. */
  method Rebuild(tree: Root, node: Node, ghost p: Path, ghost t: Tree)
    requires tree.Sync() && t.Fork? && t.mark == RED && UpRed(p) && p.up != Top && At(tree.mem, tree.root, p, t)
    requires node == t.n
    modifies tree, tree.mem.Keys
    ensures tree.Sync() && At(tree.mem, tree.root, p.up.up, Rebuilt(p, t))
    ensures tree.mem.Keys == old(tree.mem.Keys)
  {
    hide Root.Sync, At;
    AboveFacts(tree.mem, tree.root, p, t);
    tree.Fields(node);
    tree.Fields(node.parent);
    OuterSame(p, t);
    var child := TurnOut(tree, node, node.parent, node.parent.parent, p, t);
    ghost var p', t' := OuterPath(p, t), OuterTree(p, t);
    AboveFacts(tree.mem, tree.root, p', t');
    tree.Fields(child);
    tree.Fields(child.parent);
    var parent, g := child.parent, child.parent.parent;
    if child == parent.left {
      LiftRight(tree, parent, g, p', t');
    } else {
      LiftLeft(tree, parent, g, p', t');
    }
  }

  /** rb_tree_nocmp_insert_repair */
  method InsertRepair(tree: Root, node: Node, ghost p: Path, ghost t: Tree) returns (ghost s: Tree)
    requires tree.Sync() && At(tree.mem, tree.root, p, t) && RedAt(p, t) && node == t.n
    modifies tree, tree.mem.Keys
    ensures tree.Sync() && Is(tree.mem, tree.root, s) && RBTree(s)
    ensures InOrder(s) == InOrder(Plug(p, t))
    ensures tree.mem.Keys == old(tree.mem.Keys)
    decreases p
  {
    hide Root.Sync, At, Is;
    NodeFacts(tree.mem, tree.root, p, t);
    tree.Fields(node);
    if node.parent == null {
      BlackRootFine(t);
      Paint(tree, node, BLACK, p, t.left, t.mark, t.right);
      s := Blackened(t);
      AtIsPlug(tree.mem, tree.root, p, s);
      return;
    }
    tree.Fields(node.parent);
    if node.parent.mark == BLACK {
      s := Plug(p, t);
      FinePlug(p, t);
      AtIsPlug(tree.mem, tree.root, p, t);
      return;
    }
    RedParentHasParent(p, t);
    AboveFacts(tree.mem, tree.root, p, t);
    var parent := node.parent;
    var g := parent.parent;
    tree.Fields(g);
    var uncle := if parent == g.left then g.right else g.left;
    assert uncle == RootOf(Uncle(p));
    if uncle != null { tree.Fields(uncle); }
    if uncle != null && uncle.mark == RED {
      RecolouredRedAt(p, t);
      RecolouredInOrder(p, t);
      SameOrder(p.up.up, Recoloured(p, t), Grand(p, t));
      Recolour(tree, parent, uncle, g, p, t);
      s := InsertRepair(tree, g, p.up.up, Recoloured(p, t));
    } else {
      RebuiltFine(p, t);
      RebuiltInOrder(p, t);
      SameOrder(p.up.up, Rebuilt(p, t), Grand(p, t));
      Rebuild(tree, node, p, t);
      s := Plug(p.up.up, Rebuilt(p, t));
      FinePlug(p.up.up, Rebuilt(p, t));
      AtIsPlug(tree.mem, tree.root, p.up.up, Rebuilt(p, t));
    }
  }

  // ---- insert

  /** A red leaf at the end of a path of a red-black tree. */
  lemma LeafRedAt(p: Path, n: Node)
    requires RBTree(Plug(p, Leaf))
    ensures RedAt(p, Fork(Leaf, n, RED, Leaf))
  {
    FinePlug(p, Leaf);
    assert BlackHeight(Fork(Leaf, n, RED, Leaf)) == BlackHeight(Leaf) + Weight(RED);
  }

  /** rb_tree_insert: the tree stays red-black, the node is the only one added, and it goes
      where the comparator wants it. */
  method Insert(tree: Root, node: Node, cmp: (Node, Node) -> int, ghost t: Tree) returns (ghost s: Tree, ghost k: nat)
    requires tree.Sync() && Is(tree.mem, tree.root, t) && RBTree(t) && node !in Nodes(t)
    modifies tree, tree.mem.Keys, node
    ensures tree.Sync() && Is(tree.mem, tree.root, s) && RBTree(s)
    ensures Inserted(InOrder(s), InOrder(t), node, k)
    ensures Ordered(InOrder(t), cmp) && Consistent(Nodes(t) + {node}, cmp) ==>
      Ordered(InOrder(s), cmp) && Behind(InOrder(t), node, k, cmp)
    ensures tree.mem.Keys == old(tree.mem.Keys) + {node}
  {
    hide Root.Sync, At, Ordered, Consistent, Behind, RB, RBTree;
    ghost var p;
    if tree.root == null {
      p := Top;
      tree.Enter(node, RED);
      tree.SetParent(node, null);
      tree.SetRoot(node);
      FirstNode(tree.mem, node);
    } else {
      p := AttachLeaf(tree, node, RED, cmp, t);
    }
    LeafRedAt(p, node);
    InsertedAt(p, t, node, cmp);
    s := InsertRepair(tree, node, p, Fork(Leaf, node, RED, Leaf));
    k := |Before(p)|;
  }

  // ---- delete repair on values. `p` tells on which side of its parent the short subtree is.

  /** The sibling subtree. */
  function Side(p: Path): Tree
    requires p != Top
  {
    if p.L? then p.right else p.left
  }

  /** A fork with `t` on the side of `p`. */
  function Join(p: Path, t: Tree, n: Node, k: int, s: Tree): Tree
    requires p != Top
  {
    if p.L? then Fork(t, n, k, s) else Fork(s, n, k, t)
  }

  function Step(p: Path, n: Node, k: int, s: Tree, up: Path): Path
    requires p != Top
  {
    if p.L? then L(n, k, s, up) else R(s, n, k, up)
  }

  /** The child of the sibling on the side of `p`, and the one away from it. */
  function Near(p: Path, s: Tree): Tree
    requires p != Top && s.Fork?
  {
    if p.L? then s.left else s.right
  }

  function Far(p: Path, s: Tree): Tree
    requires p != Top && s.Fork?
  {
    if p.L? then s.right else s.left
  }

  /** A black-rooted subtree at the end of `p` that lacks one black node. */
  ghost predicate Short(p: Path, t: Tree) {
    RB(t) && IsBlack(t) && RBPath(p, BlackHeight(t) + 1)
  }

  lemma {:induction false} BlackHeightNonNegative(t: Tree)
    ensures BlackHeight(t) >= 0
  {
    if t.Fork? { BlackHeightNonNegative(t.left); }
  }

  /** The repair never meets a missing sibling. */
  lemma SiblingExists(p: Path, t: Tree)
    requires Short(p, t) && p != Top
    ensures Side(p).Fork? && RB(Side(p)) && BlackHeight(Side(p)) == BlackHeight(t) + 1
    ensures p.mark == RED || p.mark == BLACK
    ensures Side(p).mark == RED || Side(p).mark == BLACK
  {
    BlackHeightNonNegative(t);
  }

  // Case 2: a red sibling becomes the grandparent.

  function RaisedPath(p: Path): Path
    requires p != Top && Side(p).Fork?
  {
    var s := Side(p);
    Step(p, p.n, RED, Near(p, s), Step(p, s.n, BLACK, Far(p, s), p.up))
  }

  lemma RaisedShort(p: Path, t: Tree)
    requires Short(p, t) && p != Top && Side(p).Fork? && Side(p).mark == RED
    ensures Short(RaisedPath(p), t) && Side(RaisedPath(p)).Fork? && IsBlack(Side(RaisedPath(p))) && p.mark == BLACK
  {
    assert RBPath(p.up, BlackHeight(t) + 1 + Weight(p.mark));
    BlackHeightNonNegative(t);
  }

  // Cases 3 and 4: the sibling can be painted red.

  function Paled(p: Path, t: Tree): Tree
    requires p != Top && Side(p).Fork?
  {
    Join(p, t, p.n, BLACK, Side(p).(mark := RED))
  }

  ghost predicate PaleSibling(p: Path)
    requires p != Top && Side(p).Fork?
  {
    IsBlack(Side(p)) && IsBlack(Side(p).left) && IsBlack(Side(p).right)
  }

  lemma PaledShort(p: Path, t: Tree)
    requires Short(p, t) && p != Top && Side(p).Fork? && PaleSibling(p) && p.mark == BLACK
    ensures Short(p.up, Paled(p, t))
  {
    SiblingExists(p, t);
  }

  lemma PaledFine(p: Path, t: Tree)
    requires Short(p, t) && p != Top && Side(p).Fork? && PaleSibling(p) && p.mark == RED
    ensures Fine(p.up, Paled(p, t))
  {
    SiblingExists(p, t);
  }

  // Case 5: a red near nephew is turned to the outside.

  function TurnedSide(p: Path): Tree
    requires p != Top && Side(p).Fork? && Near(p, Side(p)).Fork?
  {
    var s := Side(p);
    var c := Near(p, s);
    Join(p, Near(p, c), c.n, BLACK, Join(p, Far(p, c), s.n, RED, Far(p, s)))
  }

  ghost predicate NearRed(p: Path)
    requires p != Top && Side(p).Fork?
  {
    IsBlack(Side(p)) && !IsBlack(Near(p, Side(p))) && IsBlack(Far(p, Side(p)))
  }

  lemma TurnedShort(p: Path, t: Tree)
    requires Short(p, t) && p != Top && Side(p).Fork? && NearRed(p)
    ensures Short(Step(p, p.n, p.mark, TurnedSide(p), p.up), t)
    ensures IsBlack(TurnedSide(p)) && !IsBlack(Far(p, TurnedSide(p)))
  {
    SiblingExists(p, t);
    var c := Near(p, Side(p));
    assert RB(c) && RB(c.left) && RB(c.right);
  }

  // Case 6: a red far nephew pays for the missing black node.

  function Balanced(p: Path, t: Tree): Tree
    requires p != Top && Side(p).Fork?
  {
    var s := Side(p);
    Join(p, Join(p, t, p.n, BLACK, Near(p, s)), s.n, p.mark, Blackened(Far(p, s)))
  }

  lemma BalancedFine(p: Path, t: Tree)
    requires Short(p, t) && p != Top && Side(p).Fork? && IsBlack(Side(p)) && !IsBlack(Far(p, Side(p)))
    ensures Fine(p.up, Balanced(p, t))
  {
    SiblingExists(p, t);
    assert RB(Far(p, Side(p)));
  }

  // ---- the order

  lemma RaisedInOrder(p: Path, t: Tree)
    requires p != Top && Side(p).Fork?
    ensures InOrder(Plug(RaisedPath(p), t)) == InOrder(Plug(p, t))
  {
    var s := Side(p);
    if p.L? {
      RotationInOrder(t, p.n, s.left, s.n, s.right);
      SameOrder(p.up, Fork(Fork(t, p.n, RED, s.left), s.n, BLACK, s.right), Fork(t, p.n, p.mark, s));
    } else {
      RotationInOrder(s.left, s.n, s.right, p.n, t);
      SameOrder(p.up, Fork(s.left, s.n, BLACK, Fork(s.right, p.n, RED, t)), Fork(s, p.n, p.mark, t));
    }
  }

  lemma PaledInOrder(p: Path, t: Tree)
    requires p != Top && Side(p).Fork?
    ensures InOrder(Plug(p.up, Paled(p, t))) == InOrder(Plug(p, t))
  {
    assert InOrder(Side(p).(mark := RED)) == InOrder(Side(p));
    SameOrder(p.up, Paled(p, t), Join(p, t, p.n, p.mark, Side(p)));
  }

  lemma TurnedInOrder(p: Path, t: Tree)
    requires p != Top && Side(p).Fork? && Near(p, Side(p)).Fork?
    ensures InOrder(Plug(Step(p, p.n, p.mark, TurnedSide(p), p.up), t)) == InOrder(Plug(p, t))
  {
    var s := Side(p);
    var c := Near(p, s);
    if p.L? {
      RotationInOrder(c.left, c.n, c.right, s.n, s.right);
    } else {
      RotationInOrder(s.left, s.n, c.left, c.n, c.right);
    }
    assert InOrder(TurnedSide(p)) == InOrder(s);
    SameOrder(p.up, Join(p, t, p.n, p.mark, TurnedSide(p)), Join(p, t, p.n, p.mark, s));
  }

  lemma BalancedInOrder(p: Path, t: Tree)
    requires p != Top && Side(p).Fork?
    ensures InOrder(Plug(p.up, Balanced(p, t))) == InOrder(Plug(p, t))
  {
    var s := Side(p);
    assert InOrder(Blackened(Far(p, s))) == InOrder(Far(p, s));
    if p.L? {
      RotationInOrder(t, p.n, s.left, s.n, s.right);
    } else {
      RotationInOrder(s.left, s.n, s.right, p.n, t);
    }
    SameOrder(p.up, Balanced(p, t), Join(p, t, p.n, p.mark, s));
  }

  // ---- delete repair on the heap

  /** The path to the sibling. */
  function Across(p: Path, t: Tree, n: Node, k: int, up: Path): Path
    requires p != Top
  {
    if p.L? then R(t, n, k, up) else L(n, k, t, up)
  }

  lemma ZipJoin(m: Mem, root: Node?, p: Path, t: Tree, n: Node, k: int, s: Tree, up: Path)
    requires p != Top
    ensures At(m, root, up, Join(p, t, n, k, s)) <==> At(m, root, Step(p, n, k, s, up), t)
    ensures At(m, root, up, Join(p, t, n, k, s)) <==> At(m, root, Across(p, t, n, k, up), s)
  {
    if p.L? {
      ZipLeft(m, root, up, t, n, k, s);
      ZipRight(m, root, up, t, n, k, s);
    } else {
      ZipLeft(m, root, up, s, n, k, t);
      ZipRight(m, root, up, s, n, k, t);
    }
  }

  /** rotate_left or rotate_right, towards the side of `p`. */
  method RotateToward(tree: Root, left: bool, n: Node, q: Node, ghost p: Path, ghost up: Path, ghost t: Tree,
                      ghost k: int, ghost s: Tree)
    requires tree.Sync() && p != Top && left == p.L? && s.Fork? && q == s.n
    requires At(tree.mem, tree.root, up, Join(p, t, n, k, s))
    modifies tree, tree.mem.Keys
    ensures tree.Sync() && At(tree.mem, tree.root, up, Join(p, Join(p, t, n, k, Near(p, s)), q, s.mark, Far(p, s)))
    ensures tree.mem.Keys == old(tree.mem.Keys)
  {
    hide Root.Sync, At;
    if left {
      RotateLeft(tree, n, up, t, k, s.left, q, s.mark, s.right);
    } else {
      RotateRight(tree, n, up, t, k, s.right, q, s.mark, s.left);
    }
  }

  /** The links around a short subtree: its side shows even when it is empty. */
  lemma SiblingFacts(m: Mem, root: Node?, p: Path, t: Tree)
    requires p != Top && Side(p).Fork? && At(m, root, p, t)
    ensures p.n in m && m[p.n].mark == p.mark && m[p.n].parent == Holder(p.up, null)
    ensures RootOf(t) == m[p.n].left <==> p.L?
    ensures Side(p).n == if p.L? then m[p.n].right else m[p.n].left
    ensures Side(p).n in m && m[Side(p).n].mark == Side(p).mark
    ensures m[Side(p).n].left == RootOf(Side(p).left) && m[Side(p).n].right == RootOf(Side(p).right)
    ensures Side(p).left.Fork? ==> Side(p).left.n in m && m[Side(p).left.n].mark == Side(p).left.mark
    ensures Side(p).right.Fork? ==> Side(p).right.n in m && m[Side(p).right.n].mark == Side(p).right.mark
  {
    RootIn(t);
    RootIn(Side(p));
    assert Linked(m, Side(p), p.n);
    assert Linked(m, Side(p).left, Side(p).n) && Linked(m, Side(p).right, Side(p).n);
  }

  /** sibling_parent, for a node that may be missing */
  method Sibling(tree: Root, n: Node?, parent: Node, ghost p: Path, ghost t: Tree) returns (s: Node, left: bool)
    requires tree.Sync() && At(tree.mem, tree.root, p, t) && n == RootOf(t) && p != Top && parent == p.n
    requires Side(p).Fork?
    ensures s == Side(p).n && left == p.L?
    ensures s in tree.mem && s.left == RootOf(Side(p).left) && s.right == RootOf(Side(p).right)
    ensures s.mark == Side(p).mark
    ensures parent.mark == p.mark && parent.parent == Holder(p.up, null)
    ensures s.left != null ==> s.left.mark == Side(p).left.mark
    ensures s.right != null ==> s.right.mark == Side(p).right.mark
  {
    hide Root.Sync, At;
    SiblingFacts(tree.mem, tree.root, p, t);
    tree.Fields(parent);
    left := n == parent.left;
    s := if left then parent.right else parent.left;
    tree.Fields(s);
    if s.left != null { tree.Fields(s.left); }
    if s.right != null { tree.Fields(s.right); }
  }

  method DeleteCase6(tree: Root, n: Node?, parent: Node, ghost p: Path, ghost t: Tree)
    requires tree.Sync() && At(tree.mem, tree.root, p, t) && n == RootOf(t) && p != Top && parent == p.n
    requires Side(p).Fork? && Far(p, Side(p)).Fork?
    modifies tree, tree.mem.Keys
    ensures tree.Sync() && At(tree.mem, tree.root, p.up, Balanced(p, t))
    ensures tree.mem.Keys == old(tree.mem.Keys)
  {
    hide Root.Sync, At;
    ghost var up, s0, k := p.up, Side(p), p.mark;
    var s, left := Sibling(tree, n, parent, p, t);
    var colour := parent.mark;
    var far := if left then s.right else s.left;
    ghost var f := Far(p, s0);
    ghost var s1 := s0.(mark := k);
    ZipJoin(tree.mem, tree.root, p, t, p.n, k, s0, up);
    Paint(tree, s, colour, Across(p, t, p.n, k, up), s0.left, s0.mark, s0.right);
    ZipJoin(tree.mem, tree.root, p, t, p.n, k, s1, up);
    PaintJoin(tree, parent, BLACK, p, up, t, k, s1);
    ZipJoin(tree.mem, tree.root, p, t, p.n, BLACK, s1, up);
    ghost var q := Across(p, t, p.n, BLACK, up);
    ZipJoin(tree.mem, tree.root, p, Near(p, s1), s, k, f, q);
    Paint(tree, far, BLACK, Across(p, Near(p, s1), s, k, q), f.left, f.mark, f.right);
    ghost var s2 := Join(p, Near(p, s1), s, k, Blackened(f));
    ZipJoin(tree.mem, tree.root, p, Near(p, s1), s, k, Blackened(f), q);
    ZipJoin(tree.mem, tree.root, p, t, p.n, BLACK, s2, up);
    RotateToward(tree, left, parent, s, p, up, t, BLACK, s2);
    assert At(tree.mem, tree.root, p.up, Balanced(p, t));
  }

  /** Changes the mark of a node seen as the join of two subtrees. */
  method PaintJoin(tree: Root, n: Node, v: int, ghost p: Path, ghost up: Path, ghost t: Tree, ghost k: int,
                   ghost s: Tree)
    requires tree.Sync() && p != Top && At(tree.mem, tree.root, up, Join(p, t, n, k, s))
    modifies tree, tree.mem.Keys
    ensures tree.Sync() && At(tree.mem, tree.root, up, Join(p, t, n, v, s))
    ensures tree.mem.Keys == old(tree.mem.Keys) && tree.root == old(tree.root)
  {
    hide Root.Sync, At;
    ghost var f := Join(p, t, n, k, s);
    Paint(tree, n, v, up, f.left, k, f.right);
  }

  /** The sibling with its red near child turned to the outside. */
  method TurnSide(tree: Root, left: bool, s: Node, near: Node, ghost p: Path, ghost t: Tree)
    requires tree.Sync() && At(tree.mem, tree.root, p, t) && p != Top && left == p.L?
    requires Side(p).Fork? && s == Side(p).n && Near(p, Side(p)).Fork? && near == Near(p, Side(p)).n
    modifies tree, tree.mem.Keys
    ensures tree.Sync() && At(tree.mem, tree.root, Step(p, p.n, p.mark, TurnedSide(p), p.up), t)
    ensures tree.mem.Keys == old(tree.mem.Keys)
  {
    hide Root.Sync, At;
    ghost var s0 := Side(p);
    ghost var c, f, q := Near(p, s0), Far(p, s0), Across(p, t, p.n, p.mark, p.up);
    ZipJoin(tree.mem, tree.root, p, t, p.n, p.mark, s0, p.up);
    Paint(tree, s, RED, q, s0.left, s0.mark, s0.right);
    ZipJoin(tree.mem, tree.root, p, c, s, RED, f, q);
    ghost var q' := Step(p, s, RED, f, q);
    Paint(tree, near, BLACK, q', c.left, c.mark, c.right);
    ZipJoin(tree.mem, tree.root, p, Blackened(c), s, RED, f, q);
    RotateToward(tree, !left, s, near, q, q, f, RED, Blackened(c));
    ZipJoin(tree.mem, tree.root, p, t, p.n, p.mark, TurnedSide(p), p.up);
  }

  /** The nephews are not both black. */
  method DeleteCase5(tree: Root, n: Node?, parent: Node, ghost p: Path, ghost t: Tree) returns (ghost s': Tree)
    requires tree.Sync() && At(tree.mem, tree.root, p, t) && n == RootOf(t) && p != Top && parent == p.n
    requires Short(p, t) && Side(p).Fork? && IsBlack(Side(p)) && !PaleSibling(p)
    modifies tree, tree.mem.Keys
    ensures tree.Sync() && Is(tree.mem, tree.root, s') && RBTree(s') && InOrder(s') == InOrder(Plug(p, t))
    ensures tree.mem.Keys == old(tree.mem.Keys)
  {
    hide Root.Sync, At, Is, Short;
    SiblingExists(p, t);
    var s, left := Sibling(tree, n, parent, p, t);
    ghost var p' := p;
    if s.mark == BLACK {
      if left && (s.right == null || s.right.mark == BLACK) && s.left != null && s.left.mark == RED {
        p' := Step(p, p.n, p.mark, TurnedSide(p), p.up);
        TurnedShort(p, t);
        TurnedInOrder(p, t);
        TurnSide(tree, left, s, s.left, p, t);
      } else if !left && (s.left == null || s.left.mark == BLACK) && s.right != null && s.right.mark == RED {
        p' := Step(p, p.n, p.mark, TurnedSide(p), p.up);
        TurnedShort(p, t);
        TurnedInOrder(p, t);
        TurnSide(tree, left, s, s.right, p, t);
      }
    }
    NephewMarks(p);
    BalancedFine(p', t);
    BalancedInOrder(p', t);
    DeleteCase6(tree, n, parent, p', t);
    s' := Plug(p'.up, Balanced(p', t));
    FinePlug(p'.up, Balanced(p', t));
    AtIsPlug(tree.mem, tree.root, p'.up, Balanced(p', t));
  }

  lemma NephewMarks(p: Path)
    requires p != Top && Side(p).Fork? && RB(Side(p))
    ensures Near(p, Side(p)).Fork? ==> Near(p, Side(p)).mark == RED || Near(p, Side(p)).mark == BLACK
    ensures Far(p, Side(p)).Fork? ==> Far(p, Side(p)).mark == RED || Far(p, Side(p)).mark == BLACK
  {
    assert RB(Side(p).left) && RB(Side(p).right);
  }

  /** Paints the sibling red and makes sure that the parent is black. */
  method Pale(tree: Root, parent: Node, s: Node, ghost p: Path, ghost t: Tree)
    requires tree.Sync() && At(tree.mem, tree.root, p, t) && p != Top && parent == p.n && Side(p).Fork?
    requires s == Side(p).n
    requires p.mark == parent.mark
    modifies tree, tree.mem.Keys
    ensures tree.Sync() && At(tree.mem, tree.root, p.up, Paled(p, t))
    ensures tree.mem.Keys == old(tree.mem.Keys)
  {
    hide Root.Sync, At;
    ghost var s0 := Side(p);
    var black := parent.mark == BLACK;
    ZipJoin(tree.mem, tree.root, p, t, p.n, p.mark, s0, p.up);
    Paint(tree, s, RED, Across(p, t, p.n, p.mark, p.up), s0.left, s0.mark, s0.right);
    ZipJoin(tree.mem, tree.root, p, t, p.n, p.mark, s0.(mark := RED), p.up);
    if !black {
      PaintJoin(tree, parent, BLACK, p, p.up, t, p.mark, s0.(mark := RED));
    }
    assert At(tree.mem, tree.root, p.up, Paled(p, t));
  }

  method DeleteCase4(tree: Root, n: Node?, parent: Node, ghost p: Path, ghost t: Tree) returns (ghost s': Tree)
    requires tree.Sync() && At(tree.mem, tree.root, p, t) && n == RootOf(t) && p != Top && parent == p.n
    requires Short(p, t) && Side(p).Fork? && IsBlack(Side(p)) && (p.mark == RED || !PaleSibling(p))
    modifies tree, tree.mem.Keys
    ensures tree.Sync() && Is(tree.mem, tree.root, s') && RBTree(s') && InOrder(s') == InOrder(Plug(p, t))
    ensures tree.mem.Keys == old(tree.mem.Keys)
  {
    hide Root.Sync, At, Is, Short;
    SiblingExists(p, t);
    NephewMarks(p);
    var s, left := Sibling(tree, n, parent, p, t);
    if parent.mark == RED && s.mark == BLACK && (s.left == null || s.left.mark == BLACK)
      && (s.right == null || s.right.mark == BLACK) {
      PaledFine(p, t);
      PaledInOrder(p, t);
      Pale(tree, parent, s, p, t);
      s' := Plug(p.up, Paled(p, t));
      FinePlug(p.up, Paled(p, t));
      AtIsPlug(tree.mem, tree.root, p.up, Paled(p, t));
    } else {
      s' := DeleteCase5(tree, n, parent, p, t);
    }
  }

  /** How far the repair can still climb; a red parent ends it. */
  ghost function Climb(p: Path): nat {
    if p == Top then 0 else if UpRed(p) then Depth(p) - 1 else Depth(p)
  }

  ghost function Depth(p: Path): (d: nat)
    ensures p != Top ==> d > 0
  {
    if p == Top then 0 else 1 + Depth(p.up)
  }

  method DeleteCase3(tree: Root, n: Node?, parent: Node, ghost p: Path, ghost t: Tree) returns (ghost s': Tree)
    requires tree.Sync() && At(tree.mem, tree.root, p, t) && n == RootOf(t) && p != Top && parent == p.n
    requires Short(p, t) && Side(p).Fork? && IsBlack(Side(p))
    modifies tree, tree.mem.Keys
    ensures tree.Sync() && Is(tree.mem, tree.root, s') && RBTree(s') && InOrder(s') == InOrder(Plug(p, t))
    ensures tree.mem.Keys == old(tree.mem.Keys)
    decreases Climb(p), 0
  {
    hide Root.Sync, At, Is, Short;
    SiblingExists(p, t);
    NephewMarks(p);
    var s, left := Sibling(tree, n, parent, p, t);
    if parent.mark == BLACK && s.mark == BLACK && (s.left == null || s.left.mark == BLACK)
      && (s.right == null || s.right.mark == BLACK) {
      PaledShort(p, t);
      PaledInOrder(p, t);
      var g := parent.parent;
      Pale(tree, parent, s, p, t);
      s' := DeleteCase1(tree, parent, g, p.up, Paled(p, t));
    } else {
      s' := DeleteCase4(tree, n, parent, p, t);
    }
  }

  method DeleteCase2(tree: Root, n: Node?, parent: Node, ghost p: Path, ghost t: Tree) returns (ghost s': Tree)
    requires tree.Sync() && At(tree.mem, tree.root, p, t) && n == RootOf(t) && p != Top && parent == p.n && Short(p, t)
    modifies tree, tree.mem.Keys
    ensures tree.Sync() && Is(tree.mem, tree.root, s') && RBTree(s') && InOrder(s') == InOrder(Plug(p, t))
    ensures tree.mem.Keys == old(tree.mem.Keys)
    decreases Depth(p), 1
  {
    hide Root.Sync, At, Is, Short;
    SiblingExists(p, t);
    var s, left := Sibling(tree, n, parent, p, t);
    ghost var p' := p;
    if s.mark == RED {
      p' := RaisedPath(p);
      assert Depth(p'.up) == 1 + Depth(p.up);
      RaisedShort(p, t);
      RaisedInOrder(p, t);
      Raise(tree, left, parent, s, p, t);
    }
    s' := DeleteCase3(tree, n, parent, p', t);
  }

  /** Case 2: paints the parent red and the red sibling black, and rotates the sibling up. */
  method Raise(tree: Root, left: bool, parent: Node, s: Node, ghost p: Path, ghost t: Tree)
    requires tree.Sync() && At(tree.mem, tree.root, p, t) && p != Top && parent == p.n && Side(p).Fork?
    requires s == Side(p).n && left == p.L?
    modifies tree, tree.mem.Keys
    ensures tree.Sync() && At(tree.mem, tree.root, RaisedPath(p), t)
    ensures tree.mem.Keys == old(tree.mem.Keys)
  {
    hide Root.Sync, At;
    ghost var s0 := Side(p);
    ZipJoin(tree.mem, tree.root, p, t, p.n, p.mark, s0, p.up);
    PaintJoin(tree, parent, RED, p, p.up, t, p.mark, s0);
    ZipJoin(tree.mem, tree.root, p, t, p.n, RED, s0, p.up);
    Paint(tree, s, BLACK, Across(p, t, p.n, RED, p.up), s0.left, s0.mark, s0.right);
    ZipJoin(tree.mem, tree.root, p, t, p.n, RED, Blackened(s0), p.up);
    RotateToward(tree, left, parent, s, p, p.up, t, RED, Blackened(s0));
    ZipJoin(tree.mem, tree.root, p, Join(p, t, p.n, RED, Near(p, s0)), s, BLACK, Far(p, s0), p.up);
    ZipJoin(tree.mem, tree.root, p, t, p.n, RED, Near(p, s0), Step(p, s, BLACK, Far(p, s0), p.up));
  }

  method DeleteCase1(tree: Root, node: Node?, parent: Node?, ghost p: Path, ghost t: Tree) returns (ghost s': Tree)
    requires tree.Sync() && At(tree.mem, tree.root, p, t) && node == RootOf(t) && parent == Holder(p, null)
    requires Short(p, t)
    modifies tree, tree.mem.Keys
    ensures tree.Sync() && Is(tree.mem, tree.root, s') && RBTree(s') && InOrder(s') == InOrder(Plug(p, t))
    ensures tree.mem.Keys == old(tree.mem.Keys)
    decreases Depth(p), 2
  {
    hide Root.Sync, At, Is;
    if parent != null {
      s' := DeleteCase2(tree, node, parent, p, t);
    } else {
      s' := t;
      AtIsPlug(tree.mem, tree.root, p, t);
    }
  }

  // ---- delete

  /** Taking out a red node, or a black one whose child is red, needs no repair. Otherwise
      the child is missing and the place is one black node short. */
  lemma SplicedOut(p: Path, l: Tree, n: Node, k: int, r: Tree)
    requires Fine(p, Fork(l, n, k, r)) && (l.Leaf? || r.Leaf?)
    ensures k == RED || k == BLACK
    ensures k == RED ==> Fine(p, OnlyChild(l, r))
    ensures k != RED && !IsBlack(OnlyChild(l, r)) ==> Fine(p, Blackened(OnlyChild(l, r)))
    ensures k != RED && IsBlack(OnlyChild(l, r)) ==> Short(p, OnlyChild(l, r))
  {
    assert RB(OnlyChild(l, r));
    OnlyLeafFlat(OnlyChild(l, r));
  }

  /** A black root over a black height of 0 is no root at all. */
  lemma OnlyLeafFlat(t: Tree)
    requires RB(t)
    ensures IsBlack(t) && BlackHeight(t) == 0 ==> t.Leaf?
    ensures t.Fork? ==> t.mark == RED || t.mark == BLACK
  {
    if t.Fork? { BlackHeightNonNegative(t.left); }
  }

  lemma {:induction false} SwapKeepsRB(a: Node, b: Node, t: Tree)
    ensures RB(SwapTree(a, b, t)) <==> RB(t)
    ensures BlackHeight(SwapTree(a, b, t)) == BlackHeight(t) && (IsBlack(SwapTree(a, b, t)) <==> IsBlack(t))
  {
    if t.Fork? {
      SwapKeepsRB(a, b, t.left);
      SwapKeepsRB(a, b, t.right);
    }
  }

  /** rb_tree_delete_one_child */
  method DeleteOneChild(tree: Root, node: Node, ghost p: Path, ghost l: Tree, ghost k: int, ghost r: Tree)
    returns (ghost s: Tree)
    requires tree.Sync() && At(tree.mem, tree.root, p, Fork(l, node, k, r)) && (l.Leaf? || r.Leaf?)
    requires Fine(p, Fork(l, node, k, r))
    modifies tree, tree.mem.Keys
    ensures tree.Sync() && Is(tree.mem, tree.root, s) && RBTree(s) && InOrder(s) == InOrder(Plug(p, OnlyChild(l, r)))
    ensures tree.mem.Keys == old(tree.mem.Keys)
  {
    hide Root.Sync, At, Is, Fine, Short;
    ghost var c := OnlyChild(l, r);
    NodeFacts(tree.mem, tree.root, p, Fork(l, node, k, r));
    tree.Fields(node);
    SplicedOut(p, l, node, k, r);
    var child := if node.right == null then node.left else node.right;
    SpliceOut(tree, node, child, p, l, k, r);
    if c.Fork? {
      NodeFacts(tree.mem, tree.root, p, c);
      tree.Fields(c.n);
    }
    if node.mark == BLACK {
      if child != null && child.mark == RED {
        Paint(tree, child, BLACK, p, c.left, c.mark, c.right);
        SameOrder(p, Blackened(c), c);
        s := Plug(p, Blackened(c));
        FinePlug(p, Blackened(c));
        AtIsPlug(tree.mem, tree.root, p, Blackened(c));
      } else {
        s := DeleteCase1(tree, child, node.parent, p, c);
      }
    } else {
      s := Plug(p, c);
      FinePlug(p, c);
      AtIsPlug(tree.mem, tree.root, p, c);
    }
  }

  /** rb_tree_nocmp_delete: the tree stays red-black and loses exactly the given node. */
  method Delete(tree: Root, node: Node, ghost t: Tree) returns (ghost s: Tree, ghost k: nat)
    requires tree.Sync() && Is(tree.mem, tree.root, t) && RBTree(t) && node in Nodes(t)
    modifies tree, tree.mem.Keys
    ensures tree.Sync() && Is(tree.mem, tree.root, s) && RBTree(s)
    ensures Inserted(InOrder(t), InOrder(s), node, k)
    ensures tree.mem.Keys == old(tree.mem.Keys)
  {
    hide Root.Sync, At, Is, RBTree;
    ghost var where := Locate(Top, t, node);
    ghost var p, f := where.0, where.1;
    AtIsPlug(tree.mem, tree.root, p, f);
    FinePlug(p, f);
    NodeFacts(tree.mem, tree.root, p, f);
    tree.Fields(node);
    if node.left != null && node.right != null {
      s, k := DeleteTwoChildren(tree, node, p, f, t);
      return;
    }
    s := DeleteOneChild(tree, node, p, f.left, f.mark, f.right);
    OneChildOrder(p, f);
    k := |Before(p)| + |InOrder(f.left)|;
  }

  /** A node with two children first trades places with its predecessor. */
  method DeleteTwoChildren(tree: Root, node: Node, ghost p: Path, ghost f: Tree, ghost t: Tree)
    returns (ghost s: Tree, ghost k: nat)
    requires tree.Sync() && Is(tree.mem, tree.root, t) && RBTree(t) && t == Plug(p, f) && f.Fork? && f.n == node
    requires f.left.Fork?
    modifies tree, tree.mem.Keys
    ensures tree.Sync() && Is(tree.mem, tree.root, s) && RBTree(s)
    ensures Inserted(InOrder(t), InOrder(s), node, k)
    ensures tree.mem.Keys == old(tree.mem.Keys)
  {
    hide Root.Sync, At, Is, RBTree, Inserted, Pair, Exchangeable, InOrder, Before, Linked, Append, SwapTree,
         PathNodes, Nodes;
    AtIsPlug(tree.mem, tree.root, p, f);
    NodeFacts(tree.mem, tree.root, p, f);
    LeftLinked(tree.mem, tree.root, p, f);
    tree.Fields(node);
    ghost var q, s2;
    var node2;
    node2, q, s2 := Rightmost(tree, node.left, f.left, node);
    PredecessorExchangeable(tree.mem, tree.root, t, p, q, s2.left, node2, s2.mark, node, f.mark, f.right);
    ExchangeFacts(tree.mem, tree.root, t, node, node2);
    PredecessorSwapped(t, p, q, s2.left, node2, s2.mark, node, f.mark, f.right);
    PredecessorOrder(t, p, q, s2.left, node2, s2.mark, node, f.mark, f.right);
    SwappedRBTree(node, node2, t);
    Exchange(tree, node, node2, t);
    ghost var q' := Append(q, L(node2, f.mark, f.right, p));
    ghost var f' := Fork(s2.left, node, s2.mark, Leaf);
    AtIsPlug(tree.mem, tree.root, q', f');
    FinePlug(q', f');
    s := DeleteOneChild(tree, node, q', s2.left, s2.mark, Leaf);
    k := |Before(p)| + |Before(q)| + |InOrder(s2.left)| + 1;
  }

  lemma SwappedRBTree(a: Node, b: Node, t: Tree)
    requires RBTree(t)
    ensures RBTree(SwapTree(a, b, t))
  {
    SwapKeepsRB(a, b, t);
  }

  lemma LeftLinked(m: Mem, root: Node?, p: Path, f: Tree)
    requires f.Fork? && At(m, root, p, f)
    ensures Linked(m, f.left, f.n) && Linked(m, f.right, f.n)
  {
  }
}
