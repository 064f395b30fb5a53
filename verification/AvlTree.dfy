/** `avltree.c`: AVL trees with parent links. A node's mark is its balance. */
module AvlTree {
  import opened IntrusiveTree

  function Max(a: int, b: int): int {
    if a < b then b else a
  }

  function Height(t: Tree): (h: int)
    ensures h >= 0
  {
    if t.Leaf? then 0 else 1 + Max(Height(t.left), Height(t.right))
  }

  /** Every balance is the height difference, and at most one. */
  ghost predicate AVL(t: Tree) {
    match t
    case Leaf => true
    case Fork(l, _, k, r) => AVL(l) && AVL(r) && k == Height(r) - Height(l) && -1 <= k <= 1
  }

  /** A path that a subtree of height `h` completes to an AVL tree. */
  ghost predicate AVLPath(p: Path, h: int) {
    match p
    case Top => true
    case L(_, k, r, up) => AVL(r) && k == Height(r) - h && -1 <= k <= 1 && AVLPath(up, 1 + Max(h, Height(r)))
    case R(l, _, k, up) => AVL(l) && k == h - Height(l) && -1 <= k <= 1 && AVLPath(up, 1 + Max(h, Height(l)))
  }

  // ---- rotations on values. `d` says that the heavy side is the right one.

  function Sign(d: bool): int {
    if d then 1 else -1
  }

  function Join(d: bool, light: Tree, n: Node, k: int, heavy: Tree): Tree {
    if d then Fork(light, n, k, heavy) else Fork(heavy, n, k, light)
  }

  function Inner(d: bool, z: Tree): Tree
    requires z.Fork?
  {
    if d then z.left else z.right
  }

  function Outer(d: bool, z: Tree): Tree
    requires z.Fork?
  {
    if d then z.right else z.left
  }

  /** rotate_left and rotate_right, with their new balances. */
  function Single(d: bool, light: Tree, x: Node, z: Tree): Tree
    requires z.Fork?
  {
    var even := z.mark == 0;
    Join(d, Join(d, light, x, if even then Sign(d) else 0, Inner(d, z)), z.n, if even then -Sign(d) else 0, Outer(d, z))
  }

  /** rotate_rightleft and rotate_leftright. */
  function Double(d: bool, light: Tree, x: Node, z: Tree): Tree
    requires z.Fork? && Inner(d, z).Fork?
  {
    var y := Inner(d, z);
    Join(d, Join(d, light, x, if y.mark == Sign(d) then -Sign(d) else 0, Inner(d, y)), y.n, 0,
         Join(d, Outer(d, y), z.n, if y.mark == -Sign(d) then Sign(d) else 0, Outer(d, z)))
  }

  /** The rotation that the heavy child's balance asks for. */
  function Rebalanced(d: bool, light: Tree, x: Node, z: Tree): Tree
    requires z.Fork? && (z.mark == -Sign(d) ==> Inner(d, z).Fork?)
  {
    if z.mark == -Sign(d) then Double(d, light, x, z) else Single(d, light, x, z)
  }

  lemma JoinHeight(d: bool, light: Tree, n: Node, k: int, heavy: Tree)
    ensures Height(Join(d, light, n, k, heavy)) == 1 + Max(Height(light), Height(heavy))
    ensures AVL(Join(d, light, n, k, heavy)) <==>
            AVL(light) && AVL(heavy) && k == Sign(d) * (Height(heavy) - Height(light)) && -1 <= k <= 1
  {
  }

  lemma JoinParts(d: bool, z: Tree)
    requires z.Fork?
    ensures z == Join(d, Inner(d, z), z.n, z.mark, Outer(d, z))
  {
  }

  lemma SingleAVL(d: bool, light: Tree, x: Node, z: Tree)
    requires AVL(light) && AVL(z) && Height(z) == Height(light) + 2 && z.Fork? && z.mark != -Sign(d)
    ensures AVL(Single(d, light, x, z))
    ensures Height(Single(d, light, x, z)) == if z.mark == 0 then Height(z) + 1 else Height(z)
  {
    hide Height, AVL, Join, Inner, Outer;
    JoinParts(d, z);
    JoinHeight(d, Inner(d, z), z.n, z.mark, Outer(d, z));
    var kx := if z.mark == 0 then Sign(d) else 0;
    var kz := if z.mark == 0 then -Sign(d) else 0;
    JoinHeight(d, light, x, kx, Inner(d, z));
    JoinHeight(d, Join(d, light, x, kx, Inner(d, z)), z.n, kz, Outer(d, z));
  }

  lemma DoubleAVL(d: bool, light: Tree, x: Node, z: Tree)
    requires AVL(light) && AVL(z) && Height(z) == Height(light) + 2 && z.Fork? && z.mark == -Sign(d)
    ensures Inner(d, z).Fork? && AVL(Double(d, light, x, z)) && Height(Double(d, light, x, z)) == Height(z)
  {
    JoinParts(d, z);
    JoinHeight(d, Inner(d, z), z.n, z.mark, Outer(d, z));
    var y := Inner(d, z);
    assert y.Fork?;
    DoubleParts(d, light, x, z, y);
  }

  lemma DoubleParts(d: bool, light: Tree, x: Node, z: Tree, y: Tree)
    requires z.Fork? && y.Fork? && y == Inner(d, z)
    requires AVL(light) && AVL(y) && AVL(Outer(d, z))
    requires Height(light) == Height(Outer(d, z)) == Height(y) - 1
    ensures AVL(Double(d, light, x, z)) && Height(Double(d, light, x, z)) == Height(y) + 1
  {
    hide Height, AVL, Join, Inner, Outer;
    JoinParts(d, y);
    JoinHeight(d, Inner(d, y), y.n, y.mark, Outer(d, y));
    var kx := if y.mark == Sign(d) then -Sign(d) else 0;
    var kz := if y.mark == -Sign(d) then Sign(d) else 0;
    JoinHeight(d, light, x, kx, Inner(d, y));
    JoinHeight(d, Outer(d, y), z.n, kz, Outer(d, z));
    JoinHeight(d, Join(d, light, x, kx, Inner(d, y)), y.n, 0, Join(d, Outer(d, y), z.n, kz, Outer(d, z)));
  }

  /** A child that is two levels higher than the other gives way, and the height comes down
      by one unless the child was even. */
  lemma RebalancedAVL(d: bool, light: Tree, x: Node, z: Tree)
    requires AVL(light) && AVL(z) && Height(z) == Height(light) + 2
    ensures z.Fork? && (z.mark == -Sign(d) ==> Inner(d, z).Fork?)
    ensures AVL(Rebalanced(d, light, x, z))
    ensures Height(Rebalanced(d, light, x, z)) == if z.mark == 0 then Height(z) + 1 else Height(z)
  {
    if z.mark == -Sign(d) {
      DoubleAVL(d, light, x, z);
    } else {
      SingleAVL(d, light, x, z);
    }
  }

  lemma RebalancedInOrder(d: bool, light: Tree, x: Node, k: int, z: Tree)
    requires z.Fork? && (z.mark == -Sign(d) ==> Inner(d, z).Fork?)
    ensures InOrder(Rebalanced(d, light, x, z)) == InOrder(Join(d, light, x, k, z))
  {
    if z.mark == -Sign(d) {
      var y := Inner(d, z);
      if d {
        RotationInOrder(y.left, y.n, y.right, z.n, z.right);
        RotationInOrder(light, x, y.left, y.n, Fork(y.right, z.n, 0, z.right));
        InOrderFork(z);
        InOrderFork(y);
      } else {
        RotationInOrder(z.left, z.n, y.left, y.n, y.right);
        RotationInOrder(Fork(z.left, z.n, 0, y.left), y.n, y.right, x, light);
        InOrderFork(z);
        InOrderFork(y);
      }
    } else if d {
      RotationInOrder(light, x, z.left, z.n, z.right);
    } else {
      RotationInOrder(z.left, z.n, z.right, x, light);
    }
  }

  // ---- double rotations on the links

  /** Who is where below `x` before a double rotation to the left. */
  lemma InnerLeftFacts(m: Mem, root: Node?, path: Path, l: Tree, x: Node, k: int, b1: Tree, y: Node, my: int,
                       b2: Tree, z: Node, mz: int, c: Tree)
    requires At(m, root, path, Fork(l, x, k, Fork(Fork(b1, y, my, b2), z, mz, c)))
    ensures x in m && m[x].parent == Holder(path, null) && x !in PathNodes(path)
    ensures z in m && z != x && z !in PathNodes(path) && m[z].left == y
    ensures y in m && y != x && y != z && y !in PathNodes(path) && m[y].left == RootOf(b1) && m[y].right == RootOf(b2)
    ensures b1.Fork? ==> b1.n in m && b1.n !in {x, y, z} && b1.n !in PathNodes(path)
    ensures b2.Fork? ==> b2.n in m && b2.n !in {x, y, z} && b2.n !in PathNodes(path)
    ensures Hangs(m, root, path, x) && (path == Top || path.n in m)
    ensures At(m, root, R(l, x, k, path), Fork(Fork(b1, y, my, b2), z, mz, c))
  {
    hide At, Linked, Proper, LinkedPath, ProperPath, TopOf, Nodes;
    var yt := Fork(b1, y, my, b2);
    var zt := Fork(yt, z, mz, c);
    var p1 := R(l, x, k, path);
    var p2 := L(z, mz, c, p1);
    ForkFacts(m, root, path, Fork(l, x, k, zt));
    ZipRight(m, root, path, l, x, k, zt);
    ForkFacts(m, root, p1, zt);
    ZipLeft(m, root, p1, yt, z, mz, c);
    ForkFacts(m, root, p2, yt);
    ChildFacts(m, root, p2, yt);
  }

  lemma ChildFacts(m: Mem, root: Node?, p: Path, t: Tree)
    requires t.Fork? && At(m, root, p, t)
    ensures t.left.Fork? ==> t.left.n in m && t.left.n != t.n && t.left.n !in PathNodes(p)
    ensures t.right.Fork? ==> t.right.n in m && t.right.n != t.n && t.right.n !in PathNodes(p)
  {
    RootIn(t.left);
    RootIn(t.right);
    assert Linked(m, t.left, t.n) && Linked(m, t.right, t.n);
  }

  /** The links after both turns, before the parent. */
  ghost function TurnedRightLeft(m: Mem, x: Node, y: Node, z: Node, b1: Node?, b2: Node?): (m': Mem)
    requires x in m && y in m && z in m && (b1 == null || b1 in m) && (b2 == null || b2 in m)
    ensures m'.Keys == m.Keys
  {
    TurnedLeft(TurnedRight(m, z, y, b2), x, y, b1)
  }

  /** A turn to the left overwrites the link that leads to `y`. */
  lemma TurnForgetsRight(m: Mem, x: Node, y: Node, b: Node?)
    requires x in m && y in m && x != y && b != y && (b == null || b in m)
    ensures TurnedLeft(PutParent(PutRight(m, x, y), y, x), x, y, b) == PutParent(TurnedLeft(m, x, y, b), y, x)
  {
  }

  lemma TwiceParent(m: Mem, path: Path, x: Node, y: Node)
    requires y in m && (path == Top || (path.n in m && path.n != y))
    ensures PutParent(PutChild(PutParent(m, y, x), path, y), y, Holder(path, null)) ==
      PutParent(PutChild(m, path, y), y, Holder(path, null))
  {
  }

  lemma RotatedRightLeft(m: Mem, root: Node?, path: Path, l: Tree, x: Node, k: int, b1: Tree, y: Node, my: int,
                         b2: Tree, z: Node, mz: int, c: Tree)
    requires At(m, root, path, Fork(l, x, k, Fork(Fork(b1, y, my, b2), z, mz, c)))
    requires x in m && y in m && z in m && (b1.Leaf? || b1.n in m) && (b2.Leaf? || b2.n in m)
    requires (path == Top || path.n in m)
    ensures At(PutParent(PutChild(TurnedRightLeft(m, x, y, z, RootOf(b1), RootOf(b2)), path, y), y,
                         Holder(path, null)), TopOf(path, y), path,
               Fork(Fork(l, x, k, b1), y, my, Fork(b2, z, mz, c)))
  {
    hide At, TurnedLeft, TurnedRight, PutChild, PathNodes;
    InnerLeftFacts(m, root, path, l, x, k, b1, y, my, b2, z, mz, c);
    assert path != Top ==> path.n in PathNodes(path) by { PathHead(path); }
    var p1 := R(l, x, k, path);
    RotatedRight(m, root, p1, c, z, mz, b2, y, my, b1);
    var m1 := TurnedRight(m, z, y, RootOf(b2));
    ChildBelow(m1, l, x, k, path, y);
    TurnForgetsRight(m1, x, y, RootOf(b1));
    TwiceParent(TurnedLeft(m1, x, y, RootOf(b1)), path, x, y);
    var m2 := RightRotation(m, p1, z, y, RootOf(b2));
    assert m2 == PutParent(PutRight(m1, x, y), y, x);
    ZipRight(m2, TopOf(p1, y), path, l, x, k, Fork(b1, y, my, Fork(b2, z, mz, c)));
    RotatedLeft(m2, TopOf(p1, y), path, l, x, k, b1, y, my, Fork(b2, z, mz, c));
  }

  lemma PathHead(p: Path)
    ensures p != Top ==> p.n in PathNodes(p)
  {
  }

  lemma ChildBelow(m: Mem, l: Tree, x: Node, k: int, path: Path, v: Node)
    requires x in m
    ensures PutChild(m, R(l, x, k, path), v) == PutRight(m, x, v)
    ensures PutChild(m, L(x, k, l, path), v) == PutLeft(m, x, v)
  {
  }

  lemma RightLeftKeepsPath(m: Mem, root: Node?, path: Path, x: Node, y: Node, z: Node, b1: Node?, b2: Node?)
    requires Hangs(m, root, path, x) && {x, y, z} <= m.Keys && {x, y, z} !! PathNodes(path)
    requires b1 != null ==> b1 in m && b1 !in PathNodes(path)
    requires b2 != null ==> b2 in m && b2 !in PathNodes(path)
    ensures Hangs(TurnedRightLeft(m, x, y, z, b1, b2), root, path, x)
  {
    PathKept(m, TurnedRightLeft(m, x, y, z, b1, b2), path, x, null);
  }

  /** rotate_rightleft without the balances: `y`, the left child of the right child, takes the place of `x`. */
  method RotateRightLeft(tree: Root, x: Node, z: Node, ghost path: Path, ghost l: Tree, ghost k: int, ghost b1: Tree,
                         y: Node, ghost my: int, ghost b2: Tree, ghost mz: int, ghost c: Tree)
    requires tree.Sync() && At(tree.mem, tree.root, path, Fork(l, x, k, Fork(Fork(b1, y, my, b2), z, mz, c)))
    modifies tree, tree.mem.Keys
    ensures tree.Sync() && At(tree.mem, tree.root, path, Fork(Fork(l, x, k, b1), y, my, Fork(b2, z, mz, c)))
    ensures tree.mem.Keys == old(tree.mem.Keys)
  {
    hide Root.Sync, At, Hangs, PutParent, PutChild, TurnedLeft, TurnedRight, PathNodes;
    ghost var m, root := tree.mem, tree.root;
    InnerLeftFacts(m, root, path, l, x, k, b1, y, my, b2, z, mz, c);
    RotatedRightLeft(m, root, path, l, x, k, b1, y, my, b2, z, mz, c);
    RightLeftKeepsPath(m, root, path, x, y, z, RootOf(b1), RootOf(b2));
    TurnLeaves(m, z, y, RootOf(b2));
    tree.Fields(x);
    tree.Fields(y);
    var parent := x.parent;
    TurnRight(tree, z, y);
    tree.Fields(y);
    TurnLeft(tree, x, y);
    tree.Hang(path, parent, x, y);
    tree.SetParent(y, parent);
  }

  lemma TurnLeaves(m: Mem, z: Node, y: Node, b: Node?)
    requires z in m && y in m && (b == null || b in m)
    ensures z != y ==> TurnedRight(m, z, y, b)[y].left == m[y].left && TurnedLeft(m, z, y, b)[y].right == m[y].right
  {
  }

  /** The mirror images. */
  lemma InnerRightFacts(m: Mem, root: Node?, path: Path, l: Tree, x: Node, k: int, b1: Tree, y: Node, my: int,
                        b2: Tree, z: Node, mz: int, c: Tree)
    requires At(m, root, path, Fork(Fork(c, z, mz, Fork(b2, y, my, b1)), x, k, l))
    ensures x in m && m[x].parent == Holder(path, null) && x !in PathNodes(path)
    ensures z in m && z != x && z !in PathNodes(path) && m[z].right == y
    ensures y in m && y != x && y != z && y !in PathNodes(path) && m[y].right == RootOf(b1) && m[y].left == RootOf(b2)
    ensures b1.Fork? ==> b1.n in m && b1.n !in {x, y, z} && b1.n !in PathNodes(path)
    ensures b2.Fork? ==> b2.n in m && b2.n !in {x, y, z} && b2.n !in PathNodes(path)
    ensures Hangs(m, root, path, x) && (path == Top || path.n in m)
    ensures At(m, root, L(x, k, l, path), Fork(c, z, mz, Fork(b2, y, my, b1)))
  {
    hide At, Linked, Proper, LinkedPath, ProperPath, TopOf, Nodes;
    var yt := Fork(b2, y, my, b1);
    var zt := Fork(c, z, mz, yt);
    var p1 := L(x, k, l, path);
    var p2 := R(c, z, mz, p1);
    ForkFacts(m, root, path, Fork(zt, x, k, l));
    ZipLeft(m, root, path, zt, x, k, l);
    ForkFacts(m, root, p1, zt);
    ZipRight(m, root, p1, c, z, mz, yt);
    ForkFacts(m, root, p2, yt);
    ChildFacts(m, root, p2, yt);
  }

  ghost function TurnedLeftRight(m: Mem, x: Node, y: Node, z: Node, b1: Node?, b2: Node?): (m': Mem)
    requires x in m && y in m && z in m && (b1 == null || b1 in m) && (b2 == null || b2 in m)
    ensures m'.Keys == m.Keys
  {
    TurnedRight(TurnedLeft(m, z, y, b2), x, y, b1)
  }

  lemma TurnForgetsLeft(m: Mem, x: Node, y: Node, b: Node?)
    requires x in m && y in m && x != y && b != y && (b == null || b in m)
    ensures TurnedRight(PutParent(PutLeft(m, x, y), y, x), x, y, b) == PutParent(TurnedRight(m, x, y, b), y, x)
  {
  }

  lemma RotatedLeftRight(m: Mem, root: Node?, path: Path, l: Tree, x: Node, k: int, b1: Tree, y: Node, my: int,
                         b2: Tree, z: Node, mz: int, c: Tree)
    requires At(m, root, path, Fork(Fork(c, z, mz, Fork(b2, y, my, b1)), x, k, l))
    requires x in m && y in m && z in m && (b1.Leaf? || b1.n in m) && (b2.Leaf? || b2.n in m)
    requires (path == Top || path.n in m)
    ensures At(PutParent(PutChild(TurnedLeftRight(m, x, y, z, RootOf(b1), RootOf(b2)), path, y), y,
                         Holder(path, null)), TopOf(path, y), path,
               Fork(Fork(c, z, mz, b2), y, my, Fork(b1, x, k, l)))
  {
    hide At, TurnedLeft, TurnedRight, PutChild, PathNodes;
    InnerRightFacts(m, root, path, l, x, k, b1, y, my, b2, z, mz, c);
    assert path != Top ==> path.n in PathNodes(path) by { PathHead(path); }
    var p1 := L(x, k, l, path);
    RotatedLeft(m, root, p1, c, z, mz, b2, y, my, b1);
    var m1 := TurnedLeft(m, z, y, RootOf(b2));
    ChildBelow(m1, l, x, k, path, y);
    TurnForgetsLeft(m1, x, y, RootOf(b1));
    TwiceParent(TurnedRight(m1, x, y, RootOf(b1)), path, x, y);
    var m2 := LeftRotation(m, p1, z, y, RootOf(b2));
    assert m2 == PutParent(PutLeft(m1, x, y), y, x);
    ZipLeft(m2, TopOf(p1, y), path, Fork(Fork(c, z, mz, b2), y, my, b1), x, k, l);
    RotatedRight(m2, TopOf(p1, y), path, l, x, k, b1, y, my, Fork(c, z, mz, b2));
  }

  lemma LeftRightKeepsPath(m: Mem, root: Node?, path: Path, x: Node, y: Node, z: Node, b1: Node?, b2: Node?)
    requires Hangs(m, root, path, x) && {x, y, z} <= m.Keys && {x, y, z} !! PathNodes(path)
    requires b1 != null ==> b1 in m && b1 !in PathNodes(path)
    requires b2 != null ==> b2 in m && b2 !in PathNodes(path)
    ensures Hangs(TurnedLeftRight(m, x, y, z, b1, b2), root, path, x)
  {
    PathKept(m, TurnedLeftRight(m, x, y, z, b1, b2), path, x, null);
  }

  /** rotate_leftright without the balances. */
  method RotateLeftRight(tree: Root, x: Node, z: Node, ghost path: Path, ghost l: Tree, ghost k: int, ghost b1: Tree,
                         y: Node, ghost my: int, ghost b2: Tree, ghost mz: int, ghost c: Tree)
    requires tree.Sync() && At(tree.mem, tree.root, path, Fork(Fork(c, z, mz, Fork(b2, y, my, b1)), x, k, l))
    modifies tree, tree.mem.Keys
    ensures tree.Sync() && At(tree.mem, tree.root, path, Fork(Fork(c, z, mz, b2), y, my, Fork(b1, x, k, l)))
    ensures tree.mem.Keys == old(tree.mem.Keys)
  {
    hide Root.Sync, At, Hangs, PutParent, PutChild, TurnedLeft, TurnedRight, PathNodes;
    ghost var m, root := tree.mem, tree.root;
    InnerRightFacts(m, root, path, l, x, k, b1, y, my, b2, z, mz, c);
    RotatedLeftRight(m, root, path, l, x, k, b1, y, my, b2, z, mz, c);
    LeftRightKeepsPath(m, root, path, x, y, z, RootOf(b1), RootOf(b2));
    TurnLeaves(m, z, y, RootOf(b2));
    tree.Fields(x);
    tree.Fields(y);
    var parent := x.parent;
    TurnLeft(tree, z, y);
    tree.Fields(y);
    TurnRight(tree, x, y);
    tree.Hang(path, parent, x, y);
    tree.SetParent(y, parent);
  }

  // ---- rotations with their balances

  /** Sets the balance of a child. */
  method PaintLeft(tree: Root, n: Node, v: int, ghost p: Path, ghost t: Tree)
    requires tree.Sync() && At(tree.mem, tree.root, p, t) && t.Fork? && t.left.Fork? && t.left.n == n
    modifies tree, tree.mem.Keys
    ensures tree.Sync() && At(tree.mem, tree.root, p, t.(left := t.left.(mark := v)))
    ensures tree.mem.Keys == old(tree.mem.Keys)
  {
    hide Root.Sync, At;
    ghost var l := t.left;
    ZipLeft(tree.mem, tree.root, p, l, t.n, t.mark, t.right);
    Paint(tree, n, v, L(t.n, t.mark, t.right, p), l.left, l.mark, l.right);
    ZipLeft(tree.mem, tree.root, p, l.(mark := v), t.n, t.mark, t.right);
  }

  method PaintRight(tree: Root, n: Node, v: int, ghost p: Path, ghost t: Tree)
    requires tree.Sync() && At(tree.mem, tree.root, p, t) && t.Fork? && t.right.Fork? && t.right.n == n
    modifies tree, tree.mem.Keys
    ensures tree.Sync() && At(tree.mem, tree.root, p, t.(right := t.right.(mark := v)))
    ensures tree.mem.Keys == old(tree.mem.Keys)
  {
    hide Root.Sync, At;
    ghost var r := t.right;
    ZipRight(tree.mem, tree.root, p, t.left, t.n, t.mark, r);
    Paint(tree, n, v, R(t.left, t.n, t.mark, p), r.left, r.mark, r.right);
    ZipRight(tree.mem, tree.root, p, t.left, t.n, t.mark, r.(mark := v));
  }

  /** The heavy child of `x` and its balance. */
  lemma HeavyFacts(m: Mem, root: Node?, path: Path, d: bool, light: Tree, x: Node, k: int, z: Tree)
    requires At(m, root, path, Join(d, light, x, k, z)) && z.Fork?
    ensures x in m && z.n in m && m[z.n].mark == z.mark && z.n == if d then m[x].right else m[x].left
    ensures Inner(d, z).Fork? ==>
      && Inner(d, z).n in m && m[Inner(d, z).n].mark == Inner(d, z).mark
      && Inner(d, z).n == if d then m[z.n].left else m[z.n].right
  {
    if d {
      ZipRight(m, root, path, light, x, k, z);
      NodeFacts(m, root, R(light, x, k, path), z);
      ZipLeft(m, root, R(light, x, k, path), z.left, z.n, z.mark, z.right);
    } else {
      ZipLeft(m, root, path, z, x, k, light);
      NodeFacts(m, root, L(x, k, light, path), z);
      ZipRight(m, root, L(x, k, light, path), z.left, z.n, z.mark, z.right);
    }
  }

  method SingleRotation(tree: Root, d: bool, x: Node, z: Node, ghost path: Path, ghost light: Tree, ghost k: int,
                        ghost zt: Tree)
    requires tree.Sync() && At(tree.mem, tree.root, path, Join(d, light, x, k, zt)) && zt.Fork? && zt.n == z
    modifies tree, tree.mem.Keys
    ensures tree.Sync() && At(tree.mem, tree.root, path, Single(d, light, x, zt))
    ensures tree.mem.Keys == old(tree.mem.Keys)
  {
    hide Root.Sync, At;
    HeavyFacts(tree.mem, tree.root, path, d, light, x, k, zt);
    tree.Fields(z);
    var even := z.mark == 0;
    var kx := if even then Sign(d) else 0;
    var kz := -kx;
    if d {
      RotateLeft(tree, x, path, light, k, zt.left, z, zt.mark, zt.right);
      PaintLeft(tree, x, kx, path, Fork(Fork(light, x, k, zt.left), z, zt.mark, zt.right));
      Paint(tree, z, kz, path, Fork(light, x, kx, zt.left), zt.mark, zt.right);
    } else {
      RotateRight(tree, x, path, light, k, zt.right, z, zt.mark, zt.left);
      PaintRight(tree, x, kx, path, Fork(zt.left, z, zt.mark, Fork(zt.right, x, k, light)));
      Paint(tree, z, kz, path, zt.left, zt.mark, Fork(zt.right, x, kx, light));
    }
  }

  method DoubleRotation(tree: Root, d: bool, x: Node, z: Node, ghost path: Path, ghost light: Tree, ghost k: int,
                        ghost zt: Tree)
    returns (y: Node)
    requires tree.Sync() && At(tree.mem, tree.root, path, Join(d, light, x, k, zt)) && zt.Fork? && zt.n == z
    requires Inner(d, zt).Fork?
    requires -1 <= Inner(d, zt).mark <= 1
    modifies tree, tree.mem.Keys
    ensures tree.Sync() && y == Inner(d, zt).n && At(tree.mem, tree.root, path, Double(d, light, x, zt))
    ensures tree.mem.Keys == old(tree.mem.Keys)
  {
    hide Root.Sync, At;
    HeavyFacts(tree.mem, tree.root, path, d, light, x, k, zt);
    ghost var yt := Inner(d, zt);
    tree.Fields(z);
    y := if d then z.left else z.right;
    tree.Fields(y);
    var b := y.mark;
    var kx := if b == Sign(d) then -Sign(d) else 0;
    var kz := if b == -Sign(d) then Sign(d) else 0;
    if d {
      RotateRightLeft(tree, x, z, path, light, k, yt.left, y, yt.mark, yt.right, zt.mark, zt.right);
      PaintLeft(tree, x, kx, path, Fork(Fork(light, x, k, yt.left), y, yt.mark, Fork(yt.right, z, zt.mark, zt.right)));
      PaintRight(tree, z, kz, path,
                 Fork(Fork(light, x, kx, yt.left), y, yt.mark, Fork(yt.right, z, zt.mark, zt.right)));
      Paint(tree, y, 0, path, Fork(light, x, kx, yt.left), yt.mark, Fork(yt.right, z, kz, zt.right));
    } else {
      RotateLeftRight(tree, x, z, path, light, k, yt.right, y, yt.mark, yt.left, zt.mark, zt.left);
      PaintRight(tree, x, kx, path, Fork(Fork(zt.left, z, zt.mark, yt.left), y, yt.mark, Fork(yt.right, x, k, light)));
      PaintLeft(tree, z, kz, path, Fork(Fork(zt.left, z, zt.mark, yt.left), y, yt.mark, Fork(yt.right, x, kx, light)));
      Paint(tree, y, 0, path, Fork(zt.left, z, kz, yt.left), yt.mark, Fork(yt.right, x, kx, light));
    }
  }

  /** The rotation at `x` that its heavy child `z` asks for; `n` is on top afterwards. */
  method Rebalance(tree: Root, d: bool, x: Node, z: Node, ghost path: Path, ghost light: Tree, ghost k: int,
                   ghost zt: Tree)
    returns (n: Node)
    requires tree.Sync() && At(tree.mem, tree.root, path, Join(d, light, x, k, zt)) && zt.Fork? && zt.n == z
    requires AVL(zt) && (zt.mark == -Sign(d) ==> Inner(d, zt).Fork?)
    modifies tree, tree.mem.Keys
    ensures tree.Sync() && At(tree.mem, tree.root, path, Rebalanced(d, light, x, zt))
    ensures n == Rebalanced(d, light, x, zt).n
    ensures tree.mem.Keys == old(tree.mem.Keys)
  {
    hide Root.Sync, At, Height;
    HeavyFacts(tree.mem, tree.root, path, d, light, x, k, zt);
    tree.Fields(z);
    if z.mark == -Sign(d) {
      n := DoubleRotation(tree, d, x, z, path, light, k, zt);
    } else {
      SingleRotation(tree, d, x, z, path, light, k, zt);
      n := z;
    }
  }

  // ---- climbing

  /** On which side of its parent the lower end of `p` hangs, and what is on the other side. */
  lemma SideFacts(m: Mem, root: Node?, p: Path, t: Tree)
    requires t.Fork? && p != Top && At(m, root, p, t)
    ensures p.n in m && m[p.n].mark == p.mark && m[p.n].parent == Holder(p.up, null)
    ensures (m[p.n].right == t.n <==> p.R?) && (m[p.n].left == t.n <==> p.L?)
    ensures At(m, root, p.up, Joined(p, t))
  {
    if p.L? {
      ZipLeft(m, root, p.up, t, p.n, p.mark, p.right);
      RootIn(p.right);
    } else {
      ZipRight(m, root, p.up, p.left, p.n, p.mark, t);
      RootIn(p.left);
    }
  }

  function Other(p: Path): Tree
    requires p != Top
  {
    if p.L? then p.right else p.left
  }

  /** The parent's subtree. */
  function Joined(p: Path, t: Tree): Tree
    requires p != Top
  {
    Join(p.R?, Other(p), p.n, p.mark, t)
  }

  lemma AVLPathStep(p: Path, h: int)
    requires p != Top
    ensures AVLPath(p, h) <==>
      && AVL(Other(p)) && p.mark == Sign(p.R?) * (h - Height(Other(p))) && -1 <= p.mark <= 1
      && AVLPath(p.up, 1 + Max(h, Height(Other(p))))
  {
  }

  lemma PlugJoined(p: Path, t: Tree)
    requires p != Top
    ensures Plug(p, t) == Plug(p.up, Joined(p, t))
  {
  }

  lemma AVLTop(h: int)
    ensures AVLPath(Top, h)
  {
  }

  lemma {:induction false} AVLPlug(p: Path, t: Tree)
    ensures AVL(Plug(p, t)) <==> AVL(t) && AVLPath(p, Height(t))
    decreases p
  {
    hide Height, AVL, AVLPath, Join;
    if p == Top {
      AVLTop(Height(t));
    } else {
      AVLPlug(p.up, Joined(p, t));
      PlugJoined(p, t);
      AVLPathStep(p, Height(t));
      JoinHeight(p.R?, Other(p), p.n, p.mark, t);
    }
  }

  // ---- insertion

  /** The subtree at the end of `p` has become one level higher than `p` was made for. */
  ghost predicate Grown(p: Path, t: Tree) {
    t.Fork? && AVL(t) && AVLPath(p, Height(t) - 1) && (t.mark == 0 ==> t.left.Leaf? && t.right.Leaf?)
  }

  ghost predicate Fits(p: Path, t: Tree) {
    AVL(t) && AVLPath(p, Height(t))
  }

  /** An even parent grows, one that leant the other way becomes even, one that leant this way turns. */
  lemma GrownStep(p: Path, t: Tree)
    requires Grown(p, t) && p != Top
    ensures p.mark == 0 ==> Grown(p.up, Join(p.R?, Other(p), p.n, Sign(p.R?), t))
    ensures p.mark == -Sign(p.R?) ==> Fits(p.up, Join(p.R?, Other(p), p.n, 0, t))
    ensures p.mark == 0 || p.mark == Sign(p.R?) || p.mark == -Sign(p.R?)
  {
    hide Height, AVL, AVLPath;
    AVLPathStep(p, Height(t) - 1);
    JoinHeight(p.R?, Other(p), p.n, Sign(p.R?), t);
    JoinHeight(p.R?, Other(p), p.n, 0, t);
  }

  lemma GrownTurns(p: Path, t: Tree)
    requires Grown(p, t) && p != Top && p.mark == Sign(p.R?)
    ensures t.mark == -Sign(p.R?) ==> Inner(p.R?, t).Fork?
    ensures Fits(p.up, Rebalanced(p.R?, Other(p), p.n, t))
  {
    AVLPathStep(p, Height(t) - 1);
    RebalancedAVL(p.R?, Other(p), p.n, t);
  }

  lemma FitsPlug(p: Path, t: Tree)
    requires Fits(p, t)
    ensures AVL(Plug(p, t))
  {
    AVLPlug(p, t);
  }

  lemma JoinInOrder(d: bool, light: Tree, n: Node, k: int, k2: int, heavy: Tree)
    ensures InOrder(Join(d, light, n, k, heavy)) == InOrder(Join(d, light, n, k2, heavy))
  {
  }

  method PaintJoin(tree: Root, d: bool, n: Node, v: int, ghost p: Path, ghost light: Tree, ghost k: int,
                   ghost heavy: Tree)
    requires tree.Sync() && At(tree.mem, tree.root, p, Join(d, light, n, k, heavy))
    modifies tree, tree.mem.Keys
    ensures tree.Sync() && At(tree.mem, tree.root, p, Join(d, light, n, v, heavy))
    ensures tree.mem.Keys == old(tree.mem.Keys)
  {
    hide Root.Sync, At;
    ghost var f := Join(d, light, n, k, heavy);
    Paint(tree, n, v, p, f.left, k, f.right);
  }

  lemma KeptOrder(p: Path, t: Tree, s: Tree)
    requires p != Top && InOrder(s) == InOrder(Joined(p, t))
    ensures InOrder(Plug(p.up, s)) == InOrder(Plug(p, t))
  {
    hide InOrder;
    PlugJoined(p, t);
    SameOrder(p.up, s, Joined(p, t));
  }

  /** The last step: the parent becomes even, or turns. */
  method InsertTurn(tree: Root, d: bool, x: Node, z: Node, ghost p: Path, ghost t: Tree) returns (ghost s: Tree)
    requires tree.Sync() && p != Top && d == p.R? && x == p.n && t.Fork? && z == t.n && p.mark != 0 && Grown(p, t)
    requires At(tree.mem, tree.root, p.up, Joined(p, t))
    modifies tree, tree.mem.Keys
    ensures tree.Sync() && Is(tree.mem, tree.root, s) && AVL(s)
    ensures InOrder(s) == InOrder(Plug(p, t))
    ensures tree.mem.Keys == old(tree.mem.Keys)
  {
    hide Root.Sync, At, Is, AVL, Height, AVLPath, Rebalanced, Join, Fits, InOrder;
    JoinIsFork(d, Other(p), x, p.mark, t);
    NodeFacts(tree.mem, tree.root, p.up, Joined(p, t));
    GrownStep(p, t);
    tree.Fields(x);
    ghost var f;
    if x.mark == Sign(d) {
      GrownTurns(p, t);
      RebalancedInOrder(d, Other(p), x, p.mark, t);
      f := Rebalanced(d, Other(p), x, t);
      var n := Rebalance(tree, d, x, z, p.up, Other(p), p.mark, t);
    } else {
      JoinInOrder(d, Other(p), x, 0, p.mark, t);
      f := Join(d, Other(p), x, 0, t);
      PaintJoin(tree, d, x, 0, p.up, Other(p), p.mark, t);
    }
    s := Plug(p.up, f);
    KeptOrder(p, t, f);
    FitsPlug(p.up, f);
    AtIsPlug(tree.mem, tree.root, p.up, f);
  }

  lemma JoinIsFork(d: bool, light: Tree, n: Node, k: int, heavy: Tree)
    ensures Join(d, light, n, k, heavy).Fork? && Join(d, light, n, k, heavy).n == n
    ensures Join(d, light, n, k, heavy).mark == k
  {
  }

  lemma TopFits(p: Path, t: Tree)
    requires Grown(p, t) && p == Top
    ensures AVL(Plug(p, t))
  {
  }

  /** avl_tree_insert_repair: the balances come right again and the order stays. */
  method InsertRepair(tree: Root, node: Node, ghost p0: Path, ghost t0: Tree) returns (ghost s: Tree)
    requires tree.Sync() && At(tree.mem, tree.root, p0, t0) && Grown(p0, t0) && node == t0.n
    modifies tree, tree.mem.Keys
    ensures tree.Sync() && Is(tree.mem, tree.root, s) && AVL(s)
    ensures InOrder(s) == InOrder(Plug(p0, t0))
    ensures tree.mem.Keys == old(tree.mem.Keys)
  {
    hide Root.Sync, At, Is, AVL, Height, AVLPath, Rebalanced, Join;
    var z := node;
    ghost var p, t := p0, t0;
    NodeFacts(tree.mem, tree.root, p, t);
    tree.Fields(z);
    var x := z.parent;
    while x != null
      invariant tree.Sync() && At(tree.mem, tree.root, p, t) && Grown(p, t) && z == t.n && x == Holder(p, null)
      invariant InOrder(Plug(p, t)) == InOrder(Plug(p0, t0)) && tree.mem.Keys == old(tree.mem.Keys)
      decreases p
    {
      SideFacts(tree.mem, tree.root, p, t);
      GrownStep(p, t);
      tree.Fields(x);
      var d := z == x.right;
      if x.mark == 0 {
        ghost var grown := Join(d, Other(p), x, Sign(d), t);
        PaintJoin(tree, d, x, Sign(d), p.up, Other(p), p.mark, t);
        JoinInOrder(d, Other(p), x, Sign(d), p.mark, t);
        KeptOrder(p, t, grown);
        JoinIsFork(d, Other(p), x, Sign(d), t);
        p, t, z := p.up, grown, x;
        NodeFacts(tree.mem, tree.root, p, t);
        tree.Fields(z);
        x := z.parent;
      } else {
        s := InsertTurn(tree, d, x, z, p, t);
        return;
      }
    }
    s := Plug(p, t);
    TopFits(p, t);
    AtIsPlug(tree.mem, tree.root, p, t);
  }

  lemma LeafGrown(p: Path, n: Node)
    requires AVL(Plug(p, Leaf))
    ensures Grown(p, Fork(Leaf, n, 0, Leaf))
  {
    AVLPlug(p, Leaf);
  }

  /** avl_tree_insert: the tree stays an AVL tree and gains exactly the given node, at its place in the order. */
  method Insert(tree: Root, node: Node, cmp: (Node, Node) -> int, ghost t: Tree) returns (ghost s: Tree, ghost k: nat)
    requires tree.Sync() && Is(tree.mem, tree.root, t) && AVL(t) && node !in Nodes(t)
    modifies tree, tree.mem.Keys, node
    ensures tree.Sync() && Is(tree.mem, tree.root, s) && AVL(s)
    ensures Inserted(InOrder(s), InOrder(t), node, k)
    ensures Ordered(InOrder(t), cmp) && Consistent(Nodes(t) + {node}, cmp) ==>
      Ordered(InOrder(s), cmp) && Behind(InOrder(t), node, k, cmp)
    ensures tree.mem.Keys == old(tree.mem.Keys) + {node}
  {
    hide Root.Sync, At, Ordered, Consistent, Behind, AVL, Grown;
    ghost var p;
    if tree.root == null {
      p := Top;
      tree.Enter(node, 0);
      tree.SetParent(node, null);
      tree.SetRoot(node);
      FirstNode(tree.mem, node);
    } else {
      p := AttachLeaf(tree, node, 0, cmp, t);
    }
    LeafGrown(p, node);
    InsertedAt(p, t, node, cmp);
    s := InsertRepair(tree, node, p, Fork(Leaf, node, 0, Leaf));
    k := |Before(p)|;
  }

  // ---- deletion. The repair runs while the doomed node still hangs at the end of `q`, so
  // heights are those of the tree with `c`, the node's only child, in its place.

  /** The subtree with `c` at the end of `q` is one level lower than `p` was made for. */
  ghost predicate Shrunk(p: Path, q: Path, c: Tree) {
    AVL(Plug(q, c)) && AVLPath(p, Height(Plug(q, c)) + 1)
  }

  /** One step down beside the subtree `heavy`. */
  function Beside(d: bool, n: Node, k: int, heavy: Tree, up: Path): Path {
    if d then L(n, k, heavy, up) else R(heavy, n, k, up)
  }

  /** Where the light side goes in a rotation. */
  function RebalancedPath(d: bool, x: Node, z: Tree): Path
    requires z.Fork? && (z.mark == -Sign(d) ==> Inner(d, z).Fork?)
  {
    if z.mark == -Sign(d) then
      var y := Inner(d, z);
      Beside(d, x, if y.mark == Sign(d) then -Sign(d) else 0, Inner(d, y),
             Beside(d, y.n, 0, Join(d, Outer(d, y), z.n, if y.mark == -Sign(d) then Sign(d) else 0, Outer(d, z)), Top))
    else
      Beside(d, x, if z.mark == 0 then Sign(d) else 0, Inner(d, z),
             Beside(d, z.n, if z.mark == 0 then -Sign(d) else 0, Outer(d, z), Top))
  }

  lemma RebalancedPlug(d: bool, x: Node, z: Tree, light: Tree)
    requires z.Fork? && (z.mark == -Sign(d) ==> Inner(d, z).Fork?)
    ensures Plug(RebalancedPath(d, x, z), light) == Rebalanced(d, light, x, z)
  {
    if z.mark == -Sign(d) {
      var y := Inner(d, z);
      var kx, kz := if y.mark == Sign(d) then -Sign(d) else 0, if y.mark == -Sign(d) then Sign(d) else 0;
      var side := Join(d, Outer(d, y), z.n, kz, Outer(d, z));
      BesidePlug(d, x, kx, Inner(d, y), Beside(d, y.n, 0, side, Top), light);
      BesidePlug(d, y.n, 0, side, Top, Join(d, light, x, kx, Inner(d, y)));
    } else {
      var kx, kz := if z.mark == 0 then Sign(d) else 0, if z.mark == 0 then -Sign(d) else 0;
      BesidePlug(d, x, kx, Inner(d, z), Beside(d, z.n, kz, Outer(d, z), Top), light);
      BesidePlug(d, z.n, kz, Outer(d, z), Top, Join(d, light, x, kx, Inner(d, z)));
    }
  }

  lemma BesidePlug(d: bool, n: Node, k: int, heavy: Tree, up: Path, light: Tree)
    ensures Plug(Beside(d, n, k, heavy, up), light) == Plug(up, Join(d, light, n, k, heavy))
  {
  }

  /** A parent that leant to the short side becomes even and is shorter, one that was even leans away and
      keeps its height. */
  lemma ShrunkStep(p: Path, q: Path, c: Tree)
    requires Shrunk(p, q, c) && p != Top
    ensures p.mark == Sign(p.R?) ==> Shrunk(p.up, Append(q, Beside(p.L?, p.n, 0, Other(p), Top)), c)
    ensures p.mark == 0 ==> Fits(p.up, Plug(Append(q, Beside(p.L?, p.n, Sign(p.L?), Other(p), Top)), c))
    ensures p.mark == 0 || p.mark == Sign(p.R?) || p.mark == Sign(p.L?)
  {
    hide Height, AVL, AVLPath, Join;
    var v := Plug(q, c);
    AVLPathStep(p, Height(v) + 1);
    BesideAppend(p.L?, p.n, 0, Other(p), q, c);
    BesideAppend(p.L?, p.n, Sign(p.L?), Other(p), q, c);
    JoinHeight(p.L?, v, p.n, 0, Other(p));
    JoinHeight(p.L?, v, p.n, Sign(p.L?), Other(p));
  }

  lemma BesideAppend(d: bool, n: Node, k: int, heavy: Tree, q: Path, t: Tree)
    ensures Plug(Append(q, Beside(d, n, k, heavy, Top)), t) == Join(d, Plug(q, t), n, k, heavy)
  {
    PlugAppend(q, Beside(d, n, k, heavy, Top), t);
    BesidePlug(d, n, k, heavy, Top, Plug(q, t));
  }

  /** A parent that leant away turns, and is shorter unless its heavy child was even. */
  lemma ShrunkTurns(p: Path, q: Path, c: Tree)
    requires Shrunk(p, q, c) && p != Top && p.mark == Sign(p.L?)
    ensures Other(p).Fork? && AVL(Other(p)) && (Other(p).mark == -Sign(p.L?) ==> Inner(p.L?, Other(p)).Fork?)
    ensures var q' := Append(q, RebalancedPath(p.L?, p.n, Other(p)));
      if Other(p).mark == 0 then Fits(p.up, Plug(q', c)) else Shrunk(p.up, q', c)
  {
    hide Height, AVL, AVLPath, Join, Rebalanced, RebalancedPath;
    var v := Plug(q, c);
    AVLPathStep(p, Height(v) + 1);
    RebalancedAVL(p.L?, v, p.n, Other(p));
    PlugAppend(q, RebalancedPath(p.L?, p.n, Other(p)), c);
    RebalancedPlug(p.L?, p.n, Other(p), v);
  }

  lemma JoinFlip(d: bool, a: Tree, n: Node, k: int, b: Tree)
    ensures Join(d, a, n, k, b) == Join(!d, b, n, k, a)
  {
  }

  /** The order of the tree without the doomed node. */
  ghost function OrderWithout(p: Path, q: Path, c: Tree): seq<Node> {
    InOrder(Plug(p, Plug(q, c)))
  }

  lemma BesideOrder(p: Path, q: Path, c: Tree, k: int)
    requires p != Top
    ensures OrderWithout(p.up, Append(q, Beside(p.L?, p.n, k, Other(p), Top)), c) == OrderWithout(p, q, c)
  {
    hide InOrder, Join;
    var v := Plug(q, c);
    BesideAppend(p.L?, p.n, k, Other(p), q, c);
    JoinInOrder(p.L?, v, p.n, k, p.mark, Other(p));
    JoinFlip(p.L?, v, p.n, p.mark, Other(p));
    KeptOrder(p, v, Join(p.L?, v, p.n, k, Other(p)));
  }

  lemma TurnOrder(p: Path, q: Path, c: Tree)
    requires p != Top && Other(p).Fork? && (Other(p).mark == -Sign(p.L?) ==> Inner(p.L?, Other(p)).Fork?)
    ensures OrderWithout(p.up, Append(q, RebalancedPath(p.L?, p.n, Other(p))), c) == OrderWithout(p, q, c)
  {
    hide InOrder, Join, Rebalanced, RebalancedPath;
    var v := Plug(q, c);
    PlugAppend(q, RebalancedPath(p.L?, p.n, Other(p)), c);
    RebalancedPlug(p.L?, p.n, Other(p), v);
    RebalancedInOrder(p.L?, v, p.n, p.mark, Other(p));
    JoinFlip(p.L?, v, p.n, p.mark, Other(p));
    KeptOrder(p, v, Rebalanced(p.L?, v, p.n, Other(p)));
  }

  /** The place of the doomed node in the climb: below `n`, whose parent is `x`. */
  ghost predicate Climbing(m: Mem, root: Node?, p: Path, q: Path, t: Tree, n: Node, x: Node?) {
    var s := Plug(q, t);
    At(m, root, p, s) && s.Fork? && s.n == n && x == Holder(p, null)
  }

  /** A parent of the shrunk side that leans away turns. */
  method DeleteTurn(tree: Root, d: bool, x: Node, g: Node?, ghost p: Path, ghost q: Path, ghost t: Tree, ghost c: Tree)
    returns (n: Node, b: int, ghost q': Path)
    requires tree.Sync() && p != Top && d == p.L? && x == p.n && g == Holder(p.up, null) && p.mark == Sign(d)
    requires Shrunk(p, q, c)
    requires At(tree.mem, tree.root, p.up, Joined(p, Plug(q, t)))
    modifies tree, tree.mem.Keys
    ensures tree.Sync() && Climbing(tree.mem, tree.root, p.up, q', t, n, g)
    ensures if b == 0 then Fits(p.up, Plug(q', c)) else Shrunk(p.up, q', c)
    ensures OrderWithout(p.up, q', c) == OrderWithout(p, q, c) && tree.mem.Keys == old(tree.mem.Keys)
  {
    hide Root.Sync, At, Join, Height, AVL, AVLPath, Rebalanced, RebalancedPath, Shrunk, Fits, OrderWithout;
    ghost var light := Plug(q, t);
    ShrunkTurns(p, q, c);
    TurnOrder(p, q, c);
    JoinFlip(d, light, x, p.mark, Other(p));
    HeavyFacts(tree.mem, tree.root, p.up, d, light, x, p.mark, Other(p));
    tree.Fields(x);
    var z := if d then x.right else x.left;
    tree.Fields(z);
    b := z.mark;
    n := Rebalance(tree, d, x, z, p.up, light, p.mark, Other(p));
    q' := Append(q, RebalancedPath(d, x, Other(p)));
    RebalancedPlug(d, x, Other(p), light);
    PlugAppend(q, RebalancedPath(d, x, Other(p)), t);
    RebalancedIsFork(d, light, x, Other(p));
  }

  lemma RebalancedIsFork(d: bool, light: Tree, x: Node, z: Tree)
    requires z.Fork? && (z.mark == -Sign(d) ==> Inner(d, z).Fork?)
    ensures Rebalanced(d, light, x, z).Fork?
  {
  }

  /** A parent that does not turn gets balance `v`. */
  method DeletePaint(tree: Root, d: bool, x: Node, v: int, g: Node?, ghost p: Path, ghost q: Path, ghost t: Tree)
    returns (ghost q': Path)
    requires tree.Sync() && p != Top && d == p.L? && x == p.n && g == Holder(p.up, null)
    requires At(tree.mem, tree.root, p.up, Joined(p, Plug(q, t)))
    modifies tree, tree.mem.Keys
    ensures tree.Sync() && q' == Append(q, Beside(d, x, v, Other(p), Top))
    ensures Climbing(tree.mem, tree.root, p.up, q', t, x, g)
    ensures tree.mem.Keys == old(tree.mem.Keys)
  {
    hide Root.Sync, At, Join;
    ghost var light := Plug(q, t);
    JoinFlip(d, light, x, p.mark, Other(p));
    PaintJoin(tree, d, x, v, p.up, light, p.mark, Other(p));
    q' := Append(q, Beside(d, x, v, Other(p), Top));
    BesideAppend(d, x, v, Other(p), q, t);
    JoinIsFork(d, light, x, v, Other(p));
  }

  /** avl_tree_delete_repair: afterwards the tree without the doomed node is an AVL tree of the same order. */
  method DeleteRepair(tree: Root, node: Node, ghost p0: Path, ghost t: Tree, ghost c: Tree)
    returns (ghost p: Path, ghost q: Path)
    requires tree.Sync() && At(tree.mem, tree.root, p0, t) && t.Fork? && t.n == node && AVL(c)
    requires AVLPath(p0, Height(c) + 1)
    modifies tree, tree.mem.Keys
    ensures tree.Sync() && At(tree.mem, tree.root, p, Plug(q, t)) && Fits(p, Plug(q, c))
    ensures OrderWithout(p, q, c) == InOrder(Plug(p0, c))
    ensures tree.mem.Keys == old(tree.mem.Keys)
  {
    hide Root.Sync, At, Joined, Height, AVL, AVLPath, RebalancedPath, Fits, Shrunk;
    var n: Node := node;
    p, q := p0, Top;
    NodeFacts(tree.mem, tree.root, p, t);
    tree.Fields(n);
    ShrunkStart(p0, c);
    var x := n.parent;
    while x != null
      invariant tree.Sync() && Climbing(tree.mem, tree.root, p, q, t, n, x) && Shrunk(p, q, c)
      invariant OrderWithout(p, q, c) == InOrder(Plug(p0, c)) && tree.mem.Keys == old(tree.mem.Keys)
      decreases p
    {
      hide OrderWithout;
      SideFacts(tree.mem, tree.root, p, Plug(q, t));
      ShrunkStep(p, q, c);
      tree.Fields(x);
      var g := x.parent;
      var d := n == x.left;
      if x.mark == Sign(d) {
        var b;
        ghost var q';
        n, b, q' := DeleteTurn(tree, d, x, g, p, q, t, c);
        p, q, x := p.up, q', g;
        if b == 0 {
          return;
        }
      } else if x.mark == 0 {
        BesideOrder(p, q, c, Sign(d));
        ghost var q' := DeletePaint(tree, d, x, Sign(d), g, p, q, t);
        p, q := p.up, q';
        return;
      } else {
        BesideOrder(p, q, c, 0);
        ghost var q' := DeletePaint(tree, d, x, 0, g, p, q, t);
        p, q, n, x := p.up, q', x, g;
      }
    }
    ShrunkTop(q, c);
  }

  lemma ShrunkStart(p: Path, c: Tree)
    requires AVL(c) && AVLPath(p, Height(c) + 1)
    ensures Shrunk(p, Top, c)
  {
  }

  lemma ShrunkTop(q: Path, c: Tree)
    requires Shrunk(Top, q, c)
    ensures Fits(Top, Plug(q, c))
  {
  }

  /** A node with at most one child is one level above that child. */
  lemma OneChildHeight(p: Path, f: Tree)
    requires f.Fork? && (f.left.Leaf? || f.right.Leaf?) && AVL(Plug(p, f))
    ensures AVL(OnlyChild(f.left, f.right)) && AVLPath(p, Height(OnlyChild(f.left, f.right)) + 1)
  {
    AVLPlug(p, f);
  }

  /** avl_tree_delete_one_child: rebalance first, unlink the node afterwards. */
  method DeleteOneChild(tree: Root, node: Node, ghost p0: Path, ghost l: Tree, ghost k: int, ghost r: Tree)
    returns (ghost s: Tree)
    requires tree.Sync() && At(tree.mem, tree.root, p0, Fork(l, node, k, r)) && (l.Leaf? || r.Leaf?)
    requires AVL(Plug(p0, Fork(l, node, k, r)))
    modifies tree, tree.mem.Keys
    ensures tree.Sync() && Is(tree.mem, tree.root, s) && AVL(s) && InOrder(s) == InOrder(Plug(p0, OnlyChild(l, r)))
    ensures tree.mem.Keys == old(tree.mem.Keys)
  {
    hide Root.Sync, At, Is, Height, AVL, AVLPath, Fits;
    ghost var t, c := Fork(l, node, k, r), OnlyChild(l, r);
    OneChildHeight(p0, t);
    ghost var p, q := DeleteRepair(tree, node, p0, t, c);
    ghost var where := Append(q, p);
    PlugAppend(q, p, t);
    PlugAppend(q, p, c);
    FitsPlug(p, Plug(q, c));
    AtIsPlug(tree.mem, tree.root, p, Plug(q, t));
    AtIsPlug(tree.mem, tree.root, where, t);
    NodeFacts(tree.mem, tree.root, where, t);
    tree.Fields(node);
    var child := if node.right == null then node.left else node.right;
    SpliceOut(tree, node, child, where, l, k, r);
    s := Plug(where, c);
    AtIsPlug(tree.mem, tree.root, where, c);
  }

  /** avl_tree_delete: the tree stays an AVL tree and loses exactly the given node. */
  method Delete(tree: Root, node: Node, ghost t: Tree) returns (ghost s: Tree, ghost k: nat)
    requires tree.Sync() && Is(tree.mem, tree.root, t) && AVL(t) && node in Nodes(t)
    modifies tree, tree.mem.Keys
    ensures tree.Sync() && Is(tree.mem, tree.root, s) && AVL(s)
    ensures Inserted(InOrder(t), InOrder(s), node, k)
    ensures tree.mem.Keys == old(tree.mem.Keys)
  {
    hide Root.Sync, At, Is, AVL;
    ghost var where := Locate(Top, t, node);
    ghost var p, f := where.0, where.1;
    AtIsPlug(tree.mem, tree.root, p, f);
    NodeFacts(tree.mem, tree.root, p, f);
    tree.Fields(node);
    if node.left != null && node.right != null {
      s, k := DeleteTwoChildren(tree, node, p, f, t);
      return;
    }
    s := DeleteOneChild(tree, node, p, f.left, f.mark, f.right);
    OneChildOrder(p, f);
    k := |Before(p)| + |InOrder(f.left)|;
  }

  lemma {:induction false} SwapKeepsAVL(a: Node, b: Node, t: Tree)
    ensures Height(SwapTree(a, b, t)) == Height(t) && AVL(SwapTree(a, b, t)) == AVL(t)
  {
    if t.Fork? {
      SwapKeepsAVL(a, b, t.left);
      SwapKeepsAVL(a, b, t.right);
    }
  }

  lemma RightLinked(m: Mem, root: Node?, p: Path, f: Tree)
    requires f.Fork? && At(m, root, p, f)
    ensures Linked(m, f.right, f.n)
  {
  }

  /** A node with two children first trades places with its successor. */
  method DeleteTwoChildren(tree: Root, node: Node, ghost p: Path, ghost f: Tree, ghost t: Tree)
    returns (ghost s: Tree, ghost k: nat)
    requires tree.Sync() && Is(tree.mem, tree.root, t) && AVL(t) && t == Plug(p, f) && f.Fork? && f.n == node
    requires f.right.Fork?
    modifies tree, tree.mem.Keys
    ensures tree.Sync() && Is(tree.mem, tree.root, s) && AVL(s)
    ensures Inserted(InOrder(t), InOrder(s), node, k)
    ensures tree.mem.Keys == old(tree.mem.Keys)
  {
    hide Root.Sync, At, Is, AVL, Inserted, Pair, Exchangeable, InOrder, Before, Linked, Append, SwapTree, PathNodes,
         Nodes;
    AtIsPlug(tree.mem, tree.root, p, f);
    NodeFacts(tree.mem, tree.root, p, f);
    RightLinked(tree.mem, tree.root, p, f);
    tree.Fields(node);
    ghost var q, s2;
    var node2;
    node2, q, s2 := Leftmost(tree, node.right, f.right, node);
    SuccessorExchangeable(tree.mem, tree.root, t, p, q, node2, s2.mark, s2.right, f.left, node, f.mark);
    ExchangeFacts(tree.mem, tree.root, t, node, node2);
    SuccessorSwapped(t, p, q, node2, s2.mark, s2.right, f.left, node, f.mark);
    SuccessorOrder(t, p, q, node2, s2.mark, s2.right, f.left, node, f.mark);
    SwapKeepsAVL(node, node2, t);
    Exchange(tree, node, node2, t);
    ghost var q' := Append(q, R(f.left, node2, f.mark, p));
    AtIsPlug(tree.mem, tree.root, q', Fork(Leaf, node, s2.mark, s2.right));
    s := DeleteOneChild(tree, node, q', Leaf, s2.mark, s2.right);
    assert OnlyChild(Leaf, s2.right) == s2.right;
    k := |Before(p)| + |InOrder(f.left)|;
  }
}
