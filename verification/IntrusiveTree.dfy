/** Binary trees of intrusive nodes with parent links, as `rbtree.c` and `avltree.c` keep
    them. The balance bookkeeping of both, a colour or a height difference, is the node's
    `mark`. A tree of the heap is described by a value, `Tree`; a position in it by the
    subtree below and the `Path` above. */
module IntrusiveTree {
  class Node {
    var left: Node?
    var right: Node?
    var parent: Node?
    var mark: int

    constructor () {
      left, right, parent, mark := null, null, null, 0;
    }
  }

  datatype Tree = Leaf | Fork(left: Tree, n: Node, mark: int, right: Tree)

  /** The way from a subtree up to the root: which child it is, and what hangs beside it. */
  datatype Path =
    | Top
    | L(n: Node, mark: int, right: Tree, up: Path)
    | R(left: Tree, n: Node, mark: int, up: Path)

  // ---- values

  function RootOf(t: Tree): Node? {
    if t.Leaf? then null else t.n
  }

  ghost function Opt(n: Node?): set<Node> {
    if n == null then {} else {n}
  }

  ghost function Nodes(t: Tree): set<Node> {
    match t
    case Leaf => {}
    case Fork(l, n, _, r) => Nodes(l) + {n} + Nodes(r)
  }

  function InOrder(t: Tree): seq<Node> {
    match t
    case Leaf => []
    case Fork(l, n, _, r) => InOrder(l) + [n] + InOrder(r)
  }

  /** No node occurs twice. */
  ghost predicate Proper(t: Tree) {
    match t
    case Leaf => true
    case Fork(l, n, _, r) =>
      Proper(l) && Proper(r) && n !in Nodes(l) && n !in Nodes(r) && Nodes(l) !! Nodes(r)
  }

  function Plug(p: Path, t: Tree): Tree {
    match p
    case Top => t
    case L(n, m, r, up) => Plug(up, Fork(t, n, m, r))
    case R(l, n, m, up) => Plug(up, Fork(l, n, m, t))
  }

  /** The node just above, or `base` when there is none. */
  function Holder(p: Path, base: Node?): Node? {
    match p
    case Top => base
    case L(n, _, _, _) => n
    case R(_, n, _, _) => n
  }

  ghost function PathNodes(p: Path): set<Node> {
    match p
    case Top => {}
    case L(n, _, r, up) => {n} + Nodes(r) + PathNodes(up)
    case R(l, n, _, up) => {n} + Nodes(l) + PathNodes(up)
  }

  /** Nothing on the path occurs twice. */
  ghost predicate ProperPath(p: Path) {
    match p
    case Top => true
    case L(n, _, r, up) =>
      ProperPath(up) && Proper(r) && n !in Nodes(r) && n !in PathNodes(up) && Nodes(r) !! PathNodes(up)
    case R(l, n, _, up) =>
      ProperPath(up) && Proper(l) && n !in Nodes(l) && n !in PathNodes(up) && Nodes(l) !! PathNodes(up)
  }

  /** What comes before and after the subtree in order. */
  function Before(p: Path): seq<Node> {
    match p
    case Top => []
    case L(_, _, _, up) => Before(up)
    case R(l, n, _, up) => Before(up) + InOrder(l) + [n]
  }

  function After(p: Path): seq<Node> {
    match p
    case Top => []
    case L(n, _, r, up) => [n] + InOrder(r) + After(up)
    case R(_, _, _, up) => After(up)
  }

  lemma Assoc<T>(a: seq<T>, b: seq<T>, c: seq<T>)
    ensures a + (b + c) == a + b + c
  {
  }

  /** A rotation keeps the order, whatever the marks. */
  lemma RotationInOrder(a: Tree, p: Node, b: Tree, q: Node, c: Tree)
    ensures InOrder(a) + [p] + (InOrder(b) + [q] + InOrder(c)) == InOrder(a) + [p] + InOrder(b) + [q] + InOrder(c)
  {
    hide InOrder;
    Assoc(InOrder(a) + [p], InOrder(b) + [q], InOrder(c));
    Assoc(InOrder(a) + [p], InOrder(b), [q]);
  }

  lemma Regroup<T>(a: seq<T>, b: seq<T>, c: seq<T>, d: seq<T>)
    ensures a + (b + c) + d == a + b + c + d == a + b + (c + d)
  {
    Assoc(a, b, c);
    Assoc(a + b, c, d);
  }

  lemma {:induction false} InOrderPlug(p: Path, t: Tree)
    ensures InOrder(Plug(p, t)) == Before(p) + InOrder(t) + After(p)
    decreases p
  {
    match p
    case Top =>
    case L(n, m, r, up) =>
      InOrderPlug(up, Fork(t, n, m, r));
      Assoc(InOrder(t), [n], InOrder(r));
      Regroup(Before(up), InOrder(t), [n] + InOrder(r), After(up));
    case R(l, n, m, up) =>
      InOrderPlug(up, Fork(l, n, m, t));
      Regroup(Before(up), InOrder(l) + [n], InOrder(t), After(up));
      Assoc(Before(up), InOrder(l), [n]);
  }

  lemma {:induction false} ProperPlug(p: Path, t: Tree)
    ensures Proper(Plug(p, t)) <==> ProperPath(p) && Proper(t) && Nodes(t) !! PathNodes(p)
    ensures Nodes(Plug(p, t)) == Nodes(t) + PathNodes(p)
    decreases p
  {
    match p
    case Top =>
    case L(n, m, r, up) => ProperPlug(up, Fork(t, n, m, r));
    case R(l, n, m, up) => ProperPlug(up, Fork(l, n, m, t));
  }

  // ---- links

  /** The fields of a node that make up the tree. */
  datatype Cell = Cell(left: Node?, right: Node?, parent: Node?, mark: int)

  type Mem = map<Node, Cell>

  function PutLeft(m: Mem, n: Node, v: Node?): (m': Mem)
    requires n in m
    ensures m'.Keys == m.Keys
  {
    m[n := m[n].(left := v)]
  }

  function PutRight(m: Mem, n: Node, v: Node?): (m': Mem)
    requires n in m
    ensures m'.Keys == m.Keys
  {
    m[n := m[n].(right := v)]
  }

  function PutMark(m: Mem, n: Node, v: int): (m': Mem)
    requires n in m
    ensures m'.Keys == m.Keys
  {
    m[n := m[n].(mark := v)]
  }

  function PutParent(m: Mem, n: Node?, v: Node?): (m': Mem)
    requires n == null || n in m
    ensures m'.Keys == m.Keys
  {
    if n == null then m else m[n := m[n].(parent := v)]
  }

  /** The child at the lower end of path `p` becomes `v`. */
  function PutChild(m: Mem, p: Path, v: Node?): (m': Mem)
    requires p == Top || p.n in m
    ensures m'.Keys == m.Keys
  {
    match p
    case Top => m
    case L(n, _, _, _) => PutLeft(m, n, v)
    case R(_, n, _, _) => PutRight(m, n, v)
  }

  /** The nodes of `t` are linked as `t` says, under `parent`. */
  ghost predicate Linked(m: Mem, t: Tree, parent: Node?) {
    match t
    case Leaf => true
    case Fork(l, n, k, r) =>
      n in m && m[n] == Cell(RootOf(l), RootOf(r), parent, k) && Linked(m, l, n) && Linked(m, r, n)
  }

  /** The nodes of `p` are linked as `p` says, above `child` and up to `base`. */
  ghost predicate LinkedPath(m: Mem, p: Path, child: Node?, base: Node?) {
    match p
    case Top => true
    case L(n, k, r, up) =>
      n in m && m[n] == Cell(child, RootOf(r), Holder(up, base), k) && Linked(m, r, n) && LinkedPath(m, up, n, base)
    case R(l, n, k, up) =>
      n in m && m[n] == Cell(RootOf(l), child, Holder(up, base), k) && Linked(m, l, n) && LinkedPath(m, up, n, base)
  }

  /** A tree is linked exactly when each of its zippers is. */
  lemma {:induction false} LinkedPlug(m: Mem, p: Path, t: Tree, base: Node?)
    ensures Linked(m, Plug(p, t), base) <==> Linked(m, t, Holder(p, base)) && LinkedPath(m, p, RootOf(t), base)
    decreases p
  {
    match p
    case Top =>
    case L(n, k, r, up) => LinkedPlug(m, up, Fork(t, n, k, r), base);
    case R(l, n, k, up) => LinkedPlug(m, up, Fork(l, n, k, t), base);
  }

  lemma RootIn(t: Tree)
    ensures RootOf(t) != null ==> RootOf(t) in Nodes(t)
  {
  }

  /** The two memories agree on the nodes of `s`. */
  ghost predicate Agree(m: Mem, m': Mem, s: set<Node>) {
    forall n :: n in s && n in m ==> n in m' && m'[n] == m[n]
  }

  lemma {:induction false} LinkedKept(m: Mem, m': Mem, t: Tree, parent: Node?)
    requires Linked(m, t, parent) && Agree(m, m', Nodes(t))
    ensures Linked(m', t, parent)
  {
    if t.Fork? {
      LinkedKept(m, m', t.left, t.n);
      LinkedKept(m, m', t.right, t.n);
    }
  }

  /** A subtree whose nodes were left alone, except for the parent link of its root. */
  lemma LinkedMoved(m: Mem, m': Mem, t: Tree, was: Node?, parent: Node?)
    requires Linked(m, t, was) && Proper(t)
    requires Agree(m, m', Nodes(t) - Opt(RootOf(t)))
    requires t.Fork? ==> t.n in m' && m'[t.n] == m[t.n].(parent := parent)
    ensures Linked(m', t, parent)
  {
    if t.Fork? {
      LinkedKept(m, m', t.left, t.n);
      LinkedKept(m, m', t.right, t.n);
    }
  }

  lemma {:induction false} PathKept(m: Mem, m': Mem, p: Path, child: Node?, base: Node?)
    requires LinkedPath(m, p, child, base) && Agree(m, m', PathNodes(p))
    ensures LinkedPath(m', p, child, base)
  {
    match p
    case Top =>
    case L(n, _, r, up) =>
      LinkedKept(m, m', r, n);
      PathKept(m, m', up, n, base);
    case R(l, n, _, up) =>
      LinkedKept(m, m', l, n);
      PathKept(m, m', up, n, base);
  }

  /** A path whose nodes were left alone, except for the child link at its lower end. */
  lemma PathMoved(m: Mem, m': Mem, p: Path, was: Node?, child: Node?, base: Node?)
    requires LinkedPath(m, p, was, base) && ProperPath(p)
    requires p != Top ==> Agree(m, m', PathNodes(p) - {p.n}) && p.n in m' && m'[p.n] == PutChild(m, p, child)[p.n]
    ensures LinkedPath(m', p, child, base)
  {
    match p
    case Top =>
    case L(n, _, r, up) =>
      LinkedKept(m, m', r, n);
      PathKept(m, m', up, n, base);
    case R(l, n, _, up) =>
      LinkedKept(m, m', l, n);
      PathKept(m, m', up, n, base);
  }

  /** The topmost node above a subtree whose root is `child`. */
  function TopOf(p: Path, child: Node?): Node? {
    match p
    case Top => child
    case L(n, _, _, up) => TopOf(up, n)
    case R(_, n, _, up) => TopOf(up, n)
  }

  lemma {:induction false} TopPlug(p: Path, t: Tree)
    ensures RootOf(Plug(p, t)) == TopOf(p, RootOf(t))
    decreases p
  {
    match p
    case Top =>
    case L(n, k, r, up) => TopPlug(up, Fork(t, n, k, r));
    case R(l, n, k, up) => TopPlug(up, Fork(l, n, k, t));
  }

  /** Memory `m` with root `root` holds the whole tree `t`. */
  ghost predicate Is(m: Mem, root: Node?, t: Tree) {
    root == RootOf(t) && Linked(m, t, null) && Proper(t)
  }

  /** Memory `m` with root `root` holds `t` at the end of `p`. */
  ghost predicate At(m: Mem, root: Node?, p: Path, t: Tree) {
    && root == TopOf(p, RootOf(t))
    && Linked(m, t, Holder(p, null)) && LinkedPath(m, p, RootOf(t), null)
    && Proper(t) && ProperPath(p) && Nodes(t) !! PathNodes(p)
  }

  lemma AtIsPlug(m: Mem, root: Node?, p: Path, t: Tree)
    ensures At(m, root, p, t) <==> Is(m, root, Plug(p, t))
  {
    TopPlug(p, t);
    LinkedPlug(m, p, t, null);
    ProperPlug(p, t);
  }

  /** Node `n` hangs at the lower end of `p`. */
  ghost predicate Hangs(m: Mem, root: Node?, p: Path, n: Node) {
    LinkedPath(m, p, n, null) && ProperPath(p) && n !in PathNodes(p) && root == TopOf(p, n)
  }

  // ---- the heap

  class Root {
    var root: Node?
    /** What the fields of the tree's nodes hold. */
    ghost var mem: Mem

    ghost predicate Sync()
      reads this, mem.Keys
    {
      forall n :: n in mem ==>
        && n.left == mem[n].left && n.right == mem[n].right && n.parent == mem[n].parent && n.mark == mem[n].mark
    }

    lemma Fields(n: Node)
      requires Sync() && n in mem
      ensures n.left == mem[n].left && n.right == mem[n].right && n.parent == mem[n].parent && n.mark == mem[n].mark
    {
    }

    constructor ()
      ensures root == null && mem == map[] && Sync()
    {
      root, mem := null, map[];
    }

    method SetLeft(n: Node, v: Node?)
      requires Sync() && n in mem
      modifies this`mem, mem.Keys
      ensures Sync() && mem == PutLeft(old(mem), n, v)
    {
      n.left := v;
      mem := mem[n := mem[n].(left := v)];
    }

    method SetRight(n: Node, v: Node?)
      requires Sync() && n in mem
      modifies this`mem, mem.Keys
      ensures Sync() && mem == PutRight(old(mem), n, v)
    {
      n.right := v;
      mem := mem[n := mem[n].(right := v)];
    }

    method SetRoot(v: Node?)
      requires Sync()
      modifies this`root
      ensures Sync() && root == v
    {
      root := v;
    }

    method SetMark(n: Node, v: int)
      requires Sync() && n in mem
      modifies this`mem, mem.Keys
      ensures Sync() && mem == PutMark(old(mem), n, v)
    {
      n.mark := v;
      mem := mem[n := mem[n].(mark := v)];
    }

    /** Sets the parent link of `n`, if there is such a node. */
    method SetParent(n: Node?, v: Node?)
      requires Sync() && (n == null || n in mem)
      modifies this`mem, mem.Keys
      ensures Sync() && mem == PutParent(old(mem), n, v)
    {
      if n != null {
        n.parent := v;
        mem := mem[n := mem[n].(parent := v)];
      }
    }

    /** Takes a node that is not in the tree under the tree's care, as a leaf. */
    method Enter(n: Node, mark: int)
      requires Sync()
      modifies this`mem, mem.Keys, n
      ensures Sync() && n.parent == old(n.parent) && mem == old(mem)[n := Cell(null, null, n.parent, mark)]
      ensures mem.Keys == old(mem.Keys) + {n}
    {
      n.mark := mark;
      n.left := null;
      n.right := null;
      mem := mem[n := Cell(null, null, n.parent, mark)];
    }

    /** Ends the tree's care for a node. */
    ghost method Forget(n: Node)
      requires Sync()
      modifies this`mem
      ensures Sync() && mem == old(mem) - {n}
    {
      mem := mem - {n};
    }

    /** Sets all links and the mark of a node. */
    method SetAll(n: Node, left: Node?, right: Node?, parent: Node?, mark: int)
      requires Sync() && n in mem
      modifies this`mem, mem.Keys
      ensures Sync() && mem == old(mem)[n := Cell(left, right, parent, mark)] && mem.Keys == old(mem.Keys)
    {
      n.left := left;
      n.right := right;
      n.parent := parent;
      n.mark := mark;
      mem := mem[n := Cell(left, right, parent, mark)];
    }

    /** Puts `to` in the child link of `y` that holds `from`. */
    method ReplaceChild(y: Node, from: Node, to: Node)
      requires Sync() && y in mem && (mem[y].left == from || mem[y].right == from)
      modifies this`mem, mem.Keys
      ensures Sync() && mem == PutInstead(old(mem), y, from, to)
    {
      if y.left == from {
        SetLeft(y, to);
      } else if y.right == from {
        SetRight(y, to);
      } else {
        assert false;
      }
    }

    /** Puts `to` where `from` hangs below `parent`. */
    method Hang(ghost p: Path, parent: Node?, from: Node, to: Node?)
      requires Sync() && parent == Holder(p, null) && Hangs(mem, root, p, from)
      modifies this, mem.Keys
      ensures Sync() && root == TopOf(p, to) && mem == PutChild(old(mem), p, to)
    {
      if parent == null {
        root := to;
      } else if parent.left == from {
        assert p.L? by {
          if p.R? { RootIn(p.left); }
        }
        SetLeft(parent, to);
      } else if parent.right == from {
        SetRight(parent, to);
      } else {
        assert false;
      }
    }
  }

  // ---- moving along the tree

  /** A fork at the end of `p` is its left subtree at the end of a longer path, and so for
      the right one. */
  lemma ZipLeft(m: Mem, root: Node?, p: Path, l: Tree, n: Node, k: int, r: Tree)
    ensures At(m, root, p, Fork(l, n, k, r)) <==> At(m, root, L(n, k, r, p), l)
  {
  }

  lemma ZipRight(m: Mem, root: Node?, p: Path, l: Tree, n: Node, k: int, r: Tree)
    ensures At(m, root, p, Fork(l, n, k, r)) <==> At(m, root, R(l, n, k, p), r)
  {
  }

  lemma ForkFacts(m: Mem, root: Node?, path: Path, t: Tree)
    requires t.Fork? && At(m, root, path, t)
    ensures t.n in m && m[t.n] == Cell(RootOf(t.left), RootOf(t.right), Holder(path, null), t.mark)
    ensures LinkedPath(m, path, t.n, null) && ProperPath(path) && root == TopOf(path, t.n)
    ensures t.n !in PathNodes(path) && Nodes(t) !! PathNodes(path)
    ensures path != Top ==> path.n in m && path.n in PathNodes(path)
  {
  }

  /** Changes the mark of the node at the end of `p`. */
  method Paint(tree: Root, n: Node, v: int, ghost p: Path, ghost l: Tree, ghost k: int, ghost r: Tree)
    requires tree.Sync() && At(tree.mem, tree.root, p, Fork(l, n, k, r))
    modifies tree, tree.mem.Keys
    ensures tree.Sync() && At(tree.mem, tree.root, p, Fork(l, n, v, r))
    ensures tree.mem.Keys == old(tree.mem.Keys) && tree.root == old(tree.root)
  {
    ghost var m0 := tree.mem;
    tree.SetMark(n, v);
    Painted(m0, tree.root, n, v, p, l, k, r);
  }

  lemma Painted(m: Mem, root: Node?, n: Node, v: int, p: Path, l: Tree, k: int, r: Tree)
    requires At(m, root, p, Fork(l, n, k, r))
    ensures n in m && At(PutMark(m, n, v), root, p, Fork(l, n, v, r))
  {
    hide ProperPath, TopOf;
    var m' := PutMark(m, n, v);
    LinkedKept(m, m', l, n);
    LinkedKept(m, m', r, n);
    PathKept(m, m', p, n, null);
  }

  // ---- attaching a leaf

  /** Writing a node outside the tree changes nothing in it. */
  lemma OutsideKept(m: Mem, root: Node?, p: Path, t: Tree, n: Node, c: Cell)
    requires At(m, root, p, t) && n !in Nodes(t) && n !in PathNodes(p)
    ensures At(m[n := c], root, p, t)
  {
    LinkedKept(m, m[n := c], t, Holder(p, null));
    PathKept(m, m[n := c], p, RootOf(t), null);
  }

  lemma Attached(m: Mem, root: Node?, p: Path, n: Node, k: int)
    requires At(m, root, p, Leaf) && p != Top && n !in PathNodes(p)
    requires n in m && m[n].left == null && m[n].right == null && m[n].mark == k
    ensures p.n in m
    ensures At(PutParent(PutChild(m, p, n), n, p.n), root, p, Fork(Leaf, n, k, Leaf))
  {
    var m' := PutParent(PutChild(m, p, n), n, p.n);
    assert p.n in PathNodes(p);
    PathMoved(m, m', p, null, n, null);
  }

  // ---- rotation to the left

  lemma RightFacts(m: Mem, root: Node?, path: Path, a: Tree, p: Node, mp: int, b: Tree, q: Node, mq: int, c: Tree)
    requires At(m, root, path, Fork(a, p, mp, Fork(b, q, mq, c)))
    ensures q in m && q != p && q !in PathNodes(path) && m[q] == Cell(RootOf(b), RootOf(c), p, mq)
    ensures b.Fork? ==> b.n in m && b.n != p && b.n != q && b.n !in PathNodes(path)
  {
    var t := Fork(b, q, mq, c);
    assert Linked(m, t, p) && Proper(t) && Nodes(t) == Nodes(b) + {q} + Nodes(c);
    assert Linked(m, b, q);
    RootIn(b);
  }

  /** The links after the turn has dealt with p and q, before their parent. */
  ghost function TurnedLeft(m: Mem, p: Node, q: Node, b: Node?): (m': Mem)
    requires p in m && q in m && (b == null || b in m)
    ensures m'.Keys == m.Keys
  {
    PutParent(PutLeft(PutParent(PutRight(m, p, b), b, p), q, p), p, q)
  }

  lemma TurnedLeftKeepsPath(m: Mem, root: Node?, path: Path, a: Tree, p: Node, mp: int, b: Tree, q: Node, mq: int,
                            c: Tree)
    requires At(m, root, path, Fork(a, p, mp, Fork(b, q, mq, c)))
    requires p in m && q in m && (b.Leaf? || b.n in m)
    ensures Hangs(TurnedLeft(m, p, q, RootOf(b)), root, path, p)
  {
    RightFacts(m, root, path, a, p, mp, b, q, mq, c);
    PathKept(m, TurnedLeft(m, p, q, RootOf(b)), path, p, null);
  }

  /** The links after rotate_left. */
  ghost function LeftRotation(m: Mem, path: Path, p: Node, q: Node, b: Node?): (m': Mem)
    requires p in m && q in m && (b == null || b in m) && (path == Top || path.n in m)
    ensures m'.Keys == m.Keys
  {
    PutParent(PutChild(TurnedLeft(m, p, q, b), path, q), q, Holder(path, null))
  }

  lemma LeftRotationCells(m: Mem, path: Path, p: Node, q: Node, b: Node?)
    requires p in m && q in m && (b == null || b in m) && (path == Top || path.n in m)
    requires p != q && b != p && b != q && Holder(path, null) !in {p, q}
    requires (Holder(path, null) != null ==> Holder(path, null) != b)
    ensures var m' := LeftRotation(m, path, p, q, b);
      && m'[p] == m[p].(right := b, parent := q)
      && m'[q] == m[q].(left := p, parent := Holder(path, null))
      && (b != null ==> m'[b] == m[b].(parent := p))
      && (path != Top ==> m'[path.n] == PutChild(m, path, q)[path.n])
      && Agree(m, m', m.Keys - {p, q} - Opt(b) - Opt(Holder(path, null)))
  {
  }

  lemma LeftRotationProper(path: Path, a: Tree, p: Node, mp: int, b: Tree, q: Node, mq: int, c: Tree)
    requires Proper(Fork(a, p, mp, Fork(b, q, mq, c))) && Nodes(Fork(a, p, mp, Fork(b, q, mq, c))) !! PathNodes(path)
    ensures Proper(b) && Proper(Fork(Fork(a, p, mp, b), q, mq, c))
    ensures Nodes(Fork(Fork(a, p, mp, b), q, mq, c)) !! PathNodes(path)
  {
    assert Proper(Fork(b, q, mq, c));
    assert Nodes(Fork(b, q, mq, c)) == Nodes(b) + {q} + Nodes(c);
    assert Nodes(Fork(a, p, mp, b)) == Nodes(a) + {p} + Nodes(b);
    assert Proper(Fork(a, p, mp, b));
  }

  /** Only p, q, the root of b and the parent of p are written. */
  lemma LeftRotationPieces(m: Mem, m': Mem, path: Path, a: Tree, p: Node, mp: int, b: Tree, q: Node, mq: int, c: Tree)
    requires Proper(Fork(a, p, mp, Fork(b, q, mq, c))) && Nodes(Fork(a, p, mp, Fork(b, q, mq, c))) !! PathNodes(path)
    requires Agree(m, m', m.Keys - {p, q} - Opt(RootOf(b)) - Opt(Holder(path, null)))
    ensures Agree(m, m', Nodes(a)) && Agree(m, m', Nodes(c)) && Agree(m, m', Nodes(b) - Opt(RootOf(b)))
    ensures path != Top ==> Agree(m, m', PathNodes(path) - {path.n})
  {
    assert Proper(Fork(b, q, mq, c));
    assert Nodes(Fork(b, q, mq, c)) == Nodes(b) + {q} + Nodes(c);
    RootIn(b);
  }

  lemma RotatedLeft(m: Mem, root: Node?, path: Path, a: Tree, p: Node, mp: int, b: Tree, q: Node, mq: int, c: Tree)
    requires At(m, root, path, Fork(a, p, mp, Fork(b, q, mq, c)))
    requires p in m && q in m && (b.Leaf? || b.n in m) && (path == Top || path.n in m)
    ensures At(LeftRotation(m, path, p, q, RootOf(b)), TopOf(path, q), path, Fork(Fork(a, p, mp, b), q, mq, c))
  {
    hide LeftRotation, Proper, Nodes, PathNodes, ProperPath, LinkedPath, TopOf, PutChild;
    var m' := LeftRotation(m, path, p, q, RootOf(b));
    ForkFacts(m, root, path, Fork(a, p, mp, Fork(b, q, mq, c)));
    RightFacts(m, root, path, a, p, mp, b, q, mq, c);
    assert Linked(m, Fork(b, q, mq, c), p);
    LeftRotationCells(m, path, p, q, RootOf(b));
    LeftRotationProper(path, a, p, mp, b, q, mq, c);
    LeftRotationPieces(m, m', path, a, p, mp, b, q, mq, c);
    LinkedKept(m, m', a, p);
    LinkedKept(m, m', c, q);
    LinkedMoved(m, m', b, q, p);
    PathMoved(m, m', path, p, q, null);
    assert Linked(m', Fork(a, p, mp, b), q);
  }

  /** rotate_left, first half: p goes below its right child q. */
  method TurnLeft(tree: Root, p: Node, q: Node)
    requires tree.Sync() && p in tree.mem && q in tree.mem && (q.left == null || q.left in tree.mem)
    modifies tree, tree.mem.Keys
    ensures tree.Sync() && tree.root == old(tree.root) && tree.mem == TurnedLeft(old(tree.mem), p, q, old(q.left))
  {
    hide Root.Sync, PutLeft, PutRight, PutParent;
    var b := q.left;
    tree.SetRight(p, b);
    tree.SetParent(b, p);
    tree.SetLeft(q, p);
    tree.SetParent(p, q);
  }

  /** rotate_left: q, the right child of p, takes p's place. */
  method RotateLeft(tree: Root, p: Node, ghost path: Path, ghost a: Tree, ghost mp: int, ghost b: Tree, q: Node,
                    ghost mq: int, ghost c: Tree)
    requires tree.Sync() && At(tree.mem, tree.root, path, Fork(a, p, mp, Fork(b, q, mq, c)))
    modifies tree, tree.mem.Keys
    ensures tree.Sync() && At(tree.mem, tree.root, path, Fork(Fork(a, p, mp, b), q, mq, c))
    ensures tree.mem.Keys == old(tree.mem.Keys)
  {
    hide Root.Sync, Linked, LinkedPath, Proper, ProperPath, Nodes, PathNodes, TopOf, PutParent, PutChild, Hangs,
         TurnedLeft;
    ghost var m0, root0 := tree.mem, tree.root;
    ForkFacts(m0, root0, path, Fork(a, p, mp, Fork(b, q, mq, c)));
    RightFacts(m0, root0, path, a, p, mp, b, q, mq, c);
    TurnedLeftKeepsPath(m0, root0, path, a, p, mp, b, q, mq, c);
    RotatedLeft(m0, root0, path, a, p, mp, b, q, mq, c);
    tree.Fields(p);
    tree.Fields(q);
    var parent := p.parent;
    TurnLeft(tree, p, q);
    tree.Hang(path, parent, p, q);
    tree.SetParent(q, parent);
  }

  // ---- rotation to the right

  lemma LeftFacts(m: Mem, root: Node?, path: Path, a: Tree, p: Node, mp: int, b: Tree, q: Node, mq: int, c: Tree)
    requires At(m, root, path, Fork(Fork(c, q, mq, b), p, mp, a))
    ensures q in m && q != p && q !in PathNodes(path) && m[q] == Cell(RootOf(c), RootOf(b), p, mq)
    ensures b.Fork? ==> b.n in m && b.n != p && b.n != q && b.n !in PathNodes(path)
  {
    var t := Fork(c, q, mq, b);
    assert Linked(m, t, p) && Proper(t) && Nodes(t) == Nodes(c) + {q} + Nodes(b);
    assert Linked(m, b, q);
    RootIn(b);
  }

  /** The links after the turn has dealt with p and q, before their parent. */
  ghost function TurnedRight(m: Mem, p: Node, q: Node, b: Node?): (m': Mem)
    requires p in m && q in m && (b == null || b in m)
    ensures m'.Keys == m.Keys
  {
    PutParent(PutRight(PutParent(PutLeft(m, p, b), b, p), q, p), p, q)
  }

  lemma TurnedRightKeepsPath(m: Mem, root: Node?, path: Path, a: Tree, p: Node, mp: int, b: Tree, q: Node, mq: int,
                             c: Tree)
    requires At(m, root, path, Fork(Fork(c, q, mq, b), p, mp, a))
    requires p in m && q in m && (b.Leaf? || b.n in m)
    ensures Hangs(TurnedRight(m, p, q, RootOf(b)), root, path, p)
  {
    LeftFacts(m, root, path, a, p, mp, b, q, mq, c);
    PathKept(m, TurnedRight(m, p, q, RootOf(b)), path, p, null);
  }

  /** The links after rotate_right. */
  ghost function RightRotation(m: Mem, path: Path, p: Node, q: Node, b: Node?): (m': Mem)
    requires p in m && q in m && (b == null || b in m) && (path == Top || path.n in m)
    ensures m'.Keys == m.Keys
  {
    PutParent(PutChild(TurnedRight(m, p, q, b), path, q), q, Holder(path, null))
  }

  lemma RightRotationCells(m: Mem, path: Path, p: Node, q: Node, b: Node?)
    requires p in m && q in m && (b == null || b in m) && (path == Top || path.n in m)
    requires p != q && b != p && b != q && Holder(path, null) !in {p, q}
    requires (Holder(path, null) != null ==> Holder(path, null) != b)
    ensures var m' := RightRotation(m, path, p, q, b);
      && m'[p] == m[p].(left := b, parent := q)
      && m'[q] == m[q].(right := p, parent := Holder(path, null))
      && (b != null ==> m'[b] == m[b].(parent := p))
      && (path != Top ==> m'[path.n] == PutChild(m, path, q)[path.n])
      && Agree(m, m', m.Keys - {p, q} - Opt(b) - Opt(Holder(path, null)))
  {
  }

  lemma RightRotationProper(path: Path, a: Tree, p: Node, mp: int, b: Tree, q: Node, mq: int, c: Tree)
    requires Proper(Fork(Fork(c, q, mq, b), p, mp, a)) && Nodes(Fork(Fork(c, q, mq, b), p, mp, a)) !! PathNodes(path)
    ensures Proper(b) && Proper(Fork(c, q, mq, Fork(b, p, mp, a)))
    ensures Nodes(Fork(c, q, mq, Fork(b, p, mp, a))) !! PathNodes(path)
  {
    assert Proper(Fork(c, q, mq, b));
    assert Nodes(Fork(c, q, mq, b)) == Nodes(c) + {q} + Nodes(b);
    assert Nodes(Fork(b, p, mp, a)) == Nodes(b) + {p} + Nodes(a);
    assert Proper(Fork(b, p, mp, a));
  }

  /** Only p, q, the root of b and the parent of p are written. */
  lemma RightRotationPieces(m: Mem, m': Mem, path: Path, a: Tree, p: Node, mp: int, b: Tree, q: Node, mq: int, c: Tree)
    requires Proper(Fork(Fork(c, q, mq, b), p, mp, a)) && Nodes(Fork(Fork(c, q, mq, b), p, mp, a)) !! PathNodes(path)
    requires Agree(m, m', m.Keys - {p, q} - Opt(RootOf(b)) - Opt(Holder(path, null)))
    ensures Agree(m, m', Nodes(a)) && Agree(m, m', Nodes(c)) && Agree(m, m', Nodes(b) - Opt(RootOf(b)))
    ensures path != Top ==> Agree(m, m', PathNodes(path) - {path.n})
  {
    assert Proper(Fork(c, q, mq, b));
    assert Nodes(Fork(c, q, mq, b)) == Nodes(c) + {q} + Nodes(b);
    RootIn(b);
  }

  lemma RotatedRight(m: Mem, root: Node?, path: Path, a: Tree, p: Node, mp: int, b: Tree, q: Node, mq: int, c: Tree)
    requires At(m, root, path, Fork(Fork(c, q, mq, b), p, mp, a))
    requires p in m && q in m && (b.Leaf? || b.n in m) && (path == Top || path.n in m)
    ensures At(RightRotation(m, path, p, q, RootOf(b)), TopOf(path, q), path, Fork(c, q, mq, Fork(b, p, mp, a)))
  {
    hide RightRotation, Proper, Nodes, PathNodes, ProperPath, LinkedPath, TopOf, PutChild;
    var m' := RightRotation(m, path, p, q, RootOf(b));
    ForkFacts(m, root, path, Fork(Fork(c, q, mq, b), p, mp, a));
    LeftFacts(m, root, path, a, p, mp, b, q, mq, c);
    assert Linked(m, Fork(c, q, mq, b), p);
    RightRotationCells(m, path, p, q, RootOf(b));
    RightRotationProper(path, a, p, mp, b, q, mq, c);
    RightRotationPieces(m, m', path, a, p, mp, b, q, mq, c);
    LinkedKept(m, m', a, p);
    LinkedKept(m, m', c, q);
    LinkedMoved(m, m', b, q, p);
    PathMoved(m, m', path, p, q, null);
    assert Linked(m', Fork(b, p, mp, a), q);
  }

  /** rotate_right, first half: p goes below its left child q. */
  method TurnRight(tree: Root, p: Node, q: Node)
    requires tree.Sync() && p in tree.mem && q in tree.mem && (q.right == null || q.right in tree.mem)
    modifies tree, tree.mem.Keys
    ensures tree.Sync() && tree.root == old(tree.root) && tree.mem == TurnedRight(old(tree.mem), p, q, old(q.right))
  {
    hide Root.Sync, PutRight, PutLeft, PutParent;
    var b := q.right;
    tree.SetLeft(p, b);
    tree.SetParent(b, p);
    tree.SetRight(q, p);
    tree.SetParent(p, q);
  }

  /** rotate_right: q, the left child of p, takes p's place. */
  method RotateRight(tree: Root, p: Node, ghost path: Path, ghost a: Tree, ghost mp: int, ghost b: Tree, q: Node,
                     ghost mq: int, ghost c: Tree)
    requires tree.Sync() && At(tree.mem, tree.root, path, Fork(Fork(c, q, mq, b), p, mp, a))
    modifies tree, tree.mem.Keys
    ensures tree.Sync() && At(tree.mem, tree.root, path, Fork(c, q, mq, Fork(b, p, mp, a)))
    ensures tree.mem.Keys == old(tree.mem.Keys)
  {
    hide Root.Sync, Linked, LinkedPath, Proper, ProperPath, Nodes, PathNodes, TopOf, PutParent, PutChild, Hangs,
         TurnedRight;
    ghost var m0, root0 := tree.mem, tree.root;
    ForkFacts(m0, root0, path, Fork(Fork(c, q, mq, b), p, mp, a));
    LeftFacts(m0, root0, path, a, p, mp, b, q, mq, c);
    TurnedRightKeepsPath(m0, root0, path, a, p, mp, b, q, mq, c);
    RotatedRight(m0, root0, path, a, p, mp, b, q, mq, c);
    tree.Fields(p);
    tree.Fields(q);
    var parent := p.parent;
    TurnRight(tree, p, q);
    tree.Hang(path, parent, p, q);
    tree.SetParent(q, parent);
  }

  // ---- searching and attaching a leaf, which both kinds of tree do in the same way

  /** `s` is `r` with `x` put in at position `k`. */
  ghost predicate Inserted(s: seq<Node>, r: seq<Node>, x: Node, k: nat) {
    k <= |r| && s == r[..k] + [x] + r[k..]
  }

  /** No node comes before one that compares smaller. */
  ghost predicate Ordered(s: seq<Node>, cmp: (Node, Node) -> int) {
    forall i, j :: 0 <= i < j < |s| ==> cmp(s[j], s[i]) >= 0
  }

  /** On the nodes of `s`, a result of at least 0 carries over. */
  ghost predicate Consistent(s: set<Node>, cmp: (Node, Node) -> int) {
    && (forall a, b, c :: a in s && b in s && c in s && cmp(a, b) >= 0 && cmp(b, c) >= 0 ==> cmp(a, c) >= 0)
    && (forall a, b :: a in s && b in s && cmp(a, b) < 0 ==> cmp(b, a) >= 0)
  }

  /** Where the search stands is where `x` belongs. */
  ghost predicate Searched(p: Path, x: Node, cmp: (Node, Node) -> int) {
    && (forall i :: 0 <= i < |Before(p)| ==> cmp(x, Before(p)[i]) >= 0)
    && (forall i :: 0 <= i < |After(p)| ==> cmp(After(p)[i], x) >= 0 && cmp(x, After(p)[i]) < 0)
  }

  /** `x` goes behind all nodes of `s` up to `k`, those it compares equal to included, and before the
      others. */
  ghost predicate Behind(s: seq<Node>, x: Node, k: nat, cmp: (Node, Node) -> int) {
    forall i :: 0 <= i < |s| ==> (i < k <==> cmp(x, s[i]) >= 0)
  }

  /** In an ordered sequence nothing before a node compares larger, nothing after smaller. */
  lemma OrderedAround(b: seq<Node>, n: Node, a: seq<Node>, cmp: (Node, Node) -> int)
    requires Ordered(b + [n] + a, cmp)
    ensures forall i :: 0 <= i < |b| ==> cmp(n, b[i]) >= 0
    ensures forall i :: 0 <= i < |a| ==> cmp(a[i], n) >= 0
  {
    var s := b + [n] + a;
    assert s[|b|] == n;
    forall i | 0 <= i < |b| ensures cmp(n, b[i]) >= 0 { assert s[i] == b[i]; }
    forall i | 0 <= i < |a| ensures cmp(a[i], n) >= 0 { assert s[|b| + 1 + i] == a[i]; }
  }

  /** Going left past a node that compares larger. */
  lemma SearchedLeft(p: Path, n: Node, k: int, r: Tree, x: Node, cmp: (Node, Node) -> int, s: set<Node>)
    requires Searched(p, x, cmp) && cmp(x, n) < 0
    requires forall i :: 0 <= i < |InOrder(r)| ==> cmp(InOrder(r)[i], n) >= 0
    requires Consistent(s, cmp) && x in s && n in s && Nodes(r) <= s
    ensures Searched(L(n, k, r, p), x, cmp)
  {
    forall i | 0 <= i < |InOrder(r)| ensures cmp(InOrder(r)[i], x) >= 0 && cmp(x, InOrder(r)[i]) < 0 {
      InOrderNodes(r, InOrder(r)[i]);
    }
  }

  lemma SearchedRight(p: Path, l: Tree, n: Node, k: int, x: Node, cmp: (Node, Node) -> int, s: set<Node>)
    requires Searched(p, x, cmp) && cmp(x, n) >= 0
    requires forall i :: 0 <= i < |InOrder(l)| ==> cmp(n, InOrder(l)[i]) >= 0
    requires Consistent(s, cmp) && x in s && n in s && Nodes(l) <= s
    ensures Searched(R(l, n, k, p), x, cmp)
  {
    forall i | 0 <= i < |InOrder(l)| ensures cmp(x, InOrder(l)[i]) >= 0 {
      InOrderNodes(l, InOrder(l)[i]);
    }
  }

  /** A node put in where the search ends keeps the order. */
  lemma InsertedOrdered(p: Path, x: Node, cmp: (Node, Node) -> int)
    requires Searched(p, x, cmp) && Ordered(Before(p) + After(p), cmp)
    ensures Ordered(Before(p) + [x] + After(p), cmp)
  {
    var b, a := Before(p), After(p);
    var s, t := b + [x] + a, b + a;
    forall i, j | 0 <= i < j < |s| ensures cmp(s[j], s[i]) >= 0 {
      var i', j' := if i < |b| then i else i - 1, if j < |b| then j else j - 1;
      if i != |b| && j != |b| {
        assert s[i] == t[i'] && s[j] == t[j'];
      }
    }
  }

  lemma {:induction false} InOrderNodes(t: Tree, y: Node)
    ensures y in InOrder(t) <==> y in Nodes(t)
  {
    if t.Fork? {
      InOrderNodes(t.left, y);
      InOrderNodes(t.right, y);
    }
  }

  /** One step of the search. */
  lemma SearchedStep(p: Path, t: Tree, x: Node, cmp: (Node, Node) -> int)
    requires t.Fork? && Searched(p, x, cmp) && Ordered(InOrder(Plug(p, t)), cmp)
    requires Consistent(Nodes(Plug(p, t)) + {x}, cmp)
    ensures cmp(x, t.n) < 0 ==> Searched(L(t.n, t.mark, t.right, p), x, cmp)
    ensures cmp(x, t.n) >= 0 ==> Searched(R(t.left, t.n, t.mark, p), x, cmp)
  {
    hide Ordered, Consistent, Searched, Before, After, InOrder, Proper, ProperPath;
    InOrderPlug(p, t);
    ProperPlug(p, t);
    InOrderFork(t);
    Around(Before(p), InOrder(t.left), t.n, InOrder(t.right), After(p), cmp);
    if cmp(x, t.n) < 0 {
      SearchedLeft(p, t.n, t.mark, t.right, x, cmp, Nodes(Plug(p, t)) + {x});
    } else {
      SearchedRight(p, t.left, t.n, t.mark, x, cmp, Nodes(Plug(p, t)) + {x});
    }
  }

  lemma Around(b: seq<Node>, l: seq<Node>, n: Node, r: seq<Node>, a: seq<Node>, cmp: (Node, Node) -> int)
    requires Ordered(b + (l + [n] + r) + a, cmp)
    ensures forall i :: 0 <= i < |l| ==> cmp(n, l[i]) >= 0
    ensures forall i :: 0 <= i < |r| ==> cmp(r[i], n) >= 0
  {
    hide Ordered;
    assert b + (l + [n] + r) + a == (b + l) + [n] + (r + a);
    OrderedAround(b + l, n, r + a, cmp);
    forall i | 0 <= i < |l| ensures cmp(n, l[i]) >= 0 { assert (b + l)[|b| + i] == l[i]; }
    forall i | 0 <= i < |r| ensures cmp(r[i], n) >= 0 { assert (r + a)[i] == r[i]; }
  }

  lemma InOrderFork(t: Tree)
    requires t.Fork?
    ensures InOrder(t) == InOrder(t.left) + [t.n] + InOrder(t.right)
  {
  }

  /** Whether `x` is at home below `p`, if the tree was in order at all. */
  ghost predicate AtHome(t: Tree, p: Path, x: Node, cmp: (Node, Node) -> int) {
    Ordered(InOrder(t), cmp) && Consistent(Nodes(t) + {x}, cmp) ==> Searched(p, x, cmp)
  }

  /** The loop of rb_tree_insert and avl_tree_insert: walks down to a free place. */
  method FindPlace(tree: Root, node: Node, cmp: (Node, Node) -> int, ghost t: Tree)
    returns (node2: Node, left: bool, ghost p: Path)
    requires tree.Sync() && At(tree.mem, tree.root, Top, t) && t.Fork?
    ensures At(tree.mem, tree.root, p, Leaf) && Plug(p, Leaf) == t && AtHome(t, p, node, cmp)
    ensures p != Top && node2 == p.n && left == p.L?
  {
    hide Root.Sync, At, Ordered, Consistent, Searched, InOrder, Nodes, PathNodes;
    ghost var cur := t;
    p := Top;
    StartsAtHome(node, cmp);
    RootFacts(tree.mem, tree.root, t);
    node2 := tree.root;
    while true
      invariant cur.Fork? && node2 == cur.n && At(tree.mem, tree.root, p, cur)
      invariant Plug(p, cur) == t && AtHome(t, p, node, cmp)
      decreases cur
    {
      NodeFacts(tree.mem, tree.root, p, cur);
      tree.Fields(node2);
      AtHomeStep(t, p, cur, node, cmp);
      left := cmp(node, node2) < 0;
      var next;
      if left {
        ZipLeft(tree.mem, tree.root, p, cur.left, cur.n, cur.mark, cur.right);
        p, cur := L(cur.n, cur.mark, cur.right, p), cur.left;
        next := node2.left;
      } else {
        ZipRight(tree.mem, tree.root, p, cur.left, cur.n, cur.mark, cur.right);
        p, cur := R(cur.left, cur.n, cur.mark, p), cur.right;
        next := node2.right;
      }
      if next == null {
        return;
      }
      node2 := next;
    }
  }

  lemma AtHomeStep(t: Tree, p: Path, cur: Tree, x: Node, cmp: (Node, Node) -> int)
    requires cur.Fork? && Plug(p, cur) == t && AtHome(t, p, x, cmp)
    ensures cmp(x, cur.n) < 0 ==> AtHome(t, L(cur.n, cur.mark, cur.right, p), x, cmp)
    ensures cmp(x, cur.n) >= 0 ==> AtHome(t, R(cur.left, cur.n, cur.mark, p), x, cmp)
  {
    hide Ordered, Consistent, Searched;
    if Ordered(InOrder(t), cmp) && Consistent(Nodes(t) + {x}, cmp) {
      SearchedStep(p, cur, x, cmp);
    }
  }

  /** Hangs `node` at a free place of the tree `t`. */
  method AttachLeaf(tree: Root, node: Node, mark: int, cmp: (Node, Node) -> int, ghost t: Tree) returns (ghost p: Path)
    requires tree.Sync() && Is(tree.mem, tree.root, t) && t.Fork? && node !in Nodes(t)
    modifies tree, tree.mem.Keys, node
    ensures tree.Sync() && At(tree.mem, tree.root, p, Fork(Leaf, node, mark, Leaf))
    ensures Plug(p, Leaf) == t && p != Top && AtHome(t, p, node, cmp)
    ensures tree.mem.Keys == old(tree.mem.Keys) + {node}
  {
    hide Root.Sync, At, Is, AtHome, Nodes, PathNodes, PutLeft, PutRight, PutParent;
    AtIsPlug(tree.mem, tree.root, Top, t);
    NotOnPath(Top, t, node);
    OutsideKept(tree.mem, tree.root, Top, t, node, Cell(null, null, node.parent, mark));
    tree.Enter(node, mark);
    var node2, left;
    node2, left, p := FindPlace(tree, node, cmp, t);
    NotOnPath(p, Leaf, node);
    Attached(tree.mem, tree.root, p, node, mark);
    if left {
      tree.SetLeft(node2, node);
    } else {
      tree.SetRight(node2, node);
    }
    tree.SetParent(node, node2);
  }

  /** Hangs `node` at a given free place of the tree `t`. */
  method Graft(tree: Root, node: Node, mark: int, node2: Node, left: bool, ghost p: Path, ghost t: Tree)
    requires tree.Sync() && Is(tree.mem, tree.root, t) && node !in Nodes(t) && Plug(p, Leaf) == t && p != Top
    requires node2 == p.n && left == p.L?
    modifies tree, tree.mem.Keys, node
    ensures tree.Sync() && At(tree.mem, tree.root, p, Fork(Leaf, node, mark, Leaf))
    ensures tree.mem.Keys == old(tree.mem.Keys) + {node}
  {
    hide Root.Sync, At, Is, Nodes, PathNodes, PutLeft, PutRight, PutParent;
    AtIsPlug(tree.mem, tree.root, p, Leaf);
    NotOnPath(p, Leaf, node);
    OutsideKept(tree.mem, tree.root, p, Leaf, node, Cell(null, null, node.parent, mark));
    tree.Enter(node, mark);
    Attached(tree.mem, tree.root, p, node, mark);
    if left {
      tree.SetLeft(node2, node);
    } else {
      tree.SetRight(node2, node);
    }
    tree.SetParent(node, node2);
  }

  lemma NotOnPath(p: Path, t: Tree, n: Node)
    requires n !in Nodes(Plug(p, t))
    ensures n !in Nodes(t) && n !in PathNodes(p)
  {
    ProperPlug(p, t);
  }

  lemma StartsAtHome(x: Node, cmp: (Node, Node) -> int)
    ensures Searched(Top, x, cmp)
  {
  }

  lemma RootFacts(m: Mem, root: Node?, t: Tree)
    requires t.Fork? && At(m, root, Top, t)
    ensures root == t.n
  {
  }

  lemma NodeFacts(m: Mem, root: Node?, p: Path, t: Tree)
    requires t.Fork? && At(m, root, p, t)
    ensures t.n in m && m[t.n] == Cell(RootOf(t.left), RootOf(t.right), Holder(p, null), t.mark)
    ensures p != Top ==> p.n in m && m[p.n].mark == p.mark
  {
  }

  lemma FirstNode(m: Mem, n: Node)
    requires n in m && m[n].left == null && m[n].right == null && m[n].parent == null
    ensures At(m, n, Top, Fork(Leaf, n, m[n].mark, Leaf))
  {
  }

  /** A leaf hung at the end of a path is one node more in the order. */
  lemma InsertedAt(p: Path, t: Tree, n: Node, cmp: (Node, Node) -> int)
    requires Plug(p, Leaf) == t && AtHome(t, p, n, cmp)
    ensures forall k: int :: Inserted(InOrder(Plug(p, Fork(Leaf, n, k, Leaf))), InOrder(t), n, |Before(p)|)
    ensures forall k: int :: Ordered(InOrder(t), cmp) && Consistent(Nodes(t) + {n}, cmp) ==>
      Ordered(InOrder(Plug(p, Fork(Leaf, n, k, Leaf))), cmp)
    ensures Ordered(InOrder(t), cmp) && Consistent(Nodes(t) + {n}, cmp) ==> Behind(InOrder(t), n, |Before(p)|, cmp)
  {
    hide Ordered, Consistent, Searched, Behind;
    InOrderPlug(p, Leaf);
    assert Before(p) + InOrder(Leaf) + After(p) == Before(p) + After(p);
    forall k: int
      ensures InOrder(Plug(p, Fork(Leaf, n, k, Leaf))) == Before(p) + [n] + After(p)
    {
      InOrderPlug(p, Fork(Leaf, n, k, Leaf));
      assert InOrder(Fork(Leaf, n, k, Leaf)) == [n];
    }
    if Ordered(InOrder(t), cmp) && Consistent(Nodes(t) + {n}, cmp) {
      InsertedOrdered(p, n, cmp);
      SearchedBehind(p, n, cmp);
    }
  }

  lemma SearchedBehind(p: Path, x: Node, cmp: (Node, Node) -> int)
    requires Searched(p, x, cmp)
    ensures Behind(Before(p) + After(p), x, |Before(p)|, cmp)
  {
  }

  // ---- taking out a node with at most one child

  /** What takes the place of a node with at most one child. */
  function OnlyChild(l: Tree, r: Tree): Tree {
    if r.Leaf? then l else r
  }

  /** Links the child of a node with at most one child to the node's parent. */
  method SpliceOut(tree: Root, node: Node, child: Node?, ghost p: Path, ghost l: Tree, ghost k: int, ghost r: Tree)
    requires tree.Sync() && At(tree.mem, tree.root, p, Fork(l, node, k, r)) && (l.Leaf? || r.Leaf?)
    requires child == RootOf(OnlyChild(l, r))
    modifies tree, tree.mem.Keys
    ensures tree.Sync() && At(tree.mem, tree.root, p, OnlyChild(l, r))
    ensures tree.mem.Keys == old(tree.mem.Keys) && node.mark == k && node.parent == Holder(p, null)
  {
    hide Root.Sync, At, Hangs, PutChild, PutParent, PathNodes, Nodes;
    ghost var m, root := tree.mem, tree.root;
    SplicedFacts(m, tree.root, p, l, node, k, r);
    tree.Fields(node);
    var parent := node.parent;
    tree.Hang(p, parent, node, child);
    tree.SetParent(child, parent);
    SplicedAt(m, root, p, l, node, k, r);
    tree.Fields(node);
  }

  lemma SplicedFacts(m: Mem, root: Node?, p: Path, l: Tree, n: Node, k: int, r: Tree)
    requires At(m, root, p, Fork(l, n, k, r)) && (l.Leaf? || r.Leaf?)
    ensures n in m && m[n].mark == k && m[n].parent == Holder(p, null) && Hangs(m, root, p, n)
    ensures OnlyChild(l, r).Fork? ==> OnlyChild(l, r).n in m
    ensures p == Top || p.n in m
  {
    RootIn(OnlyChild(l, r));
    assert Linked(m, OnlyChild(l, r), n);
  }

  lemma SplicedAt(m: Mem, root: Node?, p: Path, l: Tree, n: Node, k: int, r: Tree)
    requires n in m && (p == Top || p.n in m) && (OnlyChild(l, r).Fork? ==> OnlyChild(l, r).n in m)
    requires At(m, root, p, Fork(l, n, k, r)) && (l.Leaf? || r.Leaf?)
    ensures var c := OnlyChild(l, r);
      var m' := PutParent(PutChild(m, p, RootOf(c)), RootOf(c), Holder(p, null));
      At(m', TopOf(p, RootOf(c)), p, c) && m'[n].mark == k && m'[n].parent == Holder(p, null)
  {
    var c := OnlyChild(l, r);
    var m' := PutParent(PutChild(m, p, RootOf(c)), RootOf(c), Holder(p, null));
    assert Linked(m, c, n) && Proper(c);
    RootIn(c);
    LinkedMoved(m, m', c, n, Holder(p, null));
    PathMoved(m, m', p, n, RootOf(c), null);
  }

  // ---- exchanging two nodes. The new links are the old ones with the two nodes renamed.

  function Swap(a: Node, b: Node, x: Node?): Node? {
    if x == a then b else if x == b then a else x
  }

  function SwapIn(a: Node, b: Node, x: Node): Node {
    if x == a then b else if x == b then a else x
  }

  function SwapCell(a: Node, b: Node, c: Cell): Cell {
    Cell(Swap(a, b, c.left), Swap(a, b, c.right), Swap(a, b, c.parent), c.mark)
  }

  function SwapTree(a: Node, b: Node, t: Tree): Tree {
    match t
    case Leaf => Leaf
    case Fork(l, n, k, r) => Fork(SwapTree(a, b, l), SwapIn(a, b, n), k, SwapTree(a, b, r))
  }

  function SwapPath(a: Node, b: Node, p: Path): Path {
    match p
    case Top => Top
    case L(n, k, r, up) => L(SwapIn(a, b, n), k, SwapTree(a, b, r), SwapPath(a, b, up))
    case R(l, n, k, up) => R(SwapTree(a, b, l), SwapIn(a, b, n), k, SwapPath(a, b, up))
  }

  /** `m'` is `m` with `a` and `b` renamed, as far as the nodes of `s` go. */
  ghost predicate Swapped(m: Mem, m': Mem, a: Node, b: Node, s: set<Node>) {
    forall x :: x in s && x in m ==> SwapIn(a, b, x) in m' && m'[SwapIn(a, b, x)] == SwapCell(a, b, m[x])
  }

  lemma {:induction false} SwapLinked(m: Mem, m': Mem, a: Node, b: Node, t: Tree, parent: Node?)
    requires Linked(m, t, parent) && Swapped(m, m', a, b, Nodes(t))
    ensures Linked(m', SwapTree(a, b, t), Swap(a, b, parent))
  {
    if t.Fork? {
      SwapLinked(m, m', a, b, t.left, t.n);
      SwapLinked(m, m', a, b, t.right, t.n);
    }
  }

  lemma {:induction false} SwapNodes(a: Node, b: Node, t: Tree, x: Node)
    ensures x in Nodes(SwapTree(a, b, t)) <==> SwapIn(a, b, x) in Nodes(t)
  {
    if t.Fork? {
      SwapNodes(a, b, t.left, x);
      SwapNodes(a, b, t.right, x);
    }
  }

  lemma {:induction false} SwapProper(a: Node, b: Node, t: Tree)
    requires Proper(t)
    ensures Proper(SwapTree(a, b, t))
  {
    if t.Fork? {
      SwapProper(a, b, t.left);
      SwapProper(a, b, t.right);
      SwapNodes(a, b, t.left, SwapIn(a, b, t.n));
      SwapNodes(a, b, t.right, SwapIn(a, b, t.n));
      forall x | x in Nodes(SwapTree(a, b, t.left)) ensures x !in Nodes(SwapTree(a, b, t.right)) {
        SwapNodes(a, b, t.left, x);
        SwapNodes(a, b, t.right, x);
      }
    }
  }

  lemma {:induction false} SwapNothing(a: Node, b: Node, t: Tree)
    requires a !in Nodes(t) && b !in Nodes(t)
    ensures SwapTree(a, b, t) == t
  {
    if t.Fork? {
      SwapNothing(a, b, t.left);
      SwapNothing(a, b, t.right);
    }
  }

  lemma {:induction false} SwapNothingPath(a: Node, b: Node, p: Path)
    requires a !in PathNodes(p) && b !in PathNodes(p)
    ensures SwapPath(a, b, p) == p
  {
    match p
    case Top =>
    case L(_, _, r, up) => SwapNothing(a, b, r); SwapNothingPath(a, b, up);
    case R(l, _, _, up) => SwapNothing(a, b, l); SwapNothingPath(a, b, up);
  }

  lemma {:induction false} SwapPlug(a: Node, b: Node, p: Path, t: Tree)
    ensures SwapTree(a, b, Plug(p, t)) == Plug(SwapPath(a, b, p), SwapTree(a, b, t))
    decreases p
  {
    match p
    case Top =>
    case L(n, k, r, up) => SwapPlug(a, b, up, Fork(t, n, k, r));
    case R(l, n, k, up) => SwapPlug(a, b, up, Fork(l, n, k, t));
  }

  /** In a linked tree, neighbours know each other. */
  ghost predicate Neighbourly(m: Mem, x: Node) {
    && x in m
    && (m[x].left != null ==> m[x].left in m && m[m[x].left].parent == x)
    && (m[x].right != null ==> m[x].right in m && m[m[x].right].parent == x)
    && m[x].left != x && m[x].right != x && (m[x].left != null ==> m[x].left != m[x].right)
  }

  ghost predicate HeldBy(m: Mem, x: Node) {
    x in m && m[x].parent != null && m[x].parent in m && (m[m[x].parent].left == x || m[m[x].parent].right == x)
  }

  lemma {:induction false} LinkedNeighbours(m: Mem, t: Tree, parent: Node?)
    requires Linked(m, t, parent) && Proper(t)
    ensures forall x :: x in Nodes(t) ==> Neighbourly(m, x)
    ensures forall x :: x in Nodes(t) && x != RootOf(t) ==> HeldBy(m, x)
    ensures t.Fork? ==> t.n in m && m[t.n].parent == parent
  {
    if t.Fork? {
      LinkedNeighbours(m, t.left, t.n);
      LinkedNeighbours(m, t.right, t.n);
      RootIn(t.left);
      RootIn(t.right);
      assert Neighbourly(m, t.n);
    }
  }

  /** All nodes of `s` are linked both ways. */
  ghost predicate Web(m: Mem, s: set<Node>) {
    && (forall x :: x in s ==> Neighbourly(m, x))
    && (forall x :: x in s && x in m ==> m[x].parent == null || HeldBy(m, x))
  }

  lemma TreeIsWeb(m: Mem, root: Node?, t: Tree)
    requires Is(m, root, t)
    ensures Web(m, Nodes(t)) && Nodes(t) <= m.Keys
    ensures forall x :: x in Nodes(t) && x in m ==> (m[x].parent == null <==> x == root)
  {
    LinkedNeighbours(m, t, null);
    RootIn(t);
  }

  /** Outside `a` and `b` the renaming is done for the child links of the nodes in `sc` and
      for the parent links of those in `sp`, and nothing else has changed. */
  ghost predicate Partly(m: Mem, m': Mem, a: Node, b: Node, sc: set<Node>, sp: set<Node>) {
    && m'.Keys == m.Keys
    && forall x :: x in m && x != a && x != b ==> m'[x] == PartCell(m[x], a, b, x in sc, x in sp)
  }

  ghost function PartCell(c: Cell, a: Node, b: Node, children: bool, up: bool): Cell {
    Cell(if children then Swap(a, b, c.left) else c.left,
         if children then Swap(a, b, c.right) else c.right,
         if up then Swap(a, b, c.parent) else c.parent, c.mark)
  }

  /** What ReplaceChild does to the links of `y`. */
  function PutInstead(m: Mem, y: Node, from: Node, to: Node): (m': Mem)
    requires y in m
    ensures m'.Keys == m.Keys
  {
    if m[y].left == from then PutLeft(m, y, to) else PutRight(m, y, to)
  }

  lemma PartlyChild(m: Mem, m': Mem, a: Node, b: Node, sc: set<Node>, sp: set<Node>, y: Node, from: Node, to: Node)
    requires Partly(m, m', a, b, sc, sp) && a != b
    requires y in m && y != a && y != b && y !in sc
    requires (from == a && to == b) || (from == b && to == a)
    requires m[y].left == from || m[y].right == from
    requires m[y].left != to && m[y].right != to && m[y].left != m[y].right
    ensures Partly(m, PutInstead(m', y, from, to), a, b, sc + {y}, sp)
  {
  }

  lemma PartlyParent(m: Mem, m': Mem, a: Node, b: Node, sc: set<Node>, sp: set<Node>, y: Node?, v: Node?)
    requires Partly(m, m', a, b, sc, sp)
    requires y != null ==> y in m && y != a && y != b && y !in sp && v == Swap(a, b, m[y].parent)
    ensures Partly(m, PutParent(m', y, v), a, b, sc, sp + Opt(y))
  {
  }

  lemma PartlySelf(m: Mem, m': Mem, a: Node, b: Node, sc: set<Node>, sp: set<Node>, y: Node, c: Cell)
    requires Partly(m, m', a, b, sc, sp) && y in m && (y == a || y == b)
    ensures Partly(m, m'[y := c], a, b, sc, sp)
  {
  }

  /** Once all neighbours of `a` and `b` are done, so is the whole tree. */
  lemma PartlyAll(m: Mem, m': Mem, a: Node, b: Node, sc: set<Node>, sp: set<Node>, s: set<Node>)
    requires Partly(m, m', a, b, sc, sp) && a != b && a in s && b in s && s <= m.Keys
    requires Web(m, s)
    requires Opt(m[a].parent) + Opt(m[b].parent) <= sc + {a, b}
    requires Opt(m[a].left) + Opt(m[a].right) + Opt(m[b].left) + Opt(m[b].right) <= sp + {a, b}
    requires m'[b] == SwapCell(a, b, m[a]) && m'[a] == SwapCell(a, b, m[b])
    ensures Swapped(m, m', a, b, s)
  {
    forall x | x in s && x != a && x != b ensures m'[x] == SwapCell(a, b, m[x]) {
      assert Neighbourly(m, x);
      if m[x].left == a || m[x].right == a || m[x].left == b || m[x].right == b {
        assert x in sc;
      }
      if m[x].parent == a || m[x].parent == b {
        assert HeldBy(m, x);
        assert x in sp;
      }
    }
  }

  /** Two nodes of the tree. */
  ghost predicate Pair(m: Mem, root: Node?, t: Tree, a: Node, b: Node) {
    Is(m, root, t) && a in Nodes(t) && b in Nodes(t) && a != b && a in m && b in m
  }

  /** How two nodes to be exchanged may lie: the source's own use is a node and one below it. */
  ghost predicate Exchangeable(m: Mem, root: Node?, t: Tree, a: Node, b: Node) {
    Pair(m, root, t, a, b) && m[a].parent != m[b].parent
  }

  /** `a` is the left child and `b` the right child of one node. */
  ghost predicate LeftSibling(m: Mem, a: Node, b: Node)
    requires a in m && b in m
  {
    m[a].parent != null && m[a].parent == m[b].parent && m[a].parent in m && m[m[a].parent].left == a
  }

  ghost function ChildrenOf(m: Mem, a: Node, b: Node): set<Node>
    requires a in m && b in m
  {
    Opt(m[a].left) + Opt(m[a].right) + Opt(m[b].left) + Opt(m[b].right)
  }

  lemma ExchangeFacts(m: Mem, root: Node?, t: Tree, a: Node, b: Node)
    requires Exchangeable(m, root, t, a, b)
    ensures Pair(m, root, t, a, b) && a in m && b in m && m[a].parent != m[b].parent
    ensures Neighbourly(m, a) && Neighbourly(m, b) && a != b
    ensures m[a].parent != null ==> HeldBy(m, a) && Neighbourly(m, m[a].parent)
    ensures m[b].parent != null ==> HeldBy(m, b) && Neighbourly(m, m[b].parent)
    ensures (m[a].parent == null <==> a == root) && (m[b].parent == null <==> b == root)
    ensures Web(m, Nodes(t)) && Nodes(t) <= m.Keys && a in Nodes(t) && b in Nodes(t)
  {
    PairFacts(m, root, t, a, b);
  }

  lemma PairFacts(m: Mem, root: Node?, t: Tree, a: Node, b: Node)
    requires Pair(m, root, t, a, b)
    ensures Neighbourly(m, a) && Neighbourly(m, b) && a != b
    ensures m[a].parent != null ==> HeldBy(m, a) && Neighbourly(m, m[a].parent)
    ensures m[b].parent != null ==> HeldBy(m, b) && Neighbourly(m, m[b].parent)
    ensures (m[a].parent == null <==> a == root) && (m[b].parent == null <==> b == root)
    ensures Web(m, Nodes(t)) && Nodes(t) <= m.Keys && a in Nodes(t) && b in Nodes(t)
  {
    TreeIsWeb(m, root, t);
    LinkedNeighbours(m, t, null);
    if m[a].parent != null { ParentInside(m, t, null, a); }
    if m[b].parent != null { ParentInside(m, t, null, b); }
  }

  lemma {:induction false} ParentInside(m: Mem, t: Tree, parent: Node?, x: Node)
    requires Linked(m, t, parent) && x in Nodes(t)
    ensures x in m && (m[x].parent == parent || m[x].parent in Nodes(t))
  {
    if x != t.n {
      if x in Nodes(t.left) {
        ParentInside(m, t.left, t.n, x);
      } else {
        ParentInside(m, t.right, t.n, x);
      }
    }
  }

  /** The exchange is complete. */
  lemma ExchangedIs(m: Mem, m': Mem, root: Node?, t: Tree, a: Node, b: Node)
    requires Pair(m, root, t, a, b) && Swapped(m, m', a, b, Nodes(t))
    ensures Is(m', Swap(a, b, root), SwapTree(a, b, t))
  {
    SwapLinked(m, m', a, b, t, null);
    SwapProper(a, b, t);
  }

  /** The links of the exchanged tree are the renamed ones, so a link that is not renamed tells that the
      memory holds something else. */
  lemma {:induction false} SwappedCells(m: Mem, m': Mem, a: Node, b: Node, t: Tree, parent: Node?, x: Node)
    requires Linked(m, t, parent) && Linked(m', SwapTree(a, b, t), Swap(a, b, parent)) && x in Nodes(t)
    ensures x in m && SwapIn(a, b, x) in m' && m'[SwapIn(a, b, x)] == SwapCell(a, b, m[x])
  {
    assert SwapTree(a, b, t) == Fork(SwapTree(a, b, t.left), SwapIn(a, b, t.n), t.mark, SwapTree(a, b, t.right));
    assert RootOf(SwapTree(a, b, t.left)) == Swap(a, b, RootOf(t.left));
    assert RootOf(SwapTree(a, b, t.right)) == Swap(a, b, RootOf(t.right));
    if x != t.n {
      if x in Nodes(t.left) {
        SwappedCells(m, m', a, b, t.left, t.n, x);
      } else {
        SwappedCells(m, m', a, b, t.right, t.n, x);
      }
    }
  }

  lemma NotExchanged(m: Mem, m': Mem, root: Node?, root': Node?, t: Tree, a: Node, b: Node)
    requires Pair(m, root, t, a, b) && LeftSibling(m, a, b)
    requires m[a].parent in m' && m'[m[a].parent].left == a
    ensures !Is(m', root', SwapTree(a, b, t))
  {
    var y := m[a].parent;
    if Is(m', root', SwapTree(a, b, t)) {
      PairFacts(m, root, t, a, b);
      ParentInside(m, t, null, a);
      assert SwapIn(a, b, y) == y;
      SwappedCells(m, m', a, b, t, null, y);
    }
  }

  /** Two nodes of which neither is the other's parent. */
  method ExchangeApart(tree: Root, n1: Node, n2: Node, ghost t: Tree)
    requires tree.Sync() && Pair(tree.mem, tree.root, t, n1, n2)
    requires tree.mem[n1].parent != n2 && tree.mem[n2].parent != n1
    modifies tree, tree.mem.Keys
    ensures tree.Sync() && (Is(tree.mem, tree.root, SwapTree(n1, n2, t)) <==> !LeftSibling(old(tree.mem), n1, n2))
    ensures tree.mem.Keys == old(tree.mem.Keys)
  {
    hide Root.Sync, Is, Swapped, Nodes, Web, Pair, Neighbourly, HeldBy;
    ghost var m, root := tree.mem, tree.root;
    PairFacts(m, root, t, n1, n2);
    tree.Fields(n1);
    tree.Fields(n2);
    var c1 := Cell(n1.left, n1.right, n1.parent, n1.mark);
    var c2 := Cell(n2.left, n2.right, n2.parent, n2.mark);
    Rewire(tree, n1, n2, c1, c2, Nodes(t));
    if c2.parent == null {
      if c1.parent == null {
        assert false;
      }
      tree.SetRoot(n1);
    }
    if c1.parent == null {
      tree.SetRoot(n2);
    }
    if LeftSibling(m, n1, n2) {
      NotExchanged(m, tree.mem, root, tree.root, t, n1, n2);
    } else {
      ExchangedIs(m, tree.mem, root, t, n1, n2);
    }
  }

  /** Writes all links that the exchange changes. */
  method Rewire(tree: Root, n1: Node, n2: Node, c1: Cell, c2: Cell, ghost s: set<Node>)
    requires tree.Sync() && n1 != n2 && Neighbourly(tree.mem, n1) && Neighbourly(tree.mem, n2)
    requires c1 == tree.mem[n1] && c2 == tree.mem[n2] && c1.parent != n2 && c2.parent != n1
    requires c1.parent != null ==> HeldBy(tree.mem, n1) && Neighbourly(tree.mem, c1.parent)
    requires c2.parent != null ==> HeldBy(tree.mem, n2) && Neighbourly(tree.mem, c2.parent)
    requires Web(tree.mem, s) && s <= tree.mem.Keys && n1 in s && n2 in s
    modifies tree`mem, tree.mem.Keys
    ensures tree.Sync() && tree.mem.Keys == old(tree.mem.Keys)
    ensures !LeftSibling(old(tree.mem), n1, n2) ==> Swapped(old(tree.mem), tree.mem, n1, n2, s)
    ensures LeftSibling(old(tree.mem), n1, n2) ==> tree.mem[c1.parent].left == n1
  {
    hide Root.Sync, Partly, Web, Swapped;
    ghost var m := tree.mem;
    ghost var sc := if LeftSibling(m, n1, n2) then {} else Opt(c1.parent) + Opt(c2.parent);
    ReplaceBoth(tree, n1, n2, c1.parent, c2.parent);
    SetBoth(tree, n1, n2, c1, c2, m, sc);
    AdoptBoth(tree, n1, n2, c1, c2, m, sc);
    if LeftSibling(m, n1, n2) {
      PartlySame(m, tree.mem, n1, n2, ChildrenOf(m, n1, n2), c1.parent);
    } else {
      PartlyDone(m, tree.mem, n1, n2, s);
    }
  }

  /** Where no child links were to be changed, none is. */
  lemma PartlySame(m: Mem, m': Mem, a: Node, b: Node, sp: set<Node>, y: Node)
    requires Partly(m, m', a, b, {}, sp) && y in m && y != a && y != b
    ensures y in m' && m'[y].left == m[y].left && m'[y].right == m[y].right
  {
  }

  lemma PartlyDone(m: Mem, m': Mem, a: Node, b: Node, s: set<Node>)
    requires a != b && Neighbourly(m, a) && Neighbourly(m, b) && m[a].parent != b && m[b].parent != a
    requires m[a].parent != null ==> HeldBy(m, a)
    requires m[b].parent != null ==> HeldBy(m, b)
    requires Web(m, s) && s <= m.Keys && a in s && b in s
    requires Partly(m, m', a, b, Opt(m[a].parent) + Opt(m[b].parent), ChildrenOf(m, a, b))
    requires m'[b] == m[a] && m'[a] == m[b]
    ensures Swapped(m, m', a, b, s)
  {
    hide Partly, Web;
    ChildrenApart(m, a, b);
    assert SwapCell(a, b, m[a]) == m[a] && SwapCell(a, b, m[b]) == m[b];
    PartlyAll(m, m', a, b, Opt(m[a].parent) + Opt(m[b].parent), ChildrenOf(m, a, b), s);
  }

  method SetBoth(tree: Root, n1: Node, n2: Node, c1: Cell, c2: Cell, ghost m: Mem, ghost sc: set<Node>)
    requires tree.Sync() && n1 != n2 && n1 in m && n2 in m && n1 in tree.mem && n2 in tree.mem
    requires Partly(m, tree.mem, n1, n2, sc, {})
    modifies tree`mem, tree.mem.Keys
    ensures tree.Sync() && Partly(m, tree.mem, n1, n2, sc, {})
    ensures tree.mem.Keys == old(tree.mem.Keys) && tree.mem[n2] == c1 && tree.mem[n1] == c2
  {
    hide Root.Sync, Partly;
    PartlySelf(m, tree.mem, n1, n2, sc, {}, n2, c1);
    tree.SetAll(n2, c1.left, c1.right, c1.parent, c1.mark);
    PartlySelf(m, tree.mem, n1, n2, sc, {}, n1, c2);
    tree.SetAll(n1, c2.left, c2.right, c2.parent, c2.mark);
  }

  method AdoptBoth(tree: Root, n1: Node, n2: Node, c1: Cell, c2: Cell, ghost m: Mem, ghost sc: set<Node>)
    requires tree.Sync() && n1 != n2 && Neighbourly(m, n1) && Neighbourly(m, n2) && m[n1] == c1 && m[n2] == c2
    requires c1.parent != n2 && c2.parent != n1 && tree.mem.Keys == m.Keys
    requires Partly(m, tree.mem, n1, n2, sc, {})
    modifies tree`mem, tree.mem.Keys
    ensures tree.Sync() && Partly(m, tree.mem, n1, n2, sc, ChildrenOf(m, n1, n2))
    ensures tree.mem.Keys == old(tree.mem.Keys) && tree.mem[n2] == old(tree.mem)[n2]
    ensures tree.mem[n1] == old(tree.mem)[n1]
  {
    hide Root.Sync, Partly;
    ChildrenApart(m, n1, n2);
    AdoptChildren(tree, c2.left, c2.right, n1, m, n1, n2, sc, {});
    ghost var s := {} + Opt(c2.left) + Opt(c2.right);
    AdoptChildren(tree, c1.left, c1.right, n2, m, n1, n2, sc, s);
    assert s + Opt(c1.left) + Opt(c1.right) == ChildrenOf(m, n1, n2);
  }

  /** Lets the parents of the two nodes hold the other one. When `n1` and `n2` are the left and the
      right child of one node, the second write takes back the first. */
  method ReplaceBoth(tree: Root, n1: Node, n2: Node, p1: Node?, p2: Node?)
    requires tree.Sync() && n1 != n2 && Neighbourly(tree.mem, n1) && Neighbourly(tree.mem, n2)
    requires p1 == tree.mem[n1].parent && p2 == tree.mem[n2].parent && p1 != n2 && p2 != n1
    requires p1 != null ==> HeldBy(tree.mem, n1) && Neighbourly(tree.mem, p1)
    requires p2 != null ==> HeldBy(tree.mem, n2) && Neighbourly(tree.mem, p2)
    modifies tree`mem, tree.mem.Keys
    ensures tree.Sync() && tree.mem.Keys == old(tree.mem.Keys)
    ensures var sc := if LeftSibling(old(tree.mem), n1, n2) then {} else Opt(p1) + Opt(p2);
      Partly(old(tree.mem), tree.mem, n1, n2, sc, {})
  {
    hide Root.Sync, Partly, PutInstead;
    ghost var m := tree.mem;
    PartlyStart(m, n1, n2);
    if p1 != null {
      if p1 != p2 {
        PartlyChild(m, tree.mem, n1, n2, {}, {}, p1, n1, n2);
      }
      tree.ReplaceChild(p1, n1, n2);
    }
    if p2 != null {
      if p1 == p2 {
        ReplacedTwice(m, n1, n2, p1);
      } else {
        PartlyUntouched(m, tree.mem, n1, n2, Opt(p1), {}, p2);
        PartlyChild(m, tree.mem, n1, n2, Opt(p1), {}, p2, n2, n1);
      }
      tree.ReplaceChild(p2, n2, n1);
    }
    assert {} + Opt(p1) == Opt(p1);
    assert p2 == null || p1 == p2 ==> Opt(p1) + Opt(p2) == Opt(p1);
  }

  /** Both writes to one parent: they exchange its children unless `a` is the left one. */
  lemma ReplacedTwice(m: Mem, a: Node, b: Node, y: Node)
    requires a != b && HeldBy(m, a) && HeldBy(m, b) && Neighbourly(m, y) && m[a].parent == y == m[b].parent && y != a
    requires y != b
    ensures var m1 := PutInstead(m, y, a, b);
      && (m1[y].left == b || m1[y].right == b)
      && Partly(m, PutInstead(m1, y, b, a), a, b, if LeftSibling(m, a, b) then {} else {y}, {})
  {
  }

  lemma PartlyStart(m: Mem, a: Node, b: Node)
    ensures Partly(m, m, a, b, {}, {})
  {
  }

  lemma PartlyUntouched(m: Mem, m': Mem, a: Node, b: Node, sc: set<Node>, sp: set<Node>, y: Node)
    requires Partly(m, m', a, b, sc, sp) && y in m && y != a && y != b && y !in sc && y !in sp
    ensures m'[y] == m[y]
  {
  }

  /** Lets the children `l` and `r` point at their new parent. */
  method AdoptChildren(tree: Root, l: Node?, r: Node?, v: Node, ghost m: Mem, ghost a: Node, ghost b: Node,
                       ghost sc: set<Node>, ghost sp: set<Node>)
    requires tree.Sync() && Partly(m, tree.mem, a, b, sc, sp) && a in tree.mem && b in tree.mem
    requires l != null ==> l in m && l != a && l != b && l !in sp && v == Swap(a, b, m[l].parent)
    requires r != null ==> r in m && r != a && r != b && r !in sp && v == Swap(a, b, m[r].parent) && r != l
    requires (l == null || l in tree.mem) && (r == null || r in tree.mem)
    modifies tree`mem, tree.mem.Keys
    ensures tree.Sync() && Partly(m, tree.mem, a, b, sc, sp + Opt(l) + Opt(r))
    ensures tree.mem.Keys == old(tree.mem.Keys) && tree.mem[a] == old(tree.mem)[a] && tree.mem[b] == old(tree.mem)[b]
  {
    hide Root.Sync, Partly, PutParent;
    PartlyParent(m, tree.mem, a, b, sc, sp, l, v);
    AdoptKeeps(tree.mem, l, v, a, b);
    tree.SetParent(l, v);
    PartlyParent(m, tree.mem, a, b, sc, sp + Opt(l), r, v);
    AdoptKeeps(tree.mem, r, v, a, b);
    tree.SetParent(r, v);
  }

  lemma AdoptKeeps(m: Mem, y: Node?, v: Node, a: Node, b: Node)
    requires a in m && b in m && y != a && y != b && (y == null || y in m)
    ensures PutParent(m, y, v)[a] == m[a] && PutParent(m, y, v)[b] == m[b]
  {
  }

  /** The children of two nodes, neither the other's parent, are all different. */
  lemma ChildrenApart(m: Mem, a: Node, b: Node)
    requires a != b && Neighbourly(m, a) && Neighbourly(m, b) && m[a].parent != b && m[b].parent != a
    ensures a !in ChildrenOf(m, a, b) && b !in ChildrenOf(m, a, b)
    ensures m[b].left != null ==> m[b].left != m[b].right && m[b].left != m[a].left && m[b].left != m[a].right
    ensures m[b].right != null ==> m[b].right != m[a].left && m[b].right != m[a].right
    ensures m[a].left != null ==> m[a].left != m[a].right
    ensures forall x :: x in ChildrenOf(m, a, b) ==> x in m
    ensures m[b].left != null ==> m[m[b].left].parent == b
    ensures m[b].right != null ==> m[m[b].right].parent == b
    ensures m[a].left != null ==> m[m[a].left].parent == a
    ensures m[a].right != null ==> m[m[a].right].parent == a
  {
  }

  /** The links of a node and of its child `b`, one exchanged for the other. */
  lemma BelowDone(m: Mem, m': Mem, a: Node, b: Node, s: set<Node>)
    requires a != b && Neighbourly(m, a) && Neighbourly(m, b) && m[b].parent == a && (m[a].left == b || m[a].right == b)
    requires m[a].parent != null ==> HeldBy(m, a)
    requires Web(m, s) && s <= m.Keys && a in s && b in s
    requires Partly(m, m', a, b, Opt(m[a].parent), ChildrenOf(m, a, b) - {b})
    requires m'[b] == SwapCell(a, b, m[a]) && m'[a] == SwapCell(a, b, m[b])
    ensures Swapped(m, m', a, b, s)
  {
    hide Partly, Web;
    PartlyAll(m, m', a, b, Opt(m[a].parent), ChildrenOf(m, a, b) - {b}, s);
  }

  lemma BelowApart(m: Mem, a: Node, b: Node)
    requires a != b && Neighbourly(m, a) && Neighbourly(m, b) && m[b].parent == a && m[a].parent != b
    requires m[a].left == b || m[a].right == b
    ensures var o := if m[a].left == b then m[a].right else m[a].left;
      && ChildrenOf(m, a, b) - {b} == {} + Opt(m[b].left) + Opt(m[b].right) + Opt(o) + Opt(null)
      && (o != null ==> o in m && o != a && o != b && o != m[b].left && o != m[b].right && m[o].parent == a)
    ensures m[b].left != null ==>
      m[b].left in m && m[b].left != a && m[b].left != b && m[m[b].left].parent == b && m[b].left != m[b].right
    ensures m[b].right != null ==> m[b].right in m && m[b].right != a && m[b].right != b && m[m[b].right].parent == b
  {
  }

  method RewireBelow(tree: Root, n1: Node, n2: Node, c1: Cell, c2: Cell, ghost s: set<Node>)
    requires tree.Sync() && n1 != n2 && Neighbourly(tree.mem, n1) && Neighbourly(tree.mem, n2)
    requires c1 == tree.mem[n1] && c2 == tree.mem[n2] && c2.parent == n1 && c1.parent != n2
    requires (c1.left == n2 || c1.right == n2)
    requires c1.parent != null ==> HeldBy(tree.mem, n1) && Neighbourly(tree.mem, c1.parent)
    requires Web(tree.mem, s) && s <= tree.mem.Keys && n1 in s && n2 in s
    modifies tree`mem, tree.mem.Keys
    ensures tree.Sync() && Swapped(old(tree.mem), tree.mem, n1, n2, s)
    ensures tree.mem.Keys == old(tree.mem.Keys)
  {
    hide Root.Sync, Partly, Web, Swapped;
    ghost var m, sc := tree.mem, Opt(c1.parent);
    BelowApart(m, n1, n2);
    ReplaceAbove(tree, n1, n2, c1.parent);
    var other := if c1.left == n2 then c1.right else c1.left;
    var up := if c1.left == n2 then Cell(n1, other, c1.parent, c1.mark) else Cell(other, n1, c1.parent, c1.mark);
    SetBoth(tree, n1, n2, up, Cell(c2.left, c2.right, n2, c2.mark), m, sc);
    AdoptChildren(tree, c2.left, c2.right, n1, m, n1, n2, sc, {});
    AdoptChildren(tree, other, null, n2, m, n1, n2, sc, {} + Opt(c2.left) + Opt(c2.right));
    BelowDone(m, tree.mem, n1, n2, s);
  }

  method ReplaceAbove(tree: Root, n1: Node, n2: Node, p1: Node?)
    requires tree.Sync() && n1 != n2 && Neighbourly(tree.mem, n1) && Neighbourly(tree.mem, n2)
    requires p1 == tree.mem[n1].parent && tree.mem[n2].parent == n1 && p1 != n2
    requires p1 != null ==> HeldBy(tree.mem, n1) && Neighbourly(tree.mem, p1)
    modifies tree`mem, tree.mem.Keys
    ensures tree.Sync() && Partly(old(tree.mem), tree.mem, n1, n2, Opt(p1), {})
    ensures tree.mem.Keys == old(tree.mem.Keys)
  {
    hide Root.Sync, Partly, PutInstead;
    PartlyStart(tree.mem, n1, n2);
    if p1 != null {
      PartlyChild(tree.mem, tree.mem, n1, n2, {}, {}, p1, n1, n2);
      tree.ReplaceChild(p1, n1, n2);
    }
    assert {} + Opt(p1) == Opt(p1);
  }

  /** A node and one of its children. */
  method ExchangeBelow(tree: Root, n1: Node, n2: Node, ghost t: Tree)
    requires tree.Sync() && Exchangeable(tree.mem, tree.root, t, n1, n2) && tree.mem[n2].parent == n1
    requires tree.mem[n1].parent != n2
    modifies tree, tree.mem.Keys
    ensures tree.Sync() && Is(tree.mem, tree.root, SwapTree(n1, n2, t))
    ensures tree.mem.Keys == old(tree.mem.Keys)
  {
    hide Root.Sync, Is, Swapped, Nodes, Web, Pair, Exchangeable, Neighbourly;
    ghost var m, root := tree.mem, tree.root;
    ExchangeFacts(m, root, t, n1, n2);
    tree.Fields(n1);
    tree.Fields(n2);
    var c1 := Cell(n1.left, n1.right, n1.parent, n1.mark);
    var c2 := Cell(n2.left, n2.right, n2.parent, n2.mark);
    RewireBelow(tree, n1, n2, c1, c2, Nodes(t));
    ExchangedIs(m, tree.mem, root, t, n1, n2);
    if c1.parent == null {
      tree.SetRoot(n2);
    }
  }

  lemma {:induction false} SwapSymmetric(a: Node, b: Node, t: Tree)
    ensures SwapTree(a, b, t) == SwapTree(b, a, t)
  {
    if t.Fork? {
      SwapSymmetric(a, b, t.left);
      SwapSymmetric(a, b, t.right);
    }
  }

  /** rb_tree_exchange and avl_tree_exchange: two nodes trade places, marks included, exactly unless they
      are the left and the right child of one node in this order. */
  method Exchange(tree: Root, n1: Node, n2: Node, ghost t: Tree)
    requires tree.Sync() && Pair(tree.mem, tree.root, t, n1, n2)
    modifies tree, tree.mem.Keys
    ensures tree.Sync() && (Is(tree.mem, tree.root, SwapTree(n1, n2, t)) <==> !LeftSibling(old(tree.mem), n1, n2))
    ensures tree.mem.Keys == old(tree.mem.Keys)
  {
    hide Root.Sync, Is, Pair, Exchangeable, Neighbourly, HeldBy, SwapTree;
    PairApart(tree.mem, tree.root, t, n1, n2);
    tree.Fields(n1);
    tree.Fields(n2);
    if n2.parent == n1 {
      ExchangeBelow(tree, n1, n2, t);
    } else if n1.parent == n2 {
      SwapSymmetric(n1, n2, t);
      ExchangeBelow(tree, n2, n1, t);
    } else {
      ExchangeApart(tree, n1, n2, t);
    }
  }

  /** A root with two leaves. */
  ghost function Three(l: Node, n: Node, r: Node): Tree {
    Fork(Fork(Leaf, l, 0, Leaf), n, 0, Fork(Leaf, r, 0, Leaf))
  }

  ghost function ThreeMem(l: Node, n: Node, r: Node): (m: Mem)
    requires l != n && n != r && l != r
    ensures m.Keys == {l, n, r}
    ensures m[n] == Cell(l, r, null, 0) && m[l] == Cell(null, null, n, 0) && m[r] == Cell(null, null, n, 0)
  {
    map[n := Cell(l, r, null, 0)][l := Cell(null, null, n, 0)][r := Cell(null, null, n, 0)]
  }

  /** The case in which the exchange fails is there as soon as a node has two children. */
  lemma SiblingsCase(l: Node, n: Node, r: Node)
    requires l != n && n != r && l != r
    ensures Pair(ThreeMem(l, n, r), n, Three(l, n, r), l, r) && LeftSibling(ThreeMem(l, n, r), l, r)
  {
    var m := ThreeMem(l, n, r);
    var tl, tr := Fork(Leaf, l, 0, Leaf), Fork(Leaf, r, 0, Leaf);
    assert Nodes(tl) == {l} && Nodes(tr) == {r};
    assert Linked(m, tl, n) && Linked(m, tr, n) && Proper(tl) && Proper(tr);
    assert Nodes(Three(l, n, r)) == Nodes(tl) + {n} + Nodes(tr);
  }

  /** A node and its child. */
  lemma PairApart(m: Mem, root: Node?, t: Tree, a: Node, b: Node)
    requires Pair(m, root, t, a, b)
    ensures a in m && b in m
    ensures m[b].parent == a ==> Exchangeable(m, root, t, a, b) && m[a].parent != b && !LeftSibling(m, a, b)
    ensures m[a].parent == b ==> Exchangeable(m, root, t, b, a) && m[b].parent != a && !LeftSibling(m, a, b)
  {
    PairFacts(m, root, t, a, b);
    ParentAbove(m, t, null, a, b);
  }

  lemma {:induction false} ParentAbove(m: Mem, t: Tree, parent: Node?, a: Node, b: Node)
    requires Linked(m, t, parent) && Proper(t) && a in Nodes(t) && b in Nodes(t) && a in m && b in m
    requires parent !in Nodes(t)
    ensures !(m[a].parent == b && m[b].parent == a)
  {
    if t.n == a || t.n == b {
    } else if a in Nodes(t.left) && b in Nodes(t.left) {
      ParentAbove(m, t.left, t.n, a, b);
    } else if a in Nodes(t.right) && b in Nodes(t.right) {
      ParentAbove(m, t.right, t.n, a, b);
    } else if a in Nodes(t.left) {
      ParentInside(m, t.left, t.n, a);
    } else {
      ParentInside(m, t.right, t.n, a);
    }
  }

  // ---- finding places in a tree

  /** The path to node `x` of `t`, on top of `p`, and the subtree there. */
  ghost function Locate(p: Path, t: Tree, x: Node): (r: (Path, Tree))
    requires x in Nodes(t)
    ensures Plug(r.0, r.1) == Plug(p, t) && r.1.Fork? && r.1.n == x
    decreases t
  {
    if t.n == x then (p, t)
    else if x in Nodes(t.left) then Locate(L(t.n, t.mark, t.right, p), t.left, x)
    else Locate(R(t.left, t.n, t.mark, p), t.right, x)
  }

  function Append(p: Path, q: Path): Path {
    match p
    case Top => q
    case L(n, k, r, up) => L(n, k, r, Append(up, q))
    case R(l, n, k, up) => R(l, n, k, Append(up, q))
  }

  lemma {:induction false} PlugAppend(p: Path, q: Path, t: Tree)
    ensures Plug(Append(p, q), t) == Plug(q, Plug(p, t))
    decreases p
  {
    match p
    case Top =>
    case L(n, k, r, up) => PlugAppend(up, q, Fork(t, n, k, r));
    case R(l, n, k, up) => PlugAppend(up, q, Fork(l, n, k, t));
  }

  /** A path that only goes to right children has nothing after it, and the mirror image. */
  ghost predicate AllRight(p: Path) {
    p == Top || (p.R? && AllRight(p.up))
  }

  ghost predicate AllLeft(p: Path) {
    p == Top || (p.L? && AllLeft(p.up))
  }

  lemma {:induction false} AllRightAfter(p: Path)
    requires AllRight(p)
    ensures After(p) == []
  {
    if p != Top { AllRightAfter(p.up); }
  }

  lemma {:induction false} AllLeftBefore(p: Path)
    requires AllLeft(p)
    ensures Before(p) == []
  {
    if p != Top { AllLeftBefore(p.up); }
  }

  /** The last node of a subtree. */
  method Rightmost(tree: Root, start: Node, ghost t: Tree, ghost parent: Node?)
    returns (n: Node, ghost q: Path, ghost s: Tree)
    requires tree.Sync() && t.Fork? && start == t.n && Linked(tree.mem, t, parent)
    ensures Plug(q, s) == t && AllRight(q) && s.Fork? && s.n == n && s.right.Leaf?
  {
    hide Root.Sync;
    n := start;
    q, s := Top, t;
    ghost var up := parent;
    while true
      invariant Plug(q, s) == t && AllRight(q) && s.Fork? && s.n == n && Linked(tree.mem, s, up)
      decreases s
    {
      tree.Fields(n);
      if n.right == null {
        return;
      }
      q, s, up, n := R(s.left, s.n, s.mark, q), s.right, s.n, n.right;
    }
  }

  /** The first node of a subtree. */
  method Leftmost(tree: Root, start: Node, ghost t: Tree, ghost parent: Node?)
    returns (n: Node, ghost q: Path, ghost s: Tree)
    requires tree.Sync() && t.Fork? && start == t.n && Linked(tree.mem, t, parent)
    ensures Plug(q, s) == t && AllLeft(q) && s.Fork? && s.n == n && s.left.Leaf?
  {
    hide Root.Sync;
    n := start;
    q, s := Top, t;
    ghost var up := parent;
    while true
      invariant Plug(q, s) == t && AllLeft(q) && s.Fork? && s.n == n && Linked(tree.mem, s, up)
      decreases s
    {
      tree.Fields(n);
      if n.left == null {
        return;
      }
      q, s, up, n := L(s.n, s.mark, s.right, q), s.left, s.n, n.left;
    }
  }

  // ---- exchanging a node with its neighbour in order

  /** Node `x` with its predecessor `y` at the end of `q` in its left subtree. */
  ghost predicate Predecessor(t: Tree, p: Path, q: Path, l2: Tree, y: Node, k2: int, x: Node, k: int, r: Tree) {
    t == Plug(p, Fork(Plug(q, Fork(l2, y, k2, Leaf)), x, k, r)) && AllRight(q)
  }

  lemma PredecessorExchangeable(m: Mem, root: Node?, t: Tree, p: Path, q: Path, l2: Tree, y: Node, k2: int, x: Node,
                                k: int, r: Tree)
    requires Is(m, root, t) && Predecessor(t, p, q, l2, y, k2, x, k, r)
    ensures Exchangeable(m, root, t, x, y)
    ensures x !in PathNodes(p) && y !in PathNodes(p) && x !in Nodes(r) && y !in Nodes(r)
    ensures x !in PathNodes(q) && y !in PathNodes(q) && x !in Nodes(l2) && y !in Nodes(l2)
  {
    var s := Fork(l2, y, k2, Leaf);
    var l := Plug(q, s);
    AtIsPlug(m, root, p, Fork(l, x, k, r));
    ProperPlug(p, Fork(l, x, k, r));
    ProperPlug(q, s);
    LinkedPlug(m, q, s, x);
    assert y in Nodes(s);
    assert m[y].parent == Holder(q, x);
    assert m[x].parent == Holder(p, null);
    HolderWhere(q, x);
    HolderWhere(p, null);
  }

  lemma HolderWhere(p: Path, base: Node?)
    ensures (Holder(p, base) == base && p == Top) || (Holder(p, base) != null && Holder(p, base) in PathNodes(p))
  {
  }

  /** The exchanged tree: the predecessor has the upper place. */
  lemma PredecessorSwapped(t: Tree, p: Path, q: Path, l2: Tree, y: Node, k2: int, x: Node, k: int, r: Tree)
    requires Predecessor(t, p, q, l2, y, k2, x, k, r) && x != y
    requires x !in PathNodes(p) && y !in PathNodes(p) && x !in Nodes(r) && y !in Nodes(r)
    requires x !in PathNodes(q) && y !in PathNodes(q) && x !in Nodes(l2) && y !in Nodes(l2)
    ensures SwapTree(x, y, t) == Plug(Append(q, L(y, k, r, p)), Fork(l2, x, k2, Leaf))
  {
    var s := Fork(l2, y, k2, Leaf);
    SwapPlug(x, y, p, Fork(Plug(q, s), x, k, r));
    SwapPlug(x, y, q, s);
    SwapNothingPath(x, y, p);
    SwapNothingPath(x, y, q);
    SwapNothing(x, y, r);
    SwapNothing(x, y, l2);
    PlugAppend(q, L(y, k, r, p), Fork(l2, x, k2, Leaf));
  }

  /** Removing the node from its new place removes it from the old order. */
  lemma PredecessorOrder(t: Tree, p: Path, q: Path, l2: Tree, y: Node, k2: int, x: Node, k: int, r: Tree)
    requires Predecessor(t, p, q, l2, y, k2, x, k, r)
    ensures Inserted(InOrder(t), InOrder(Plug(Append(q, L(y, k, r, p)), l2)), x,
      |Before(p)| + |Before(q)| + |InOrder(l2)| + 1)
  {
    hide InOrder, Before, After, Inserted;
    var s := Fork(l2, y, k2, Leaf);
    AllRightAfter(q);
    InOrderPlug(q, s);
    InOrderPlug(q, l2);
    InOrderFork(s);
    InOrderFork(Fork(Plug(q, s), x, k, r));
    InOrderFork(Fork(Plug(q, l2), y, k, r));
    InOrderLeaf();
    InOrderPlug(p, Fork(Plug(q, s), x, k, r));
    PlugAppend(q, L(y, k, r, p), l2);
    InOrderPlug(p, Fork(Plug(q, l2), y, k, r));
    RemovedAfter(Before(p), Before(q), InOrder(l2), y, x, InOrder(r), After(p));
  }

  lemma InOrderLeaf()
    ensures InOrder(Leaf) == []
  {
  }

  lemma RemovedAfter(a: seq<Node>, b: seq<Node>, c: seq<Node>, y: Node, x: Node, d: seq<Node>, e: seq<Node>)
    ensures Inserted(a + (b + (c + [y] + []) + [] + [x] + d) + e, a + (b + c + [] + [y] + d) + e, x,
      |a| + |b| + |c| + 1)
  {
    var f, g := a + b + c + [y], d + e;
    assert a + (b + (c + [y] + []) + [] + [x] + d) + e == f + [x] + g;
    assert a + (b + c + [] + [y] + d) + e == f + g;
  }

  lemma RemovedHere(a: seq<Node>, l: seq<Node>, x: Node, r: seq<Node>, b: seq<Node>)
    ensures Inserted(a + (l + [x] + r) + b, a + (l + r) + b, x, |a| + |l|)
  {
    assert a + (l + [x] + r) + b == (a + l) + [x] + (r + b);
    assert a + (l + r) + b == (a + l) + (r + b);
  }

  /** Taking out a node with at most one child takes it out of the order. */
  lemma OneChildOrder(p: Path, f: Tree)
    requires f.Fork? && (f.left.Leaf? || f.right.Leaf?)
    ensures Inserted(InOrder(Plug(p, f)), InOrder(Plug(p, OnlyChild(f.left, f.right))), f.n,
      |Before(p)| + |InOrder(f.left)|)
  {
    hide InOrder, Before, After, Inserted;
    InOrderPlug(p, f);
    InOrderPlug(p, OnlyChild(f.left, f.right));
    InOrderFork(f);
    InOrderLeaf();
    assert InOrder(OnlyChild(f.left, f.right)) == InOrder(f.left) + InOrder(f.right);
    RemovedHere(Before(p), InOrder(f.left), f.n, InOrder(f.right), After(p));
  }

  /** Two local changes with the same order give trees with the same order. */
  lemma SameOrder(p: Path, a: Tree, b: Tree)
    requires InOrder(a) == InOrder(b)
    ensures InOrder(Plug(p, a)) == InOrder(Plug(p, b))
  {
    InOrderPlug(p, a);
    InOrderPlug(p, b);
  }

  /** Node `x` with its successor `y` at the end of `q` in its right subtree. */
  ghost predicate Successor(t: Tree, p: Path, q: Path, y: Node, k2: int, r2: Tree, l: Tree, x: Node, k: int) {
    t == Plug(p, Fork(l, x, k, Plug(q, Fork(Leaf, y, k2, r2)))) && AllLeft(q)
  }

  lemma SuccessorExchangeable(m: Mem, root: Node?, t: Tree, p: Path, q: Path, y: Node, k2: int, r2: Tree, l: Tree,
                              x: Node, k: int)
    requires Is(m, root, t) && Successor(t, p, q, y, k2, r2, l, x, k)
    ensures Exchangeable(m, root, t, x, y)
    ensures x !in PathNodes(p) && y !in PathNodes(p) && x !in Nodes(l) && y !in Nodes(l)
    ensures x !in PathNodes(q) && y !in PathNodes(q) && x !in Nodes(r2) && y !in Nodes(r2)
  {
    var s := Fork(Leaf, y, k2, r2);
    var r := Plug(q, s);
    AtIsPlug(m, root, p, Fork(l, x, k, r));
    ProperPlug(p, Fork(l, x, k, r));
    ProperPlug(q, s);
    LinkedPlug(m, q, s, x);
    assert y in Nodes(s);
    assert m[y].parent == Holder(q, x);
    assert m[x].parent == Holder(p, null);
    HolderWhere(q, x);
    HolderWhere(p, null);
  }

  /** The exchanged tree: the successor has the upper place. */
  lemma SuccessorSwapped(t: Tree, p: Path, q: Path, y: Node, k2: int, r2: Tree, l: Tree, x: Node, k: int)
    requires Successor(t, p, q, y, k2, r2, l, x, k) && x != y
    requires x !in PathNodes(p) && y !in PathNodes(p) && x !in Nodes(l) && y !in Nodes(l)
    requires x !in PathNodes(q) && y !in PathNodes(q) && x !in Nodes(r2) && y !in Nodes(r2)
    ensures SwapTree(x, y, t) == Plug(Append(q, R(l, y, k, p)), Fork(Leaf, x, k2, r2))
  {
    var s := Fork(Leaf, y, k2, r2);
    SwapPlug(x, y, p, Fork(l, x, k, Plug(q, s)));
    SwapPlug(x, y, q, s);
    SwapNothingPath(x, y, p);
    SwapNothingPath(x, y, q);
    SwapNothing(x, y, l);
    SwapNothing(x, y, r2);
    PlugAppend(q, R(l, y, k, p), Fork(Leaf, x, k2, r2));
  }

  lemma SuccessorOrder(t: Tree, p: Path, q: Path, y: Node, k2: int, r2: Tree, l: Tree, x: Node, k: int)
    requires Successor(t, p, q, y, k2, r2, l, x, k)
    ensures Inserted(InOrder(t), InOrder(Plug(Append(q, R(l, y, k, p)), r2)), x, |Before(p)| + |InOrder(l)|)
  {
    hide InOrder, Before, After, Inserted;
    var s := Fork(Leaf, y, k2, r2);
    AllLeftBefore(q);
    InOrderPlug(q, s);
    InOrderPlug(q, r2);
    InOrderFork(s);
    InOrderFork(Fork(l, x, k, Plug(q, s)));
    InOrderFork(Fork(l, y, k, Plug(q, r2)));
    InOrderLeaf();
    InOrderPlug(p, Fork(l, x, k, Plug(q, s)));
    PlugAppend(q, R(l, y, k, p), r2);
    InOrderPlug(p, Fork(l, y, k, Plug(q, r2)));
    RemovedBefore(Before(p), InOrder(l), x, y, InOrder(r2), After(q), After(p));
  }

  lemma RemovedBefore(a: seq<Node>, b: seq<Node>, x: Node, y: Node, c: seq<Node>, d: seq<Node>, e: seq<Node>)
    ensures Inserted(a + (b + [x] + ([] + ([] + [y] + c) + d)) + e, a + (b + [y] + ([] + c + d)) + e, x, |a| + |b|)
  {
    var f, g := a + b, [y] + c + d + e;
    assert a + (b + [x] + ([] + ([] + [y] + c) + d)) + e == f + [x] + g;
    assert a + (b + [y] + ([] + c + d)) + e == f + g;
  }
}
