/** `timerlink.c`: a binary heap of timers whose nodes are linked as a tree and addressed by
    their index in the corresponding array heap. The nodes' `mark` is not used here. */
module TimerHeap {
  import opened IntrusiveTree

  /** The field time64 of the timers. */
  type Times = map<Node, int>

  function TimeOf(time: Times, n: Node): int {
    if n in time then time[n] else 0
  }

  // ---- shape: the tree is an array of n slots

  /** The array index of the slot at the end of a path. */
  function Index(p: Path): nat {
    match p
    case Top => 0
    case L(_, _, _, up) => 2 * Index(up) + 1
    case R(_, _, _, up) => 2 * Index(up) + 2
  }

  /** Below slot `i`, exactly the slots under `n` are taken. */
  ghost predicate Shape(t: Tree, i: nat, n: nat) {
    match t
    case Leaf => n <= i
    case Fork(l, _, _, r) => i < n && Shape(l, 2 * i + 1, n) && Shape(r, 2 * i + 2, n)
  }

  ghost predicate ShapePath(p: Path, n: nat) {
    match p
    case Top => true
    case L(_, _, r, up) => Index(up) < n && Shape(r, 2 * Index(up) + 2, n) && ShapePath(up, n)
    case R(l, _, _, up) => Index(up) < n && Shape(l, 2 * Index(up) + 1, n) && ShapePath(up, n)
  }

  lemma {:induction false} ShapePlug(p: Path, t: Tree, n: nat)
    ensures Shape(Plug(p, t), 0, n) <==> Shape(t, Index(p), n) && ShapePath(p, n)
    decreases p
  {
    match p
    case Top =>
    case L(x, k, r, up) => ShapePlug(up, Fork(t, x, k, r), n);
    case R(l, x, k, up) => ShapePlug(up, Fork(l, x, k, t), n);
  }

  /** Slot `j` is slot `i` or below it. */
  ghost predicate Under(i: nat, j: nat)
    decreases j
  {
    i == j || (i < j && Under(i, (j - 1) / 2))
  }

  lemma {:induction false} UnderChild(i: nat, j: nat)
    ensures Under(2 * i + 1, j) || Under(2 * i + 2, j) ==> Under(i, j) && i < j
    ensures !(Under(2 * i + 1, j) && Under(2 * i + 2, j))
    decreases j
  {
    if j == 2 * i + 1 || j == 2 * i + 2 {
      assert (j - 1) / 2 == i;
    } else if j > 2 * i + 1 {
      UnderChild(i, (j - 1) / 2);
    }
  }

  /** Taking or freeing slot `j` does not concern a subtree that does not hold it. */
  lemma {:induction false} ShapeElsewhere(t: Tree, i: nat, n: nat, n': nat, j: nat)
    requires Shape(t, i, n) && !Under(i, j)
    requires (j == n && n' == n + 1) || (j == n' && n == n' + 1)
    ensures Shape(t, i, n')
    decreases t
  {
    if t.Fork? {
      UnderChild(i, j);
      ShapeElsewhere(t.left, 2 * i + 1, n, n', j);
      ShapeElsewhere(t.right, 2 * i + 2, n, n', j);
    }
  }

  lemma {:induction false} ShapePathElsewhere(p: Path, n: nat, n': nat, j: nat)
    requires ShapePath(p, n) && Under(Index(p), j)
    requires (j == n && n' == n + 1) || (j == n' && n == n' + 1)
    ensures ShapePath(p, n')
  {
    if p != Top {
      var u := Index(p.up);
      UnderChild(u, j);
      ShapePathElsewhere(p.up, n, n', j);
      if p.L? {
        ShapeElsewhere(p.right, 2 * u + 2, n, n', j);
      } else {
        ShapeElsewhere(p.left, 2 * u + 1, n, n', j);
      }
    }
  }

  /** Filling the first free slot, or freeing the last one, gives the next size. */
  lemma SlotFilled(p: Path, x: Node, k: int, n: nat)
    requires Index(p) == n
    ensures Shape(Plug(p, Leaf), 0, n) <==> Shape(Plug(p, Fork(Leaf, x, k, Leaf)), 0, n + 1)
  {
    ShapePlug(p, Leaf, n);
    ShapePlug(p, Fork(Leaf, x, k, Leaf), n + 1);
    if ShapePath(p, n) {
      ShapePathElsewhere(p, n, n + 1, n);
    }
    if ShapePath(p, n + 1) {
      ShapePathElsewhere(p, n + 1, n, n);
    }
  }

  /** The last slot has no children. */
  lemma LastSlot(p: Path, t: Tree, n: nat)
    requires Shape(Plug(p, t), 0, n) && Index(p) == n - 1 && t.Fork?
    ensures t.left == Leaf && t.right == Leaf
  {
    ShapePlug(p, t, n);
  }

  /** Unless it is the root, the last slot has a parent, and no sibling to its right. */
  lemma LastSlotAbove(p: Path, x: Node, k: int, n: nat)
    requires Shape(Plug(p, Fork(Leaf, x, k, Leaf)), 0, n) && Index(p) == n - 1 && 2 <= n
    ensures p != Top && (p.L? ==> p.right == Leaf)
  {
    ShapePlug(p, Fork(Leaf, x, k, Leaf), n);
  }

  // ---- the way to a slot

  /** The turns from slot `n` up to the root, true for a right child. */
  function Steps(n: nat): seq<bool> {
    if n == 0 then [] else [n % 2 == 0] + Steps((n - 1) / 2)
  }

  function Slot(s: seq<bool>): nat {
    if s == [] then 0 else 2 * Slot(s[1..]) + if s[0] then 2 else 1
  }

  lemma {:induction false} SlotOfSteps(n: nat)
    ensures Slot(Steps(n)) == n
    decreases n
  {
    if n != 0 {
      var k := (n - 1) / 2;
      SlotOfSteps(k);
      SlotCons(n % 2 == 0, Steps(k));
      assert Steps(n) == [n % 2 == 0] + Steps(k);
      hide Slot, Steps;
      assert n == 2 * k + if n % 2 == 0 then 2 else 1;
    }
  }

  lemma SlotCons(b: bool, s: seq<bool>)
    ensures Slot([b] + s) == 2 * Slot(s) + if b then 2 else 1
  {
    assert ([b] + s)[1..] == s;
  }

  lemma {:induction false} SlotOfRest(s: seq<bool>, i: nat)
    requires i <= |s|
    ensures Slot(s[i..]) <= Slot(s)
    decreases i
  {
    if i == 0 {
      assert s[0..] == s;
    } else {
      SlotOfRest(s[1..], i - 1);
      assert s[i..] == s[1..][i - 1..];
    }
  }

  // ---- order

  /** The root of `t`, if any, is not due before `v`. */
  ghost predicate Least(t: Tree, v: int, time: Times) {
    t.Leaf? || v <= TimeOf(time, t.n)
  }

  ghost predicate Ord(t: Tree, time: Times) {
    match t
    case Leaf => true
    case Fork(l, x, _, r) =>
      Ord(l, time) && Ord(r, time) && Least(l, TimeOf(time, x), time) && Least(r, TimeOf(time, x), time)
  }

  ghost predicate OrdPath(p: Path, time: Times) {
    match p
    case Top => true
    case L(x, _, r, up) =>
      Ord(r, time) && Least(r, TimeOf(time, x), time) && Below(up, TimeOf(time, x), time) && OrdPath(up, time)
    case R(l, x, _, up) =>
      Ord(l, time) && Least(l, TimeOf(time, x), time) && Below(up, TimeOf(time, x), time) && OrdPath(up, time)
  }

  /** The node at the lower end of `p` is not due after `v`. */
  ghost predicate Below(p: Path, v: int, time: Times) {
    p == Top || TimeOf(time, p.n) <= v
  }

  lemma {:induction false} OrdPlug(p: Path, t: Tree, time: Times)
    ensures Ord(Plug(p, t), time) <==>
      Ord(t, time) && OrdPath(p, time) && (p != Top ==> Least(t, TimeOf(time, p.n), time))
    decreases p
  {
    match p
    case Top =>
    case L(x, k, r, up) => OrdPlug(up, Fork(t, x, k, r), time);
    case R(l, x, k, up) => OrdPlug(up, Fork(l, x, k, t), time);
  }

  /** All is in order except perhaps the node at the end of `p` with the subtrees `l` and `r`. */
  ghost predicate OrdAround(p: Path, l: Tree, r: Tree, time: Times) {
    && OrdPath(p, time) && Ord(l, time) && Ord(r, time)
    && (p != Top ==> Least(l, TimeOf(time, p.n), time) && Least(r, TimeOf(time, p.n), time))
  }

  /** The root is due first. */
  lemma {:induction false} RootIsMinimum(t: Tree, time: Times, x: Node)
    requires Ord(t, time) && x in Nodes(t)
    ensures t.Fork? && TimeOf(time, t.n) <= TimeOf(time, x)
  {
    if x != t.n {
      if x in Nodes(t.left) {
        RootIsMinimum(t.left, time, x);
      } else {
        RootIsMinimum(t.right, time, x);
      }
    }
  }

  /** The times of other nodes do not matter. */
  lemma {:induction false} OrdOutside(t: Tree, time: Times, x: Node, v: int)
    requires x !in Nodes(t)
    ensures Ord(t, time[x := v]) == Ord(t, time)
    ensures forall w :: Least(t, w, time[x := v]) == Least(t, w, time)
  {
    if t.Fork? {
      OrdOutside(t.left, time, x, v);
      OrdOutside(t.right, time, x, v);
    }
  }

  lemma {:induction false} OrdPathOutside(p: Path, time: Times, x: Node, v: int)
    requires x !in PathNodes(p)
    ensures OrdPath(p, time[x := v]) == OrdPath(p, time)
  {
    if p != Top {
      OrdPathOutside(p.up, time, x, v);
      if p.L? { OrdOutside(p.right, time, x, v); } else { OrdOutside(p.left, time, x, v); }
    }
  }

  /** In order for some time of `x`. */
  ghost predicate OrdExcept(t: Tree, x: Node, time: Times) {
    exists v :: OrdWith(t, x, v, time)
  }

  ghost predicate OrdWith(t: Tree, x: Node, v: int, time: Times) {
    Ord(t, time[x := v])
  }

  lemma OrdExceptAround(t: Tree, p: Path, s: Tree, time: Times)
    requires t == Plug(p, s) && s.Fork? && Proper(t) && OrdExcept(t, s.n, time)
    ensures OrdAround(p, s.left, s.right, time)
  {
    var v :| OrdWith(t, s.n, v, time);
    var time' := time[s.n := v];
    OrdPlug(p, s, time');
    ProperPlug(p, s);
    OrdOutside(s.left, time, s.n, v);
    OrdOutside(s.right, time, s.n, v);
    OrdPathOutside(p, time, s.n, v);
    LeastBeyond(p, s, time');
    if p != Top {
      assert p.n in PathNodes(p);
    }
  }

  lemma LeastBeyond(p: Path, s: Tree, time: Times)
    requires s.Fork? && Ord(s, time) && (p != Top ==> Least(s, TimeOf(time, p.n), time))
    ensures p != Top ==> Least(s.left, TimeOf(time, p.n), time) && Least(s.right, TimeOf(time, p.n), time)
  {
  }

  // ---- a node and its parent trade places

  function Lifted(p: Path, s: Tree): Tree
    requires p != Top && s.Fork?
  {
    var low := Fork(s.left, p.n, s.mark, s.right);
    if p.L? then Fork(low, s.n, p.mark, p.right) else Fork(p.left, s.n, p.mark, low)
  }

  lemma LiftedIsSwap(m: Mem, root: Node?, p: Path, s: Tree)
    requires At(m, root, p, s) && p != Top && s.Fork?
    ensures SwapTree(p.n, s.n, Plug(p, s)) == Plug(p.up, Lifted(p, s))
    ensures Exchangeable(m, root, Plug(p, s), p.n, s.n) && m[s.n].parent == p.n && m[p.n].parent != s.n
  {
    var a, b := p.n, s.n;
    ForkFacts(m, root, p, s);
    AtIsPlug(m, root, p, s);
    ProperPlug(p, s);
    SwapPlug(a, b, p, s);
    SwapNothingPath(a, b, p.up);
    SwapNothing(a, b, s.left);
    SwapNothing(a, b, s.right);
    if p.L? { SwapNothing(a, b, p.right); } else { SwapNothing(a, b, p.left); }
    HolderWhere(p.up, null);
  }

  lemma {:induction false} SwapShape(a: Node, b: Node, t: Tree, i: nat, n: nat)
    ensures Shape(SwapTree(a, b, t), i, n) == Shape(t, i, n)
    decreases t
  {
    if t.Fork? {
      SwapShape(a, b, t.left, 2 * i + 1, n);
      SwapShape(a, b, t.right, 2 * i + 2, n);
    }
  }

  lemma {:induction false} SwapSameNodes(a: Node, b: Node, t: Tree)
    requires a in Nodes(t) && b in Nodes(t)
    ensures Nodes(SwapTree(a, b, t)) == Nodes(t)
  {
    hide Nodes, SwapTree;
    forall x | x in Nodes(SwapTree(a, b, t)) ensures x in Nodes(t) {
      SwapNodes(a, b, t, x);
    }
    forall x | x in Nodes(t) ensures x in Nodes(SwapTree(a, b, t)) {
      SwapNodes(a, b, t, x);
    }
  }

  /** timer_linkheap_swap_parentchild. */
  method SwapParentChild(tree: Root, parent: Node, child: Node, ghost p: Path, ghost s: Tree, ghost n: nat)
    requires tree.Sync() && At(tree.mem, tree.root, p, s) && p != Top && parent == p.n && s.Fork? && child == s.n
    modifies tree, tree.mem.Keys
    ensures tree.Sync() && At(tree.mem, tree.root, p.up, Lifted(p, s)) && tree.mem.Keys == old(tree.mem.Keys)
    ensures Shape(Plug(p.up, Lifted(p, s)), 0, n) == Shape(Plug(p, s), 0, n)
    ensures Nodes(Plug(p.up, Lifted(p, s))) == Nodes(Plug(p, s))
  {
    hide Root.Sync, At, Is, Exchangeable, Plug, Shape, Nodes;
    LiftedIsSwap(tree.mem, tree.root, p, s);
    ExchangeFacts(tree.mem, tree.root, Plug(p, s), parent, child);
    SwapShape(parent, child, Plug(p, s), 0, n);
    SwapSameNodes(parent, child, Plug(p, s));
    ExchangeBelow(tree, parent, child, Plug(p, s));
    AtIsPlug(tree.mem, tree.root, p.up, Lifted(p, s));
  }

  // ---- sifting

  /** All is in order except that the node at the end of `p` may be due before its parent. */
  ghost predicate MayRise(p: Path, s: Tree, time: Times) {
    && s.Fork? && OrdAround(p, s.left, s.right, time)
    && Least(s.left, TimeOf(time, s.n), time) && Least(s.right, TimeOf(time, s.n), time)
  }

  /** All is in order except that the node at the end of `p` may be due after its children. */
  ghost predicate MaySink(p: Path, s: Tree, time: Times) {
    s.Fork? && OrdAround(p, s.left, s.right, time) && Below(p, TimeOf(time, s.n), time)
  }

  lemma RiseStep(p: Path, s: Tree, time: Times)
    requires MayRise(p, s, time) && p != Top && TimeOf(time, p.n) > TimeOf(time, s.n)
    ensures MayRise(p.up, Lifted(p, s), time)
  {
  }

  lemma Risen(p: Path, s: Tree, time: Times)
    requires MayRise(p, s, time) && Below(p, TimeOf(time, s.n), time)
    ensures Ord(Plug(p, s), time)
  {
    OrdPlug(p, s, time);
  }

  /** The path to the left or the right child. */
  function Down(right: bool, p: Path, s: Tree): Path
    requires s.Fork?
  {
    if right then R(s.left, s.n, s.mark, p) else L(s.n, s.mark, s.right, p)
  }

  function Child(right: bool, s: Tree): Tree
    requires s.Fork?
  {
    if right then s.right else s.left
  }

  lemma SinkStep(p: Path, s: Tree, right: bool, time: Times)
    requires MaySink(p, s, time) && Child(right, s).Fork? && TimeOf(time, Child(right, s).n) < TimeOf(time, s.n)
    requires Least(Child(!right, s), TimeOf(time, Child(right, s).n), time)
    ensures var s' := Lifted(Down(right, p, s), Child(right, s));
      Child(right, s').Fork? && Child(right, s').n == s.n && MaySink(Down(right, p, s'), Child(right, s'), time)
  {
  }

  lemma Sunk(p: Path, s: Tree, time: Times)
    requires MaySink(p, s, time) && Least(s.left, TimeOf(time, s.n), time) && Least(s.right, TimeOf(time, s.n), time)
    ensures Ord(Plug(p, s), time)
  {
    OrdPlug(p, s, time);
  }

  /** timer_linkheap_siftup. */
  method SiftUp(tree: Root, link: Node, time: Times, ghost p0: Path, ghost s0: Tree, ghost n: nat)
    returns (ghost t: Tree)
    requires tree.Sync() && At(tree.mem, tree.root, p0, s0) && MayRise(p0, s0, time) && link == s0.n
    requires Shape(Plug(p0, s0), 0, n)
    modifies tree, tree.mem.Keys
    ensures tree.Sync() && Is(tree.mem, tree.root, t) && Ord(t, time) && Shape(t, 0, n)
    ensures Nodes(t) == Nodes(Plug(p0, s0))
    ensures tree.mem.Keys == old(tree.mem.Keys)
  {
    hide Root.Sync, At, Is, Shape, Nodes, OrdAround, Least, Ord, Plug, Lifted;
    ghost var p, s := p0, s0;
    while true
      invariant tree.Sync() && At(tree.mem, tree.root, p, s) && MayRise(p, s, time) && link == s.n
      invariant Shape(Plug(p, s), 0, n) && Nodes(Plug(p, s)) == Nodes(Plug(p0, s0))
      invariant tree.mem.Keys == old(tree.mem.Keys)
      decreases p
    {
      NodeFacts(tree.mem, tree.root, p, s);
      tree.Fields(link);
      var parent := link.parent;
      if parent == null || TimeOf(time, parent) <= TimeOf(time, link) {
        break;
      }
      RiseStep(p, s, time);
      LiftedTop(p, s);
      SwapParentChild(tree, parent, link, p, s, n);
      p, s := p.up, Lifted(p, s);
    }
    t := Plug(p, s);
    Risen(p, s, time);
    AtIsPlug(tree.mem, tree.root, p, s);
  }

  lemma LiftedTop(p: Path, s: Tree)
    requires p != Top && s.Fork?
    ensures Lifted(p, s).Fork? && Lifted(p, s).n == s.n
  {
  }

  /** The children of the node at the end of `p`. */
  lemma ChildTimes(m: Mem, root: Node?, p: Path, s: Tree)
    requires At(m, root, p, s) && s.Fork?
    ensures s.n in m && m[s.n].left == RootOf(s.left) && m[s.n].right == RootOf(s.right)
    ensures At(m, root, L(s.n, s.mark, s.right, p), s.left) && At(m, root, R(s.left, s.n, s.mark, p), s.right)
  {
  }

  /** In an array heap a node with a right child has a left one. */
  lemma LeftFirst(p: Path, s: Tree, n: nat)
    requires Shape(Plug(p, s), 0, n) && s.Fork? && s.left.Leaf?
    ensures s.right.Leaf?
  {
    ShapePlug(p, s, n);
  }

  /** timer_linkheap_siftdown. */
  method SiftDown(tree: Root, link: Node, time: Times, ghost p0: Path, ghost s0: Tree, ghost n: nat)
    returns (ghost t: Tree)
    requires tree.Sync() && At(tree.mem, tree.root, p0, s0) && MaySink(p0, s0, time) && link == s0.n
    requires Shape(Plug(p0, s0), 0, n)
    modifies tree, tree.mem.Keys
    ensures tree.Sync() && Is(tree.mem, tree.root, t) && Ord(t, time) && Shape(t, 0, n)
    ensures Nodes(t) == Nodes(Plug(p0, s0))
    ensures tree.mem.Keys == old(tree.mem.Keys)
  {
    hide Root.Sync, At, Is, Shape, Nodes, OrdAround, Ord, Plug, MaySink;
    ghost var p, s := p0, s0;
    SinkFork(p, s, time);
    while true
      invariant tree.Sync() && At(tree.mem, tree.root, p, s) && MaySink(p, s, time) && s.Fork? && link == s.n
      invariant Shape(Plug(p, s), 0, n) && Nodes(Plug(p, s)) == Nodes(Plug(p0, s0))
      invariant tree.mem.Keys == old(tree.mem.Keys)
      decreases Size(s)
    {
      ChildTimes(tree.mem, tree.root, p, s);
      tree.Fields(link);
      var fc, sc := link.left, link.right;
      if fc == null {
        LeftFirst(p, s, n);
        break;
      }
      var right := sc != null && !(TimeOf(time, fc) < TimeOf(time, sc));
      var minlink := if right then sc else fc;
      if TimeOf(time, minlink) >= TimeOf(time, link) {
        break;
      }
      SinkStep(p, s, right, time);
      p, s := Sink(tree, link, minlink, right, p, s, n);
    }
    t := Plug(p, s);
    Sunk(p, s, time);
    AtIsPlug(tree.mem, tree.root, p, s);
  }

  ghost function Size(t: Tree): nat {
    if t.Leaf? then 0 else 1 + Size(t.left) + Size(t.right)
  }

  lemma SinkFork(p: Path, s: Tree, time: Times)
    requires MaySink(p, s, time)
    ensures s.Fork?
  {
  }

  /** One step down, and the place where the node is then. */
  method Sink(tree: Root, link: Node, child: Node, right: bool, ghost p: Path, ghost s: Tree, ghost n: nat)
    returns (ghost p': Path, ghost s': Tree)
    requires tree.Sync() && At(tree.mem, tree.root, p, s) && s.Fork? && link == s.n && Child(right, s).Fork?
    requires child == Child(right, s).n
    modifies tree, tree.mem.Keys
    ensures tree.Sync() && At(tree.mem, tree.root, p', s') && tree.mem.Keys == old(tree.mem.Keys)
    ensures s'.Fork? && s'.n == link && s' == Child(right, Lifted(Down(right, p, s), Child(right, s)))
    ensures p' == Down(right, p, Lifted(Down(right, p, s), Child(right, s)))
    ensures Shape(Plug(p', s'), 0, n) == Shape(Plug(p, s), 0, n) && Nodes(Plug(p', s')) == Nodes(Plug(p, s))
    ensures Size(s') < Size(s)
  {
    hide Root.Sync, At, Shape, Nodes;
    ChildTimes(tree.mem, tree.root, p, s);
    ghost var q, c := Down(right, p, s), Child(right, s);
    SwapParentChild(tree, link, child, q, c, n);
    ghost var f := Lifted(q, c);
    p', s' := Down(right, p, f), Child(right, f);
    ChildTimes(tree.mem, tree.root, p, f);
  }

  // ---- finding a slot

  /** The path array of timer_linkheap_nth has one entry per bit of size_t. */
  const PATH_MAX := 64

  ghost function Pow2(k: nat): nat {
    if k == 0 then 1 else 2 * Pow2(k - 1)
  }

  lemma {:induction false} Pow2Grows(i: nat, j: nat)
    requires i <= j
    ensures Pow2(i) <= Pow2(j)
  {
    if i < j { Pow2Grows(i, j - 1); }
  }

  /** After `k` halvings of `n`. */
  ghost predicate Halved(m: nat, k: nat, n: nat) {
    (m + 1) * Pow2(k) <= n + 1
  }

  lemma NotHalved(n: nat)
    ensures Halved(n, 0, n)
  {
  }

  lemma HalfFits(m: nat, k: nat, n: nat)
    requires Halved(m, k, n) && n < Pow2(PATH_MAX) && m != 0
    ensures k < PATH_MAX && Halved((m - 1) / 2, k + 1, n)
  {
    hide Pow2;
    Pow2Twice(k);
    var h := (m - 1) / 2 + 1;
    assert 2 * h <= m + 1;
    TimesMono(2 * h, m + 1, Pow2(k));
    assert h * Pow2(k + 1) == 2 * h * Pow2(k);
    if k >= PATH_MAX {
      Pow2Grows(PATH_MAX, k);
      TimesMono(2, m + 1, Pow2(k));
      assert false;
    }
  }

  lemma Pow2Twice(k: nat)
    ensures Pow2(k + 1) == 2 * Pow2(k)
  {
  }

  lemma TimesMono(a: nat, b: nat, c: nat)
    requires a <= b
    ensures a * c <= b * c
  {
  }

  lemma TakenSlot(p: Path, s: Tree, n: nat)
    requires Shape(Plug(p, s), 0, n) && Index(p) < n
    ensures s.Fork?
  {
    ShapePlug(p, s, n);
  }

  lemma SlotStep(st: seq<bool>, i: nat)
    requires 0 < i <= |st|
    ensures Slot(st[i - 1..]) == 2 * Slot(st[i..]) + if st[i - 1] then 2 else 1
    ensures Slot(st[i - 1..]) <= Slot(st)
  {
    assert st[i - 1..][1..] == st[i..];
    SlotOfRest(st, i - 1);
  }

  /** The turns to slot `n`, written into the path array. */
  method WriteSteps(n: nat) returns (path: array<bool>, cnt: nat)
    requires n < Pow2(PATH_MAX)
    ensures path.Length == PATH_MAX && cnt <= PATH_MAX && path[..cnt] == Steps(n)
  {
    hide Halved, Pow2;
    path := new bool[PATH_MAX];
    cnt := 0;
    var m: nat := n;
    NotHalved(n);
    while m != 0
      invariant cnt <= PATH_MAX && path[..cnt] + Steps(m) == Steps(n) && Halved(m, cnt, n)
      decreases m
    {
      HalfFits(m, cnt, n);
      ghost var done := path[..cnt];
      path[cnt] := m % 2 == 0;
      assert path[..cnt + 1] == done + [m % 2 == 0];
      Assoc(done, [m % 2 == 0], Steps((m - 1) / 2));
      cnt, m := cnt + 1, (m - 1) / 2;
    }
    assert Steps(0) == [];
  }

  /** timer_linkheap_nth: the node in slot `n`. */
  method Nth(tree: Root, n: nat, ghost t: Tree, ghost size: nat) returns (link: Node, ghost p: Path, ghost s: Tree)
    requires tree.Sync() && Is(tree.mem, tree.root, t) && Shape(t, 0, size) && n < size <= Pow2(PATH_MAX)
    ensures At(tree.mem, tree.root, p, s) && t == Plug(p, s) && Index(p) == n && s.Fork? && s.n == link
  {
    hide Root.Sync, At, Is, Shape, Steps, Slot, Pow2;
    var path, cnt := WriteSteps(n);
    var st := path[..cnt];
    SlotOfSteps(n);
    p, s := Top, t;
    AtIsPlug(tree.mem, tree.root, Top, t);
    TakenSlot(Top, t, size);
    RootFacts(tree.mem, tree.root, t);
    link := tree.root;
    NoSteps(st);
    var i := cnt;
    while i > 0
      invariant 0 <= i <= cnt && At(tree.mem, tree.root, p, s) && t == Plug(p, s) && s.Fork? && s.n == link
      invariant Index(p) == Slot(st[i..]) && path[..cnt] == st
    {
      ChildTimes(tree.mem, tree.root, p, s);
      tree.Fields(link);
      SlotStep(st, i);
      i := i - 1;
      assert st[i] == path[i];
      if path[i] {
        p, s := R(s.left, s.n, s.mark, p), s.right;
        TakenSlot(p, s, size);
        link := link.right;
      } else {
        p, s := L(s.n, s.mark, s.right, p), s.left;
        TakenSlot(p, s, size);
        link := link.left;
      }
    }
    assert st[0..] == st;
  }

  lemma NoSteps(st: seq<bool>)
    ensures Slot(st[|st|..]) == 0
  {
  }

  // ---- exchanging two nodes

  /** Two nodes with the same parent. */
  lemma PartlyTwins(m: Mem, a: Node, b: Node, y: Node)
    requires y in m && y != a && y != b && a != b
    requires (m[y].left == a && m[y].right == b) || (m[y].left == b && m[y].right == a)
    ensures Partly(m, PutRight(PutLeft(m, y, m[y].right), y, m[y].left), a, b, {y}, {})
  {
  }

  method SwapSiblings(tree: Root, x1: Node, x2: Node, y: Node, ghost t: Tree)
    requires tree.Sync() && Pair(tree.mem, tree.root, t, x1, x2) && tree.mem[x1].parent == y && tree.mem[x2].parent == y
    modifies tree, tree.mem.Keys
    ensures tree.Sync() && Is(tree.mem, tree.root, SwapTree(x1, x2, t))
    ensures tree.mem.Keys == old(tree.mem.Keys)
  {
    hide Root.Sync, Is, Swapped, Nodes, Web, Pair, Neighbourly, HeldBy, Partly, ChildrenOf;
    ghost var m, root := tree.mem, tree.root;
    PairFacts(m, root, t, x1, x2);
    TwinFacts(m, x1, x2, y);
    tree.Fields(x1);
    tree.Fields(x2);
    var c1 := Cell(x1.left, x1.right, x1.parent, x1.mark);
    var c2 := Cell(x2.left, x2.right, x2.parent, x2.mark);
    TurnTwins(tree, x1, x2, y);
    SetBoth(tree, x1, x2, c1, c2, m, {y});
    AdoptBoth(tree, x1, x2, c1, c2, m, {y});
    PartlyDone(m, tree.mem, x1, x2, Nodes(t));
    ExchangedIs(m, tree.mem, root, t, x1, x2);
  }

  /** The parent exchanges its two children. */
  method TurnTwins(tree: Root, x1: Node, x2: Node, y: Node)
    requires tree.Sync() && y in tree.mem && y != x1 && y != x2 && x1 != x2
    requires var c := tree.mem[y]; (c.left == x1 && c.right == x2) || (c.left == x2 && c.right == x1)
    modifies tree`mem, tree.mem.Keys
    ensures tree.Sync() && Partly(old(tree.mem), tree.mem, x1, x2, {y}, {}) && tree.mem.Keys == old(tree.mem.Keys)
  {
    hide Root.Sync, Partly, PutLeft, PutRight;
    PartlyTwins(tree.mem, x1, x2, y);
    tree.Fields(y);
    var tmp := y.left;
    tree.SetLeft(y, y.right);
    tree.SetRight(y, tmp);
  }

  lemma TwinFacts(m: Mem, a: Node, b: Node, y: Node)
    requires Neighbourly(m, a) && Neighbourly(m, b) && a != b && a in m && b in m && m[a].parent == y
    requires m[b].parent == y
    requires HeldBy(m, a) && HeldBy(m, b) && Neighbourly(m, y)
    ensures y in m && y != a && y != b && ((m[y].left == a && m[y].right == b) || (m[y].left == b && m[y].right == a))
    ensures Opt(m[a].parent) + Opt(m[b].parent) == {y}
  {
  }

  /** timer_linkheap_swap: two nodes trade places, whatever their relation. */
  method SwapAny(tree: Root, x1: Node, x2: Node, ghost t: Tree)
    requires tree.Sync() && Pair(tree.mem, tree.root, t, x1, x2)
    modifies tree, tree.mem.Keys
    ensures tree.Sync() && Is(tree.mem, tree.root, SwapTree(x1, x2, t))
    ensures tree.mem.Keys == old(tree.mem.Keys)
  {
    hide Root.Sync, Is, Neighbourly, HeldBy, SwapTree;
    PairFacts(tree.mem, tree.root, t, x1, x2);
    tree.Fields(x1);
    tree.Fields(x2);
    var parent1, parent2 := x1.parent, x2.parent;
    if parent1 == parent2 {
      SwapSiblings(tree, x1, x2, parent1, t);
    } else {
      Exchange(tree, x1, x2, t);
    }
  }

  // ---- order after an exchange

  /** Times that follow the renaming. */
  ghost predicate Renamed(time: Times, time': Times, a: Node, b: Node, s: set<Node>) {
    forall x :: x in s ==> TimeOf(time', SwapIn(a, b, x)) == TimeOf(time, x)
  }

  lemma {:induction false} SwapOrd(a: Node, b: Node, t: Tree, time: Times, time': Times)
    requires Renamed(time, time', a, b, Nodes(t))
    ensures Ord(SwapTree(a, b, t), time') == Ord(t, time)
    ensures forall v :: Least(SwapTree(a, b, t), v, time') == Least(t, v, time)
  {
    if t.Fork? {
      SwapOrd(a, b, t.left, time, time');
      SwapOrd(a, b, t.right, time, time');
      assert t.n in Nodes(t);
    }
  }

  lemma LeafOrd(p: Path, x: Node, k: int, time: Times)
    requires Ord(Plug(p, Fork(Leaf, x, k, Leaf)), time)
    ensures Ord(Plug(p, Leaf), time)
  {
    OrdPlug(p, Fork(Leaf, x, k, Leaf), time);
    OrdPlug(p, Leaf, time);
  }

  /** With the last node in the place of the removed one, only that place can be out of order. */
  lemma RemovedOrd(t: Tree, timer: Node, last: Node, p: Path, k: int, time: Times)
    requires Proper(t) && t == Plug(p, Fork(Leaf, last, k, Leaf)) && OrdExcept(t, timer, time) && timer != last
    requires timer in Nodes(t)
    requires var p' := SwapPath(timer, last, p); timer !in Nodes(Plug(p', Leaf))
    ensures OrdExcept(Plug(SwapPath(timer, last, p), Leaf), last, time)
  {
    var v :| OrdWith(t, timer, v, time);
    var p' := SwapPath(timer, last, p);
    var time1, time2 := time[timer := v], time[last := v][timer := TimeOf(time, last)];
    assert Renamed(time1, time2, timer, last, Nodes(t));
    SwapOrd(timer, last, t, time1, time2);
    SwapPlug(timer, last, p, Fork(Leaf, last, k, Leaf));
    LeafOrd(p', timer, k, time2);
    OrdOutside(Plug(p', Leaf), time[last := v], timer, TimeOf(time, last));
    assert OrdWith(Plug(p', Leaf), last, v, time);
  }

  /** The timer that was the last is not in the tree any more. */
  lemma LeafGone(t: Tree, p: Path, x: Node, k: int)
    requires Proper(t) && t == Plug(p, Fork(Leaf, x, k, Leaf))
    ensures Nodes(Plug(p, Leaf)) == Nodes(t) - {x} && x !in PathNodes(p) && Proper(Plug(p, Leaf))
  {
    ProperPlug(p, Fork(Leaf, x, k, Leaf));
    ProperPlug(p, Leaf);
  }

  lemma Starts(p: Path, s: Tree, time: Times)
    requires s.Fork? && OrdAround(p, s.left, s.right, time)
    ensures if p != Top && TimeOf(time, s.n) < TimeOf(time, p.n) then MayRise(p, s, time) else MaySink(p, s, time)
  {
  }

  /** timer_linkheap_modify, and the end of timer_linkheap_remove: brings one timer to its place. */
  method Resift(tree: Root, link: Node, time: Times, ghost t: Tree, ghost n: nat) returns (ghost t': Tree)
    requires tree.Sync() && Is(tree.mem, tree.root, t) && link in Nodes(t) && OrdExcept(t, link, time) && Shape(t, 0, n)
    modifies tree, tree.mem.Keys
    ensures tree.Sync() && Is(tree.mem, tree.root, t') && Ord(t', time) && Shape(t', 0, n) && Nodes(t') == Nodes(t)
    ensures tree.mem.Keys == old(tree.mem.Keys)
  {
    hide Root.Sync, At, Shape, Ord, OrdExcept, OrdAround, MayRise, MaySink, Nodes;
    ghost var where := Locate(Top, t, link);
    ghost var p, s := where.0, where.1;
    AtIsPlug(tree.mem, tree.root, p, s);
    OrdExceptAround(t, p, s, time);
    Starts(p, s, time);
    NodeFacts(tree.mem, tree.root, p, s);
    tree.Fields(link);
    var parent := link.parent;
    if parent == null {
      t' := SiftDown(tree, link, time, p, s, n);
    } else if TimeOf(time, link) < TimeOf(time, parent) {
      t' := SiftUp(tree, link, time, p, s, n);
    } else {
      t' := SiftDown(tree, link, time, p, s, n);
    }
  }

  // ---- the heap

  /** Where the next timer goes: the first free slot, below the node in slot (n - 1) / 2. */
  lemma NextSlot(p: Path, s: Tree, n: nat)
    requires Shape(Plug(p, s), 0, n) && 0 < n && Index(p) == (n - 1) / 2 && s.Fork?
    ensures s.right == Leaf
    ensures if s.left == Leaf then Index(L(s.n, s.mark, s.right, p)) == n else Index(R(s.left, s.n, s.mark, p)) == n
  {
    ShapePlug(p, s, n);
  }

  lemma LeafMayRise(p: Path, x: Node, k: int, time: Times)
    requires Ord(Plug(p, Leaf), time)
    ensures MayRise(p, Fork(Leaf, x, k, Leaf), time)
  {
    OrdPlug(p, Leaf, time);
  }

  lemma GrownNodes(p: Path, x: Node, k: int)
    ensures Nodes(Plug(p, Fork(Leaf, x, k, Leaf))) == Nodes(Plug(p, Leaf)) + {x}
  {
    ProperPlug(p, Fork(Leaf, x, k, Leaf));
    ProperPlug(p, Leaf);
  }

  lemma OneTimer(x: Node, time: Times)
    ensures var t := Fork(Leaf, x, 0, Leaf); Ord(t, time) && Shape(t, 0, 1) && Nodes(t) == {x}
  {
  }

  /** The tree is empty exactly when no slot is taken. */
  lemma EmptyHeap(m: Mem, root: Node?, t: Tree, n: nat)
    requires Is(m, root, t) && Shape(t, 0, n)
    ensures root == RootOf(t) && (n == 0 <==> root == null) && (t.Leaf? ==> Nodes(t) == {})
  {
  }

  class LinkHeap {
    const tree: Root
    var size: nat
    ghost var shape: Tree

    ghost function Timers(): set<Node>
      reads this
    {
      Nodes(shape)
    }

    /** An array heap of `size` timers, in order except perhaps for the timer `x`. */
    ghost predicate ValidExcept(x: Node, time: Times)
      reads this, tree, tree.mem.Keys
    {
      Linked() && OrdExcept(shape, x, time)
    }

    ghost predicate Valid(time: Times)
      reads this, tree, tree.mem.Keys
    {
      Linked() && Ord(shape, time)
    }

    ghost predicate Linked()
      reads this, tree, tree.mem.Keys
    {
      && tree.Sync() && Is(tree.mem, tree.root, shape) && Shape(shape, 0, size)
      && size < Pow2(PATH_MAX) && tree.mem.Keys == Nodes(shape)
    }

    lemma Holds(time: Times)
      requires Valid(time)
      ensures tree.mem.Keys == Timers()
    {
    }

    lemma HoldsBut(x: Node, time: Times)
      requires ValidExcept(x, time)
      ensures tree.mem.Keys == Timers()
    {
    }

    lemma AnyBut(x: Node, time: Times)
      requires Valid(time)
      ensures x in time ==> ValidExcept(x, time)
    {
      if x in time {
        assert time[x := time[x]] == time;
        assert OrdWith(shape, x, time[x], time);
      }
    }

    /** A timer's time may change: the heap it is in is then in order except for it. */
    lemma Retimed(x: Node, v: int, time: Times)
      requires Valid(time)
      ensures x in Timers() && x in time ==> ValidExcept(x, time[x := v])
      ensures x !in Timers() ==> Valid(time[x := v])
    {
      OrdRetimed(shape, time, x, v);
    }

    constructor ()
      ensures Linked() && forall time :: Valid(time)
      ensures Timers() == {} && fresh(tree) && tree.mem.Keys == {} && size == 0
    {
      tree := new Root();
      size, shape := 0, Leaf;
      new;
      Pow2Grows(0, PATH_MAX);
    }

    /** timer_linkheap_next_expiry_timer: a timer that is due first. */
    method NextExpiryTimer(time: Times) returns (first: Node?)
      requires Valid(time)
      ensures first == null <==> Timers() == {}
      ensures first != null ==>
        first in Timers() && forall x :: x in Timers() ==> TimeOf(time, first) <= TimeOf(time, x)
    {
      EmptyHeap(tree.mem, tree.root, shape, size);
      first := tree.root;
      if first != null {
        forall x | x in Timers() ensures TimeOf(time, first) <= TimeOf(time, x) {
          RootIsMinimum(shape, time, x);
        }
      }
    }

    /** timer_linkheap_add. */
    method Add(timer: Node, time: Times)
      requires Valid(time) && timer !in Timers() && size + 1 < Pow2(PATH_MAX)
      modifies this, tree, tree.mem.Keys, timer
      ensures Valid(time) && Timers() == old(Timers()) + {timer} && size == old(size) + 1
    {
      hide Root.Sync, Is, At, Shape, Ord, Nodes, Pow2, MayRise;
      EmptyHeap(tree.mem, tree.root, shape, size);
      if tree.root == null {
        AddFirst(timer, time);
      } else {
        ghost var pp := Hook(timer);
        LeafMayRise(pp, timer, 0, time);
        SlotFilled(pp, timer, 0, size);
        GrownNodes(pp, timer, 0);
        size := size + 1;
        shape := SiftUp(tree, timer, time, pp, Fork(Leaf, timer, 0, Leaf), size);
      }
    }

    method AddFirst(timer: Node, ghost time: Times)
      requires Linked() && tree.root == null && size == 0 && Timers() == {} && 1 < Pow2(PATH_MAX)
      modifies this, tree, tree.mem.Keys, timer
      ensures Valid(time) && Timers() == {timer} && size == 1
    {
      hide Root.Sync, Is, At, Shape, Ord, Nodes, Pow2;
      size := size + 1;
      tree.Enter(timer, 0);
      tree.SetParent(timer, null);
      tree.SetRoot(timer);
      FirstNode(tree.mem, timer);
      shape := Fork(Leaf, timer, 0, Leaf);
      AtIsPlug(tree.mem, tree.root, Top, shape);
      OneTimer(timer, time);
    }

    /** Hangs the timer in the first free slot. */
    method Hook(timer: Node) returns (ghost pp: Path)
      requires Linked() && timer !in Timers() && 0 < size
      modifies tree, tree.mem.Keys, timer
      ensures tree.Sync() && At(tree.mem, tree.root, pp, Fork(Leaf, timer, 0, Leaf))
      ensures tree.mem.Keys == old(tree.mem.Keys) + {timer}
      ensures shape == Plug(pp, Leaf) && Index(pp) == size
    {
      hide Root.Sync, Is, At, Shape, Nodes, Pow2;
      var newParent;
      ghost var p, s;
      newParent, p, s := Nth(tree, (size - 1) / 2, shape, size);
      NextSlot(p, s, size);
      ChildTimes(tree.mem, tree.root, p, s);
      tree.Fields(newParent);
      var left := newParent.left == null;
      if newParent.right != null {
        assert false;
      }
      pp := if left then L(s.n, s.mark, s.right, p) else R(s.left, s.n, s.mark, p);
      Graft(tree, timer, 0, newParent, left, pp, shape);
    }

    /** timer_linkheap_modify: the timer's time has changed. */
    method Modify(timer: Node, time: Times)
      requires ValidExcept(timer, time) && timer in Timers()
      modifies this, tree, tree.mem.Keys
      ensures Valid(time) && Timers() == old(Timers()) && size == old(size)
    {
      hide Root.Sync, Is, Shape, Ord, OrdExcept, Nodes, Pow2;
      shape := Resift(tree, timer, time, shape, size);
    }

    /** timer_linkheap_last, with the source's check that it has no children. */
    method FindLast() returns (last: Node, ghost p: Path, ghost k: int)
      requires Linked() && 0 < size
      ensures shape == Plug(p, Fork(Leaf, last, k, Leaf)) && Index(p) == size - 1 && Proper(shape)
      ensures At(tree.mem, tree.root, p, Fork(Leaf, last, k, Leaf))
    {
      hide Root.Sync, Is, At, Shape, Pow2;
      ghost var s;
      last, p, s := Nth(tree, size - 1, shape, size);
      LastSlot(p, s, size);
      ShapeIsProper(tree.mem, tree.root, shape);
      ChildTimes(tree.mem, tree.root, p, s);
      tree.Fields(last);
      if last.left != null || last.right != null {
        assert false;
      }
      k := s.mark;
    }

    ghost method LetGo(t: Tree, timer: Node)
      requires tree.Sync() && Is(tree.mem, tree.root, t) && timer !in Nodes(t)
      modifies tree`mem
      ensures tree.Sync() && Is(tree.mem, tree.root, t) && tree.mem.Keys == old(tree.mem.Keys) - {timer}
    {
      hide Root.Sync;
      Forgotten(tree.mem, tree.root, t, timer);
      tree.Forget(timer);
    }

    /** Takes the timer out of the last slot. */
    method Unlink(timer: Node, ghost p: Path, ghost k: int)
      requires tree.Sync() && At(tree.mem, tree.root, p, Fork(Leaf, timer, k, Leaf))
      modifies tree, tree.mem.Keys
      ensures tree.Sync() && Is(tree.mem, tree.root, Plug(p, Leaf)) && tree.mem.Keys == old(tree.mem.Keys)
    {
      SpliceOut(tree, timer, null, p, Leaf, k, Leaf);
      AtIsPlug(tree.mem, tree.root, p, Leaf);
    }

    /** Takes the timer out of the last slot of several, with the source's checks. */
    method UnlinkBelow(timer: Node, ghost p: Path, ghost k: int)
      requires tree.Sync() && At(tree.mem, tree.root, p, Fork(Leaf, timer, k, Leaf))
      requires p != Top && (p.L? ==> p.right == Leaf)
      modifies tree, tree.mem.Keys
      ensures tree.Sync() && Is(tree.mem, tree.root, Plug(p, Leaf)) && tree.mem.Keys == old(tree.mem.Keys)
    {
      hide Root.Sync, Is, At, Plug, Nodes;
      ghost var m, root := tree.mem, tree.root;
      LastFacts(m, root, p, timer, k);
      tree.Fields(timer);
      var parent := timer.parent;
      tree.Fields(parent);
      if parent.left == timer {
        if parent.right != null {
          assert false;
        }
        tree.SetLeft(parent, null);
      } else if parent.right == timer {
        tree.SetRight(parent, null);
      } else {
        assert false;
      }
      assert tree.mem == PutChild(m, p, null);
      tree.SetParent(timer, null);
      tree.Fields(timer);
      if timer.left != null || timer.right != null {
        assert false;
      }
    }

    /** The removed timer is the last one. */
    method DropLast(timer: Node, ghost p: Path, ghost k: int, ghost time: Times)
      requires ValidExcept(timer, time) && 0 < size && shape == Plug(p, Fork(Leaf, timer, k, Leaf))
      requires Index(p) == size - 1
      modifies this, tree, tree.mem.Keys
      ensures Valid(time) && Timers() == old(Timers()) - {timer} && size == old(size) - 1
    {
      hide Root.Sync, Is, At, Shape, Ord, OrdExcept, Nodes, Pow2;
      AtIsPlug(tree.mem, tree.root, p, Fork(Leaf, timer, k, Leaf));
      ShapeIsProper(tree.mem, tree.root, shape);
      LastOrd(shape, p, k, timer, time);
      LeafGone(shape, p, timer, k);
      SlotFilled(p, timer, k, size - 1);
      Unlink(timer, p, k);
      LetGo(Plug(p, Leaf), timer);
      shape := Plug(p, Leaf);
      size := size - 1;
    }

    /** Puts the last timer in the place of the removed one. */
    method Replace(timer: Node, last: Node, ghost p: Path, ghost k: int, ghost time: Times) returns (ghost t: Tree)
      requires ValidExcept(timer, time) && timer in Timers() && timer != last && 0 < size
      requires shape == Plug(p, Fork(Leaf, last, k, Leaf)) && Index(p) == size - 1
      modifies tree, tree.mem.Keys
      ensures tree.Sync() && Is(tree.mem, tree.root, t) && tree.mem.Keys == Nodes(t)
      ensures Shape(t, 0, size - 1) && Nodes(t) == old(Timers()) - {timer} && last in Nodes(t)
      ensures OrdExcept(t, last, time)
    {
      hide Root.Sync, Is, At, Shape, Ord, OrdExcept, Nodes, Pow2, SwapTree, SwapPath, Plug;
      ghost var p', t2 := SwapPath(timer, last, p), SwapTree(timer, last, shape);
      ReplacedFacts(tree.mem, tree.root, shape, timer, last, p, k, size);
      SwapAny(tree, timer, last, shape);
      AtIsPlug(tree.mem, tree.root, p', Fork(Leaf, timer, k, Leaf));
      LeafGone(t2, p', timer, k);
      RemovedOrd(shape, timer, last, p, k, time);
      UnlinkBelow(timer, p', k);
      t := Plug(p', Leaf);
      LetGo(t, timer);
    }

    /** timer_linkheap_remove, which also works when the timer's time has already been changed. */
    method Remove(timer: Node, time: Times)
      requires ValidExcept(timer, time) && timer in Timers()
      modifies this, tree, tree.mem.Keys
      ensures Valid(time) && Timers() == old(Timers()) - {timer} && size == old(size) - 1
    {
      hide Root.Sync, Is, At, Shape, Ord, OrdExcept, Nodes, Pow2, OrdAround;
      TakenSome(shape, size, timer);
      var last;
      ghost var p, k;
      last, p, k := FindLast();
      if timer == last {
        DropLast(timer, p, k, time);
      } else {
        shape := Replace(timer, last, p, k, time);
        size := size - 1;
        shape := Resift(tree, last, time, shape, size);
      }
    }
  }

  /** The exchanged tree: same nodes, same slots, and the timer in the last one. */
  lemma ReplacedFacts(m: Mem, root: Node?, t: Tree, timer: Node, last: Node, p: Path, k: int, n: nat)
    requires Is(m, root, t) && timer in Nodes(t) && timer != last && t == Plug(p, Fork(Leaf, last, k, Leaf)) && 0 < n
    requires Index(p) == n - 1 && Shape(t, 0, n)
    ensures Pair(m, root, t, timer, last)
    ensures var p' := SwapPath(timer, last, p);
      && SwapTree(timer, last, t) == Plug(p', Fork(Leaf, timer, k, Leaf)) && Proper(SwapTree(timer, last, t))
      && Nodes(SwapTree(timer, last, t)) == Nodes(t) && Proper(t) && last in Nodes(t)
      && Shape(Plug(p', Leaf), 0, n - 1) && p' != Top && (p'.L? ==> p'.right == Leaf)
  {
    ProperPlug(p, Fork(Leaf, last, k, Leaf));
    assert last in Nodes(t);
    TreeIsWeb(m, root, t);
    SwapPlug(timer, last, p, Fork(Leaf, last, k, Leaf));
    SwapSameNodes(timer, last, t);
    SwapProper(timer, last, t);
    SwapShape(timer, last, t, 0, n);
    SwapIndex(timer, last, p);
    SlotFilled(SwapPath(timer, last, p), timer, k, n - 1);
    if n == 1 {
      OneSlot(p);
      assert false;
    }
    LastSlotAbove(SwapPath(timer, last, p), timer, k, n);
  }

  lemma OneSlot(p: Path)
    requires Index(p) == 0
    ensures p == Top
  {
  }

  /** The links of a timer in the last slot of several and of its parent, and what is left without it. */
  lemma LastFacts(m: Mem, root: Node?, p: Path, x: Node, k: int)
    requires At(m, root, p, Fork(Leaf, x, k, Leaf)) && p != Top && (p.L? ==> p.right == Leaf)
    ensures x in m && p.n in m && x != p.n && m[x] == Cell(null, null, p.n, k)
    ensures (p.L? <==> m[p.n].left == x) && (p.R? <==> m[p.n].right == x) && (p.L? ==> m[p.n].right == null)
    ensures root == TopOf(p, null)
    ensures Is(PutParent(PutChild(m, p, null), x, null), root, Plug(p, Leaf))
  {
    if p.R? {
      RootIn(p.left);
    }
    SplicedFacts(m, root, p, Leaf, x, k, Leaf);
    SplicedAt(m, root, p, Leaf, x, k, Leaf);
    AtIsPlug(PutChild(m, p, null), root, p, Leaf);
    ProperPlug(p, Leaf);
    Detached(PutChild(m, p, null), root, Plug(p, Leaf), x);
  }

  lemma {:induction false} SwapIndex(a: Node, b: Node, p: Path)
    ensures Index(SwapPath(a, b, p)) == Index(p)
  {
    if p != Top { SwapIndex(a, b, p.up); }
  }

  lemma Detached(m: Mem, root: Node?, t: Tree, x: Node)
    requires Is(m, root, t) && x !in Nodes(t) && x in m
    ensures Is(PutParent(m, x, null), root, t)
  {
    AtIsPlug(m, root, Top, t);
    OutsideKept(m, root, Top, t, x, m[x].(parent := null));
    AtIsPlug(PutParent(m, x, null), root, Top, t);
  }

  lemma Forgotten(m: Mem, root: Node?, t: Tree, x: Node)
    requires Is(m, root, t) && x !in Nodes(t)
    ensures Is(m - {x}, root, t)
  {
    LinkedKept(m, m - {x}, t, null);
  }

  lemma OrdRetimed(t: Tree, time: Times, x: Node, v: int)
    requires Ord(t, time)
    ensures x in time ==> OrdExcept(t, x, time[x := v])
    ensures x !in Nodes(t) ==> Ord(t, time[x := v])
  {
    if x !in Nodes(t) {
      OrdOutside(t, time, x, v);
    }
    if x in time {
      assert time[x := v][x := time[x]] == time;
      assert OrdWith(t, x, time[x], time[x := v]);
    }
  }

  lemma TakenSome(t: Tree, n: nat, x: Node)
    requires Shape(t, 0, n) && x in Nodes(t)
    ensures 0 < n
  {
  }

  lemma ShapeIsProper(m: Mem, root: Node?, t: Tree)
    requires Is(m, root, t)
    ensures Proper(t)
  {
  }

  lemma LastOrd(t: Tree, p: Path, k: int, x: Node, time: Times)
    requires t == Plug(p, Fork(Leaf, x, k, Leaf)) && Proper(t) && OrdExcept(t, x, time)
    ensures Ord(Plug(p, Leaf), time)
  {
    OrdExceptAround(t, p, Fork(Leaf, x, k, Leaf), time);
    OrdPlug(p, Leaf, time);
  }
}
