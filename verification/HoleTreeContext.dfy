/** `iprbexplicit.c`: reassembly with the holes in a red-black tree. The tree nodes are
    embedded in the packets and in the context; `hole` tells which hole a node stands for. */
module HoleTreeContext {
  import opened Fragments
  import opened Holes
  import opened IntrusiveTree
  import RbTree
  import HoleListContext

  type HoleMap = map<Node, Hole>

  function HoleOf(h: HoleMap, n: Node): Hole {
    if n in h then h[n] else Hole(0, 0)
  }

  /** The holes of a list of nodes. */
  ghost function Spell(s: seq<Node>, h: HoleMap): (r: seq<Hole>)
    ensures |r| == |s| && forall i :: 0 <= i < |s| ==> r[i] == HoleOf(h, s[i])
  {
    seq(|s|, i requires 0 <= i < |s| => HoleOf(h, s[i]))
  }

  lemma SpellConcat(a: seq<Node>, b: seq<Node>, h: HoleMap)
    ensures Spell(a + b, h) == Spell(a, h) + Spell(b, h)
  {
  }

  lemma SpellOutside(a: seq<Node>, h: HoleMap, n: Node, v: Hole)
    requires n !in a
    ensures Spell(a, h[n := v]) == Spell(a, h)
  {
  }

  /** No two holes touch: between them at least one byte has come. */
  ghost predicate Gapped(hs: seq<Hole>) {
    forall i :: 0 <= i < |hs| - 1 ==> hs[i].last + 1 < hs[i + 1].first
  }

  // ---- taking the data out of one hole at a time

  predicate Meets(h: Hole, f: int, l: int) {
    h.first <= l && f <= h.last
  }

  /** How many holes the data f..l still meets. */
  ghost function Pending(hs: seq<Hole>, f: int, l: int): nat {
    if hs == [] then 0 else (if Meets(hs[0], f, l) then 1 else 0) + Pending(hs[1..], f, l)
  }

  lemma {:induction false} PendingConcat(a: seq<Hole>, b: seq<Hole>, f: int, l: int)
    ensures Pending(a + b, f, l) == Pending(a, f, l) + Pending(b, f, l)
  {
    if a == [] {
      assert a + b == b;
    } else {
      assert (a + b)[1..] == a[1..] + b;
      PendingConcat(a[1..], b, f, l);
    }
  }

  lemma {:induction false} PendingNone(hs: seq<Hole>, f: int, l: int)
    requires forall i :: 0 <= i < |hs| ==> hs[i].first <= hs[i].last && !Meets(hs[i], f, l)
    requires f <= l
    ensures Pending(hs, f, l) == 0 && Cut(hs, f, l) == hs
  {
    if hs != [] {
      PendingNone(hs[1..], f, l);
      assert CutOne(hs[0], f, l) == [hs[0]];
    }
  }

  /** What is left of a hole does not meet the data any more. */
  lemma CutOneDone(h: Hole, f: int, l: int)
    requires h.first <= h.last && f <= l
    ensures Pending(CutOne(h, f, l), f, l) == 0 && Cut(CutOne(h, f, l), f, l) == CutOne(h, f, l)
  {
    PendingNone(CutOne(h, f, l), f, l);
  }

  lemma OneHole(h: Hole, f: int, l: int)
    ensures Cut([h], f, l) == CutOne(h, f, l) && Pending([h], f, l) == if Meets(h, f, l) then 1 else 0
  {
    assert Cut([h], f, l) == CutOne(h, f, l) + Cut([], f, l);
  }

  /** Cutting one hole that the data meets brings the list nearer to being cut. */
  lemma CutHere(a: seq<Hole>, h: Hole, b: seq<Hole>, f: int, l: int)
    requires h.first <= h.last && f <= l && Meets(h, f, l)
    ensures Cut(a + CutOne(h, f, l) + b, f, l) == Cut(a + [h] + b, f, l)
    ensures Pending(a + CutOne(h, f, l) + b, f, l) == Pending(a + [h] + b, f, l) - 1
  {
    hide Cut, CutOne, Pending, Meets;
    var c := CutOne(h, f, l);
    CutOneDone(h, f, l);
    OneHole(h, f, l);
    CutConcat(a + c, b, f, l);
    CutConcat(a, c, f, l);
    CutConcat(a + [h], b, f, l);
    CutConcat(a, [h], f, l);
    PendingConcat(a + c, b, f, l);
    PendingConcat(a, c, f, l);
    PendingConcat(a + [h], b, f, l);
    PendingConcat(a, [h], f, l);
  }

  /** The list around one of its holes. */
  lemma AscendingAround(a: seq<Hole>, h: Hole, b: seq<Hole>)
    requires Ascending(a + [h] + b)
    ensures Ascending(a) && Ascending(b) && 0 <= h.first <= h.last
    ensures forall i :: 0 <= i < |a| ==> a[i].last < h.first
    ensures forall i :: 0 <= i < |b| ==> h.last < b[i].first
  {
    hide Ascending;
    var s := a + [h] + b;
    assert s[..|a|] == a && s[|a|] == h && s[|a| + 1..] == b;
    assert forall i :: 0 <= i < |a| ==> a[i] == s[i];
    assert forall i :: 0 <= i < |b| ==> b[i] == s[|a| + 1 + i];
    AscendingSplit(s, |a|);
  }

  lemma AscendingSplit(s: seq<Hole>, k: nat)
    requires Ascending(s) && k < |s|
    ensures Ascending(s[..k]) && Ascending(s[k + 1..]) && 0 <= s[k].first <= s[k].last
    ensures forall i :: 0 <= i < k ==> s[i].last < s[k].first
    ensures forall i :: k < i < |s| ==> s[k].last < s[i].first
  {
  }

  lemma CutHereAscending(a: seq<Hole>, h: Hole, b: seq<Hole>, f: int, l: int)
    requires Ascending(a + [h] + b) && f <= l
    ensures Ascending(a + CutOne(h, f, l) + b)
  {
    hide CutOne, Ascending;
    AscendingAround(a, h, b);
    CutOneKeepsOrder(h, f, l);
    AscendingConcat(a, CutOne(h, f, l), h.first);
    AscendingConcat(a + CutOne(h, f, l), b, h.last + 1);
  }

  lemma AscendingNonEmpty(hs: seq<Hole>)
    requires Ascending(hs)
    ensures forall i :: 0 <= i < |hs| ==> hs[i].first <= hs[i].last
  {
  }

  /** A hole that holds all the data is the only one that the data meets. */
  lemma Alone(a: seq<Hole>, h: Hole, b: seq<Hole>, f: int, l: int)
    requires Ascending(a + [h] + b) && h.first <= f <= l <= h.last
    ensures Cut(a + [h] + b, f, l) == a + CutOne(h, f, l) + b
  {
    hide Cut, CutOne, Ascending;
    AscendingAround(a, h, b);
    AscendingNonEmpty(a);
    AscendingNonEmpty(b);
    PendingNone(a, f, l);
    PendingNone(b, f, l);
    OneHole(h, f, l);
    CutConcat(a + [h], b, f, l);
    CutConcat(a, [h], f, l);
  }

  // ---- gaps

  lemma GappedConcat(a: seq<Hole>, b: seq<Hole>, m: int)
    requires Gapped(a) && Gapped(b)
    requires forall i :: 0 <= i < |a| ==> a[i].last < m
    requires forall i :: 0 <= i < |b| ==> m < b[i].first
    ensures Gapped(a + b)
  {
  }

  lemma GappedTail(hs: seq<Hole>)
    requires hs != [] && Ascending(hs) && Gapped(hs)
    ensures Gapped(hs[1..]) && (hs[1..] != [] ==> hs[0].last + 1 < hs[1..][0].first)
  {
  }

  lemma {:induction false} CutGapped(hs: seq<Hole>, f: int, l: int)
    requires Ascending(hs) && Gapped(hs) && f <= l
    ensures Gapped(Cut(hs, f, l))
  {
    if hs != [] {
      var c, r := CutOne(hs[0], f, l), Cut(hs[1..], f, l);
      assert Gapped(c);
      AscendingTail(hs);
      GappedTail(hs);
      CutGapped(hs[1..], f, l);
      CutKeepsOrder(hs[1..], f, l);
      CutOneKeepsOrder(hs[0], f, l);
      GappedConcat(c, r, hs[0].last + 1);
    }
  }

  lemma {:induction false} ClipGapped(hs: seq<Hole>, m: int)
    requires Ascending(hs) && Gapped(hs)
    ensures Gapped(Clip(hs, m))
  {
    if hs != [] {
      var c, r := ClipOne(hs[0], m), Clip(hs[1..], m);
      assert Gapped(c);
      AscendingTail(hs);
      GappedTail(hs);
      ClipGapped(hs[1..], m);
      ClipKeepsOrder(hs[1..], m);
      ClipOneKeepsOrder(hs[0], m);
      GappedConcat(c, r, hs[0].last + 1);
    }
  }

  /** With gaps between the holes, data that is missing altogether lies in one hole. */
  lemma MissingTogether(hs: seq<Hole>, f: int, l: int, i: nat)
    requires Ascending(hs) && Gapped(hs) && i < |hs| && f <= l && Meets(hs[i], f, l)
    ensures hs[i].first <= f && l <= hs[i].last <==> forall x :: f <= x <= l ==> InHoles(hs, x)
  {
    if hs[i].first <= f && l <= hs[i].last {
      forall x | f <= x <= l ensures InHoles(hs, x) {
        assert InHole(hs[i], x);
      }
    } else if hs[i].first > f {
      NotJustBefore(hs, i);
    } else {
      NotJustAfter(hs, i);
    }
  }

  lemma NotJustBefore(hs: seq<Hole>, i: nat)
    requires Ascending(hs) && Gapped(hs) && i < |hs|
    ensures !InHoles(hs, hs[i].first - 1)
  {
    forall j | 0 <= j < |hs| ensures !InHole(hs[j], hs[i].first - 1) {
      if 0 < i {
        assert hs[i - 1].last + 1 < hs[i - 1 + 1].first;
      }
    }
  }

  lemma NotJustAfter(hs: seq<Hole>, i: nat)
    requires Ascending(hs) && Gapped(hs) && i < |hs|
    ensures !InHoles(hs, hs[i].last + 1)
  {
    forall j | 0 <= j < |hs| ensures !InHole(hs[j], hs[i].last + 1) {
      if i + 1 < |hs| {
        assert hs[i].last + 1 < hs[i + 1].first;
      }
    }
  }

  lemma NothingMet(hs: seq<Hole>, f: int, l: int)
    requires f <= l && forall i :: 0 <= i < |hs| ==> !Meets(hs[i], f, l)
    ensures !InHoles(hs, f)
  {
    forall i | 0 <= i < |hs| ensures !InHole(hs[i], f) {
      assert !Meets(hs[i], f, l);
    }
  }

  // ---- the search

  /** Everything before the end of `p` lies left of `f`, everything after it right of `l`. */
  ghost predicate Between(p: Path, h: HoleMap, f: int, l: int) {
    && (forall i :: 0 <= i < |Before(p)| ==> HoleOf(h, Before(p)[i]).last < f)
    && (forall i :: 0 <= i < |After(p)| ==> l < HoleOf(h, After(p)[i]).first)
  }

  /** A hole lies between those of its two subtrees. */
  lemma SpellAround(b: seq<Node>, l: seq<Node>, n: Node, r: seq<Node>, a: seq<Node>, h: HoleMap)
    requires Ascending(Spell(b + (l + [n] + r) + a, h))
    ensures HoleOf(h, n).first <= HoleOf(h, n).last
    ensures forall i :: 0 <= i < |l| ==> HoleOf(h, l[i]).last < HoleOf(h, n).first
    ensures forall i :: 0 <= i < |r| ==> HoleOf(h, n).last < HoleOf(h, r[i]).first
  {
    var s := b + (l + [n] + r) + a;
    var k := |b| + |l|;
    assert s[k] == n;
    forall i | 0 <= i < |l| ensures HoleOf(h, l[i]).last < HoleOf(h, n).first {
      assert s[|b| + i] == l[i];
      assert Spell(s, h)[|b| + i].last < Spell(s, h)[k].first;
    }
    forall i | 0 <= i < |r| ensures HoleOf(h, n).last < HoleOf(h, r[i]).first {
      assert s[k + 1 + i] == r[i];
      assert Spell(s, h)[k].last < Spell(s, h)[k + 1 + i].first;
    }
    assert Spell(s, h)[k].first <= Spell(s, h)[k].last;
  }

  lemma SearchStep(p: Path, t: Tree, h: HoleMap, f: int, l: int)
    requires t.Fork? && Between(p, h, f, l) && Ascending(Spell(InOrder(Plug(p, t)), h)) && f <= l
    ensures HoleOf(h, t.n).last < f ==> Between(R(t.left, t.n, t.mark, p), h, f, l)
    ensures HoleOf(h, t.n).first > l ==> Between(L(t.n, t.mark, t.right, p), h, f, l)
  {
    InOrderPlug(p, t);
    InOrderFork(t);
    SpellAround(Before(p), InOrder(t.left), t.n, InOrder(t.right), After(p), h);
  }

  /** At a free place nothing meets the data. */
  lemma SearchFailed(p: Path, h: HoleMap, f: int, l: int)
    requires Between(p, h, f, l)
    ensures var hs := Spell(InOrder(Plug(p, Leaf)), h); forall i :: 0 <= i < |hs| ==> !Meets(hs[i], f, l)
  {
    InOrderPlug(p, Leaf);
    assert Before(p) + InOrder(Leaf) + After(p) == Before(p) + After(p);
  }

  /** The search of add_data: some hole that the data f..l meets, if there is one. */
  method Find(tree: Root, h: HoleMap, f: int, l: int, ghost t: Tree)
    returns (node: Node?, ghost p: Path, ghost sub: Tree)
    requires tree.Sync() && Is(tree.mem, tree.root, t) && Ascending(Spell(InOrder(t), h)) && f <= l
    ensures t == Plug(p, sub) && node == RootOf(sub)
    ensures node == null ==> var hs := Spell(InOrder(t), h); forall i :: 0 <= i < |hs| ==> !Meets(hs[i], f, l)
    ensures node != null ==> Meets(HoleOf(h, node), f, l)
  {
    hide Root.Sync, At, Is, Between, InOrder, Ascending;
    node := tree.root;
    p, sub := Top, t;
    AtIsPlug(tree.mem, tree.root, Top, t);
    TopFree(h, f, l);
    RootOfTop(tree.mem, tree.root, t);
    while node != null
      invariant At(tree.mem, tree.root, p, sub) && t == Plug(p, sub) && node == RootOf(sub) && Between(p, h, f, l)
      decreases sub
    {
      SearchStep(p, sub, h, f, l);
      NodeFacts(tree.mem, tree.root, p, sub);
      tree.Fields(node);
      var hole := HoleOf(h, node);
      if hole.last < f {
        ZipRight(tree.mem, tree.root, p, sub.left, sub.n, sub.mark, sub.right);
        node := node.right;
        p, sub := R(sub.left, sub.n, sub.mark, p), sub.right;
      } else if hole.first > l {
        ZipLeft(tree.mem, tree.root, p, sub.left, sub.n, sub.mark, sub.right);
        node := node.left;
        p, sub := L(sub.n, sub.mark, sub.right, p), sub.left;
      } else {
        return;
      }
    }
    SearchFailed(p, h, f, l);
  }

  lemma TopFree(h: HoleMap, f: int, l: int)
    ensures Between(Top, h, f, l)
  {
  }

  lemma RootOfTop(m: Mem, root: Node?, t: Tree)
    requires Is(m, root, t)
    ensures root == RootOf(t)
  {
  }

  // ---- changing one hole of the tree

  /** The nodes before and after the node at the end of `p`. */
  ghost function Ahead(p: Path, sub: Tree): seq<Node>
    requires sub.Fork?
  {
    Before(p) + InOrder(sub.left)
  }

  ghost function Behind(p: Path, sub: Tree): seq<Node>
    requires sub.Fork?
  {
    InOrder(sub.right) + After(p)
  }

  lemma {:induction false} PathOrderNodes(p: Path, y: Node)
    ensures y in Before(p) || y in After(p) ==> y in PathNodes(p)
  {
    match p
    case Top =>
    case L(n, k, r, up) =>
      PathOrderNodes(up, y);
      InOrderNodes(r, y);
    case R(l, n, k, up) =>
      PathOrderNodes(up, y);
      InOrderNodes(l, y);
  }

  lemma SplitAtNode(t: Tree, p: Path, sub: Tree)
    requires t == Plug(p, sub) && sub.Fork? && Proper(t)
    ensures InOrder(t) == Ahead(p, sub) + [sub.n] + Behind(p, sub)
    ensures sub.n !in Ahead(p, sub) && sub.n !in Behind(p, sub) && sub.n in Nodes(t)
  {
    InOrderPlug(p, sub);
    InOrderFork(sub);
    RegroupFour(Before(p), InOrder(sub.left), sub.n, InOrder(sub.right), After(p));
    ProperPlug(p, sub);
    PathOrderNodes(p, sub.n);
    InOrderNodes(sub.left, sub.n);
    InOrderNodes(sub.right, sub.n);
  }

  lemma RegroupFour(b: seq<Node>, l: seq<Node>, n: Node, r: seq<Node>, a: seq<Node>)
    ensures b + (l + [n] + r) + a == (b + l) + [n] + (r + a)
  {
  }

  lemma SpellParts(a: seq<Node>, n: Node, b: seq<Node>, h: HoleMap)
    ensures Spell(a + [n] + b, h) == Spell(a, h) + [HoleOf(h, n)] + Spell(b, h)
  {
  }

  lemma SpellUpdated(a: seq<Node>, n: Node, b: seq<Node>, h: HoleMap, v: Hole)
    requires n !in a && n !in b
    ensures Spell(a + [n] + b, h[n := v]) == Spell(a, h) + [v] + Spell(b, h)
  {
    SpellParts(a, n, b, h[n := v]);
    SpellOutside(a, h, n, v);
    SpellOutside(b, h, n, v);
  }

  /** A sequence splits in one way around an element that occurs once. */
  lemma SameSplit(a: seq<Node>, n: Node, b: seq<Node>, r: seq<Node>, k: nat)
    requires n !in a && n !in b && Inserted(a + [n] + b, r, n, k)
    ensures r == a + b
  {
    var s := a + [n] + b;
    assert forall i :: 0 <= i < |a| ==> s[i] == a[i];
    assert forall i :: |a| < i < |s| ==> s[i] == b[i - |a| - 1];
    assert s[k] == n;
    assert r[..k] == s[..k] == a;
    assert r[k..] == s[k + 1..] == b;
  }

  /** rb_tree_delete of a node takes its hole out of the list. */
  method Drop(tree: Root, node: Node, h: HoleMap, ghost t: Tree, ghost p: Path, ghost sub: Tree) returns (ghost s: Tree)
    requires tree.Sync() && Is(tree.mem, tree.root, t) && RbTree.RBTree(t) && t == Plug(p, sub) && sub.Fork?
    requires node == sub.n
    modifies tree, tree.mem.Keys
    ensures tree.Sync() && Is(tree.mem, tree.root, s) && RbTree.RBTree(s) && tree.mem.Keys == old(tree.mem.Keys)
    ensures InOrder(s) == Ahead(p, sub) + Behind(p, sub) && Nodes(s) <= Nodes(t)
    ensures Spell(InOrder(s), h) == Spell(Ahead(p, sub), h) + Spell(Behind(p, sub), h)
  {
    hide Root.Sync, RbTree.RBTree, InOrder, Ahead, Behind, Inserted;
    SplitAtNode(t, p, sub);
    ghost var k;
    s, k := RbTree.Delete(tree, node, t);
    SameSplit(Ahead(p, sub), node, Behind(p, sub), InOrder(s), k);
    SpellConcat(Ahead(p, sub), Behind(p, sub), h);
    NodesByOrder(s, t, {});
  }

  lemma NodesByOrder(s: Tree, t: Tree, extra: set<Node>)
    requires forall y :: y in InOrder(s) ==> y in InOrder(t) || y in extra
    ensures Nodes(s) <= Nodes(t) + extra
  {
    forall y | y in Nodes(s) ensures y in Nodes(t) + extra {
      InOrderNodes(s, y);
      InOrderNodes(t, y);
    }
  }

  // ---- splitting a hole

  lemma {:induction false} BeforeAppend(q: Path, p: Path)
    ensures Before(Append(q, p)) == Before(p) + Before(q)
  {
    match q
    case Top =>
    case L(n, k, r, up) => BeforeAppend(up, p);
    case R(l, n, k, up) =>
      BeforeAppend(up, p);
      assert Before(p) + Before(up) + InOrder(l) + [n] == Before(p) + (Before(up) + InOrder(l) + [n]);
  }

  /** The free place right after a node: below it, or left of the first node of its right subtree. */
  ghost predicate Next(pp: Path, t: Tree, p: Path, sub: Tree) {
    sub.Fork? && t == Plug(p, sub) && t == Plug(pp, Leaf) && Before(pp) == Ahead(p, sub) + [sub.n]
  }

  lemma NextBelow(t: Tree, p: Path, sub: Tree)
    requires sub.Fork? && t == Plug(p, sub) && sub.right == Leaf
    ensures Next(R(sub.left, sub.n, sub.mark, p), t, p, sub)
  {
  }

  lemma NextLeftmost(t: Tree, p: Path, sub: Tree, q: Path, s2: Tree)
    requires sub.Fork? && t == Plug(p, sub) && sub.right == Plug(q, s2) && s2.Fork? && s2.left == Leaf && AllLeft(q)
    ensures Next(L(s2.n, s2.mark, s2.right, Append(q, R(sub.left, sub.n, sub.mark, p))), t, p, sub)
  {
    var r := R(sub.left, sub.n, sub.mark, p);
    BeforeAppend(q, r);
    AllLeftBefore(q);
    PlugAppend(q, r, s2);
  }

  lemma NextOrder(pp: Path, t: Tree, p: Path, sub: Tree, x: Node, k: int)
    requires Next(pp, t, p, sub) && Proper(t)
    ensures InOrder(Plug(pp, Fork(Leaf, x, k, Leaf))) == Ahead(p, sub) + [sub.n] + [x] + Behind(p, sub)
  {
    SplitAtNode(t, p, sub);
    InOrderPlug(pp, Leaf);
    InOrderPlug(pp, Fork(Leaf, x, k, Leaf));
    InOrderFork(Fork(Leaf, x, k, Leaf));
    assert InOrder(Fork(Leaf, x, k, Leaf)) == [x];
    SameRest(Ahead(p, sub) + [sub.n], After(pp), Behind(p, sub));
  }

  lemma SameRest(a: seq<Node>, b: seq<Node>, c: seq<Node>)
    requires a + [] + b == a + c
    ensures b == c
  {
    assert (a + [] + b)[|a|..] == b;
    assert (a + c)[|a|..] == c;
  }

  lemma SpellSplit(a: seq<Node>, n: Node, x: Node, b: seq<Node>, h: HoleMap, v: Hole, w: Hole)
    requires n !in a && n !in b && x !in a && x !in b && x != n
    ensures Spell(a + [n] + [x] + b, h[n := v][x := w]) == Spell(a, h) + [v, w] + Spell(b, h)
  {
    var h' := h[n := v][x := w];
    assert [n] + [x] == [n, x] && a + [n] + [x] + b == a + [n, x] + b;
    SpellConcat(a + [n, x], b, h');
    SpellConcat(a, [n, x], h');
    assert Spell([n, x], h') == [v, w];
    SpellOutside(a, h, n, v);
    SpellOutside(b, h, n, v);
    SpellOutside(a, h[n := v], x, w);
    SpellOutside(b, h[n := v], x, w);
  }

  /** Hangs the packet's own node right behind `node`, without any comparison. */
  method LinkNext(tree: Root, node: Node, self: Node, ghost t: Tree, ghost p: Path, ghost sub: Tree)
    returns (ghost s: Tree)
    requires tree.Sync() && Is(tree.mem, tree.root, t) && RbTree.RBTree(t) && t == Plug(p, sub) && sub.Fork?
    requires node == sub.n && self !in Nodes(t)
    modifies tree, tree.mem.Keys, self
    ensures tree.Sync() && Is(tree.mem, tree.root, s) && RbTree.RBTree(s)
    ensures tree.mem.Keys == old(tree.mem.Keys) + {self}
    ensures InOrder(s) == Ahead(p, sub) + [node] + [self] + Behind(p, sub)
  {
    hide Root.Sync, At, RbTree.RBTree, InOrder, Ahead, Behind, Next, Before, RbTree.RedAt;
    ghost var pp;
    AtIsPlug(tree.mem, tree.root, p, sub);
    NodeFacts(tree.mem, tree.root, p, sub);
    RbTree.LeftLinked(tree.mem, tree.root, p, sub);
    tree.Fields(node);
    if node.right == null {
      pp := R(sub.left, node, sub.mark, p);
      NextBelow(t, p, sub);
      Graft(tree, self, RbTree.RED, node, false, pp, t);
    } else {
      var node2;
      ghost var q, s2;
      node2, q, s2 := Leftmost(tree, node.right, sub.right, node);
      pp := L(s2.n, s2.mark, s2.right, Append(q, R(sub.left, node, sub.mark, p)));
      NextLeftmost(t, p, sub, q, s2);
      NextPlug(pp, t, p, sub);
      Graft(tree, self, RbTree.RED, node2, true, pp, t);
    }
    NextPlug(pp, t, p, sub);
    NextOrder(pp, t, p, sub, self, RbTree.RED);
    RbTree.LeafRedAt(pp, self);
    s := RbTree.InsertRepair(tree, self, pp, Fork(Leaf, self, RbTree.RED, Leaf));
  }

  lemma NextPlug(pp: Path, t: Tree, p: Path, sub: Tree)
    requires Next(pp, t, p, sub)
    ensures t == Plug(pp, Leaf)
  {
  }

  // ---- add_data

  /** Assignment to a 16-bit field. */
  function Wrap16(x: int): int {
    x % (MAX16 + 1)
  }

  /** The tree `t` with the holes `h` of its nodes. */
  ghost predicate HoldsTree(m: Mem, root: Node?, t: Tree) {
    Is(m, root, t) && RbTree.RBTree(t)
  }

  lemma SpellAfterDrop(a: seq<Node>, b: seq<Node>, h: HoleMap, n: Node, v: Hole)
    requires n !in a && n !in b
    ensures Spell(a + b, h[n := v]) == Spell(a, h) + Spell(b, h)
  {
    SpellConcat(a, b, h[n := v]);
    SpellOutside(a, h, n, v);
    SpellOutside(b, h, n, v);
  }

  /** The data meets the hole of `node` and does not lie strictly inside it: the hole goes, or loses
      its end or its beginning. For IPv6 the three tests follow each other, so a hole that went is
      written to once more. */
  method CutNode(tree: Root, ipv6: bool, node: Node, h: HoleMap, f: int, l: int, ghost t: Tree, ghost p: Path,
                 ghost sub: Tree)
    returns (h': HoleMap, ghost t': Tree)
    requires tree.Sync() && HoldsTree(tree.mem, tree.root, t) && t == Plug(p, sub) && sub.Fork? && node == sub.n
    requires var hole := HoleOf(h, node);
      && 0 <= hole.first <= hole.last && Meets(hole, f, l) && !(hole.last > l && hole.first < f)
      && (ipv6 ==> hole.first <= f && l <= hole.last)
    requires 0 <= f <= l <= MAX16 && HoleOf(h, node).last <= MAX16
    modifies tree, tree.mem.Keys
    ensures tree.Sync() && HoldsTree(tree.mem, tree.root, t') && tree.mem.Keys == old(tree.mem.Keys)
    ensures Nodes(t') <= Nodes(t)
    ensures Spell(InOrder(t'), h') == Spell(Ahead(p, sub), h) + CutOne(HoleOf(h, node), f, l) + Spell(Behind(p, sub), h)
  {
    hide Root.Sync, Is, RbTree.RBTree, InOrder, Ahead, Behind, Spell, Plug, Nodes;
    SplitHere(tree.mem, tree.root, t, p, sub);
    ghost var a, b := Ahead(p, sub), Behind(p, sub);
    h', t' := h, t;
    var hole := HoleOf(h, node);
    if hole.last <= l && hole.first >= f {
      t' := Drop(tree, node, h, t, p, sub);
      var v := Hole(Wrap16(l + 1), Wrap16(f - 1));
      SpellAfterDrop(a, b, h, node, v);
      if ipv6 {
        h' := h'[node := v];
      }
      NothingBetween(Spell(a, h), CutOne(hole, f, l), Spell(b, h));
      return;
    }
    if hole.last <= l && hole.last + 1 > f {
      SpellUpdated(a, node, b, h, Hole(hole.first, f - 1));
      h' := h'[node := Hole(hole.first, Wrap16(f - 1))];
      assert CutOne(hole, f, l) == [Hole(hole.first, f - 1)];
      return;
    }
    SpellUpdated(a, node, b, h, Hole(l + 1, hole.last));
    if hole.first >= f && hole.first < l + 1 {
      h' := h'[node := Hole(Wrap16(l + 1), hole.last)];
    }
    assert CutOne(hole, f, l) == [Hole(l + 1, hole.last)];
  }

  lemma NothingBetween<T>(a: seq<T>, c: seq<T>, b: seq<T>)
    requires c == []
    ensures a + c + b == a + b
  {
  }

  lemma SplitHere(m: Mem, root: Node?, t: Tree, p: Path, sub: Tree)
    requires Is(m, root, t) && t == Plug(p, sub) && sub.Fork?
    ensures InOrder(t) == Ahead(p, sub) + [sub.n] + Behind(p, sub)
    ensures sub.n !in Ahead(p, sub) && sub.n !in Behind(p, sub) && sub.n in Nodes(t)
  {
    SplitAtNode(t, p, sub);
  }

  /** The data lies strictly inside the hole of `node`: the packet's own node takes the upper part. */
  method SplitNode(tree: Root, node: Node, self: Node, h: HoleMap, f: int, l: int, ghost t: Tree, ghost p: Path,
                   ghost sub: Tree)
    returns (h': HoleMap, ghost t': Tree)
    requires tree.Sync() && HoldsTree(tree.mem, tree.root, t) && t == Plug(p, sub) && sub.Fork? && node == sub.n
    requires self !in Nodes(t)
    requires HoleOf(h, node).first < f <= l < HoleOf(h, node).last
    modifies tree, tree.mem.Keys, self
    ensures tree.Sync() && HoldsTree(tree.mem, tree.root, t') && tree.mem.Keys == old(tree.mem.Keys) + {self}
    ensures Nodes(t') <= Nodes(t) + {self}
    ensures Spell(InOrder(t'), h') == Spell(Ahead(p, sub), h) + CutOne(HoleOf(h, node), f, l) + Spell(Behind(p, sub), h)
  {
    hide Root.Sync, Is, RbTree.RBTree, InOrder, Ahead, Behind, Spell, Plug, Nodes;
    SplitHere(tree.mem, tree.root, t, p, sub);
    NotInOrder(t, self);
    ghost var a, b := Ahead(p, sub), Behind(p, sub);
    var hole := HoleOf(h, node);
    SpellSplit(a, node, self, b, h, Hole(hole.first, f - 1), Hole(l + 1, hole.last));
    h' := h[node := Hole(hole.first, f - 1)][self := Hole(l + 1, hole.last)];
    t' := LinkNext(tree, node, self, t, p, sub);
    NodesByOrder(t', t, {self});
    assert CutOne(hole, f, l) == [Hole(hole.first, f - 1), Hole(l + 1, hole.last)];
  }

  lemma NotInOrder(t: Tree, x: Node)
    requires x !in Nodes(t)
    ensures x !in InOrder(t)
  {
    InOrderNodes(t, x);
  }

  /** Separate holes among the 16-bit offsets. */
  ghost predicate GoodHoles(hs: seq<Hole>) {
    Ascending(hs) && Gapped(hs) && Within(hs, 0, MAX16)
  }

  lemma GoodCut(hs: seq<Hole>, f: int, l: int)
    requires GoodHoles(hs) && f <= l
    ensures GoodHoles(Cut(hs, f, l))
  {
    CutKeepsOrder(hs, f, l);
    CutGapped(hs, f, l);
  }

  lemma GoodClip(hs: seq<Hole>, m: int)
    requires GoodHoles(hs)
    ensures GoodHoles(Clip(hs, m))
  {
    ClipKeepsOrder(hs, m);
    ClipGapped(hs, m);
  }

  /** The data brings at least one missing byte. */
  ghost predicate Brings(hs: seq<Hole>, f: int, l: int) {
    exists x :: f <= x <= l && InHoles(hs, x)
  }

  /** Some byte of the data is not missing. */
  ghost predicate Repeats(hs: seq<Hole>, f: int, l: int) {
    exists x :: f <= x <= l && !InHoles(hs, x)
  }

  lemma BringsHere(hs: seq<Hole>, f: int, l: int, i: nat)
    requires i < |hs| && hs[i].first <= hs[i].last && f <= l && Meets(hs[i], f, l)
    ensures Brings(hs, f, l)
  {
    var x := if f < hs[i].first then hs[i].first else f;
    assert InHole(hs[i], x);
    assert InHoles(hs, x);
  }

  lemma BringsNothing(hs: seq<Hole>, f: int, l: int)
    requires forall i :: 0 <= i < |hs| ==> !Meets(hs[i], f, l)
    ensures !Brings(hs, f, l)
  {
    forall i, x | 0 <= i < |hs| && f <= x <= l ensures !InHole(hs[i], x) {
      assert !Meets(hs[i], f, l);
    }
  }

  /** The list of holes around the node that the search found. */
  lemma FoundHole(hs: seq<Hole>, a: seq<Hole>, hole: Hole, b: seq<Hole>, f: int, l: int)
    requires hs == a + [hole] + b && Ascending(hs) && f <= l && Meets(hole, f, l)
    ensures 0 <= hole.first <= hole.last && (Within(hs, 0, MAX16) ==> hole.last <= MAX16)
    ensures Brings(hs, f, l)
    ensures Gapped(hs) ==> (Repeats(hs, f, l) <==> hole.first > f || hole.last < l)
  {
    assert hs[|a|] == hole;
    BringsHere(hs, f, l, |a|);
    if Gapped(hs) {
      MissingTogether(hs, f, l, |a|);
    }
  }

  /** What is left after cutting the found hole, and how far that is from the end. */
  lemma CutFound(hs: seq<Hole>, a: seq<Hole>, hole: Hole, b: seq<Hole>, f: int, l: int)
    requires hs == a + [hole] + b && Ascending(hs) && Within(hs, 0, MAX16) && f <= l && Meets(hole, f, l)
    ensures var hs' := a + CutOne(hole, f, l) + b;
      && Ascending(hs') && Within(hs', 0, MAX16)
      && Cut(hs', f, l) == Cut(hs, f, l)
      && Pending(hs', f, l) < Pending(hs, f, l)
    ensures hole.first <= f && l <= hole.last ==> Cut(hs, f, l) == a + CutOne(hole, f, l) + b
  {
    hide Cut, CutOne, Pending;
    AscendingAround(a, hole, b);
    CutHere(a, hole, b, f, l);
    CutHereAscending(a, hole, b, f, l);
    CutWithin(hs, a, hole, b, f, l);
    if hole.first <= f && l <= hole.last {
      Alone(a, hole, b, f, l);
    }
  }

  lemma CutWithin(hs: seq<Hole>, a: seq<Hole>, hole: Hole, b: seq<Hole>, f: int, l: int)
    requires hs == a + [hole] + b && Within(hs, 0, MAX16) && 0 <= hole.first <= hole.last && f <= l
    ensures Within(a + CutOne(hole, f, l) + b, 0, MAX16)
  {
    hide CutOne;
    CutOneKeepsOrder(hole, f, l);
    assert hs[|a|] == hole;
    assert forall i :: 0 <= i < |a| ==> a[i] == hs[i];
    assert forall i :: 0 <= i < |b| ==> b[i] == hs[|a| + 1 + i];
  }

  /** The state of the loop over `back`: the holes still to cut, with the same end result. */
  ghost predicate Underway(hs0: seq<Hole>, hs: seq<Hole>, f: int, l: int, mod: bool) {
    && Ascending(hs) && Within(hs, 0, MAX16) && Cut(hs, f, l) == Cut(hs0, f, l)
    && (if mod then Brings(hs0, f, l) else hs == hs0)
  }

  /** add_data: takes the bytes f..l out of the holes. For IPv6 it refuses data with a byte that is
      not missing. `self` is the packet's own node, which enters the tree when a hole is split. */
  method AddData(tree: Root, ipv6: bool, h0: HoleMap, f: int, l: int, self: Node, ghost t0: Tree)
    returns (h: HoleMap, mod: bool, overlap: bool, ghost t: Tree)
    requires tree.Sync() && HoldsTree(tree.mem, tree.root, t0) && GoodHoles(Spell(InOrder(t0), h0))
    requires 0 <= f <= l <= MAX16 && self !in Nodes(t0)
    modifies tree, tree.mem.Keys, self
    ensures tree.Sync() && HoldsTree(tree.mem, tree.root, t) && tree.mem.Keys <= old(tree.mem.Keys) + {self}
    ensures overlap <==> ipv6 && Repeats(Spell(InOrder(t0), h0), f, l)
    ensures !overlap ==>
      Spell(InOrder(t), h) == Cut(Spell(InOrder(t0), h0), f, l) && (mod <==> Brings(Spell(InOrder(t0), h0), f, l))
    ensures overlap ==> Spell(InOrder(t), h) == Spell(InOrder(t0), h0) && !mod
    ensures Nodes(t) <= Nodes(t0) + if mod then {self} else {}
  {
    hide Root.Sync, HoldsTree, InOrder, Ahead, Behind, Spell, Cut, CutOne, Pending, Nodes, Meets, Ascending, Within,
         Gapped, Brings, Repeats;
    ghost var hs0 := Spell(InOrder(t0), h0);
    h, mod, overlap, t := h0, false, false, t0;
    while true
      invariant tree.Sync() && HoldsTree(tree.mem, tree.root, t) && tree.mem.Keys == old(tree.mem.Keys)
      invariant Underway(hs0, Spell(InOrder(t), h), f, l, mod) && !overlap && Nodes(t) <= Nodes(t0) && (ipv6 ==> !mod)
      decreases Pending(Spell(InOrder(t), h), f, l)
    {
      var node;
      ghost var p, sub;
      node, p, sub := Search(tree, h, f, l, t);
      if ipv6 && (node == null || HoleOf(h, node).first > f || HoleOf(h, node).last < l) {
        overlap := true;
        return;
      }
      if node == null {
        return;
      }
      var hole := HoleOf(h, node);
      if hole.last > l && hole.first < f {
        h, t := SplitNode(tree, node, self, h, f, l, t, p, sub);
        mod := true;
        return;
      }
      h, t := CutNode(tree, ipv6, node, h, f, l, t, p, sub);
      mod := true;
      if ipv6 {
        return;
      }
    }
  }

  /** The search together with what it says about the list of holes. */
  method Search(tree: Root, h: HoleMap, f: int, l: int, ghost t: Tree)
    returns (node: Node?, ghost p: Path, ghost sub: Tree)
    requires tree.Sync() && HoldsTree(tree.mem, tree.root, t) && f <= l
    requires Ascending(Spell(InOrder(t), h)) && Within(Spell(InOrder(t), h), 0, MAX16)
    ensures t == Plug(p, sub) && node == RootOf(sub)
    ensures var hs := Spell(InOrder(t), h);
      if node == null then !Brings(hs, f, l) && Repeats(hs, f, l) && Cut(hs, f, l) == hs
      else
        var hole := HoleOf(h, node);
        var hs' := Spell(Ahead(p, sub), h) + CutOne(hole, f, l) + Spell(Behind(p, sub), h);
        && 0 <= hole.first <= hole.last <= MAX16 && Meets(hole, f, l) && Brings(hs, f, l)
        && (Gapped(hs) ==> (Repeats(hs, f, l) <==> hole.first > f || hole.last < l))
        && Ascending(hs') && Within(hs', 0, MAX16) && Cut(hs', f, l) == Cut(hs, f, l)
        && Pending(hs', f, l) < Pending(hs, f, l)
        && (hole.first <= f && l <= hole.last ==> Cut(hs, f, l) == hs')
  {
    hide Root.Sync, RbTree.RBTree, Is, InOrder, Ahead, Behind, Spell, Cut, CutOne, Pending, Meets, Ascending, Within,
         Gapped, Brings, Repeats;
    node, p, sub := Find(tree, h, f, l, t);
    ghost var hs := Spell(InOrder(t), h);
    if node == null {
      BringsNothing(hs, f, l);
      NothingMet(hs, f, l);
      RepeatsAt(hs, f, l);
      AscendingNonEmpty(hs);
      PendingNone(hs, f, l);
    } else {
      SplitHere(tree.mem, tree.root, t, p, sub);
      SpellParts(Ahead(p, sub), node, Behind(p, sub), h);
      FoundHole(hs, Spell(Ahead(p, sub), h), HoleOf(h, node), Spell(Behind(p, sub), h), f, l);
      CutFound(hs, Spell(Ahead(p, sub), h), HoleOf(h, node), Spell(Behind(p, sub), h), f, l);
    }
  }

  lemma RepeatsAt(hs: seq<Hole>, f: int, l: int)
    requires f <= l && !InHoles(hs, f)
    ensures Repeats(hs, f, l)
  {
  }

  // ---- repair_most_restricting

  lemma ClipNotPast(a: seq<Hole>, m: int)
    requires forall i :: 0 <= i < |a| ==> a[i].first <= a[i].last <= m
    ensures Clip(a, m) == a
  {
    if a != [] {
      ClipNotPast(a[1..], m);
    }
  }

  /** The last hole goes when it starts past the limit; otherwise it alone can reach past it. */
  lemma ClipLast(a: seq<Hole>, h: Hole, m: int)
    requires Ascending(a + [h])
    ensures Ascending(a) && (h.first > m ==> Clip(a + [h], m) == Clip(a, m))
    ensures h.first <= m ==> Clip(a + [h], m) == a + ClipOne(h, m)
  {
    hide Ascending;
    assert a + [h] == a + [h] + [];
    AscendingAround(a, h, []);
    AscendingNonEmpty(a);
    ClipConcat(a, [h], m);
    assert Clip([h], m) == ClipOne(h, m) + Clip([], m);
    if h.first <= m {
      ClipNotPast(a, m);
    }
  }

  /** The last node of the tree and its hole. */
  lemma LastNode(t: Tree, q: Path, s: Tree, h: HoleMap)
    requires t == Plug(q, s) && s.Fork? && s.right.Leaf? && AllRight(q) && Proper(t)
    ensures Behind(q, s) == [] && InOrder(t) == Ahead(q, s) + [s.n] && s.n !in Ahead(q, s)
    ensures Spell(InOrder(t), h) == Spell(Ahead(q, s), h) + [HoleOf(h, s.n)]
  {
    AllRightAfter(q);
    SplitAtNode(t, q, s);
    SpellParts(Ahead(q, s), s.n, Behind(q, s), h);
  }

  lemma WholeTree(m: Mem, root: Node?, t: Tree, h: HoleMap)
    requires Is(m, root, t)
    ensures root == RootOf(t) && Linked(m, t, null) && Proper(t)
    ensures root == null <==> Spell(InOrder(t), h) == []
  {
  }

  /** repair_most_restricting: drops and shortens the holes past the limit `m`. */
  method ClipTree(tree: Root, h0: HoleMap, m: int, ghost t0: Tree) returns (h: HoleMap, ghost t: Tree)
    requires tree.Sync() && HoldsTree(tree.mem, tree.root, t0) && Ascending(Spell(InOrder(t0), h0))
    modifies tree, tree.mem.Keys
    ensures tree.Sync() && HoldsTree(tree.mem, tree.root, t) && tree.mem.Keys == old(tree.mem.Keys)
    ensures Nodes(t) <= Nodes(t0)
    ensures Spell(InOrder(t), h) == Clip(Spell(InOrder(t0), h0), m)
  {
    hide Root.Sync, Is, RbTree.RBTree, InOrder, Ahead, Behind, Spell, Plug, Nodes, Clip, ClipOne, Ascending;
    ghost var hs0 := Spell(InOrder(t0), h0);
    h, t := h0, t0;
    while true
      invariant tree.Sync() && HoldsTree(tree.mem, tree.root, t) && tree.mem.Keys == old(tree.mem.Keys)
      invariant Nodes(t) <= Nodes(t0)
      invariant Ascending(Spell(InOrder(t), h)) && Clip(Spell(InOrder(t), h), m) == Clip(hs0, m)
      decreases |Spell(InOrder(t), h)|
    {
      WholeTree(tree.mem, tree.root, t, h);
      if tree.root == null {
        ClipEmpty(m);
        return;
      }
      var node;
      ghost var q, s;
      node, q, s := Rightmost(tree, tree.root, t, null);
      LastNode(t, q, s, h);
      ghost var a := Ahead(q, s);
      var hole := HoleOf(h, node);
      ClipLast(Spell(a, h), hole, m);
      if hole.first > m {
        t := Drop(tree, node, h, t, q, s);
        NothingAfter(a, Behind(q, s), h);
      } else {
        LastUpdated(a, node, h, Hole(hole.first, m));
        if hole.last > m {
          h := h[node := Hole(hole.first, m)];
        }
        ClipOneCases(hole, m);
        return;
      }
    }
  }

  lemma ClipEmpty(m: int)
    ensures Clip([], m) == []
  {
  }

  lemma NothingAfter(a: seq<Node>, b: seq<Node>, h: HoleMap)
    requires b == []
    ensures Spell(a, h) + Spell(b, h) == Spell(a, h)
  {
  }

  lemma LastUpdated(a: seq<Node>, n: Node, h: HoleMap, v: Hole)
    requires n !in a
    ensures Spell(a + [n], h[n := v]) == Spell(a, h) + [v]
  {
    SpellConcat(a, [n], h[n := v]);
    SpellOutside(a, h, n, v);
  }

  lemma ClipOneCases(h: Hole, m: int)
    requires h.first <= m
    ensures ClipOne(h, m) == if h.last > m then [Hole(h.first, m)] else [h]
  {
  }

  // ---- the context

  /** The holes once the packet's limit is applied. */
  function Clipped(hs: seq<Hole>, m: int, p: Packet): seq<Hole>
    requires Accepted(p)
  {
    if Restricts(p, m) then Clip(hs, Last(p)) else hs
  }

  lemma AfterIsCutOfClipped(hs: seq<Hole>, m: int, p: Packet)
    requires Accepted(p) && GoodHoles(hs)
    ensures HoleListContext.HolesAfter(hs, m, p) == Cut(Clipped(hs, m, p), p.fragOff, Last(p))
    ensures GoodHoles(Clipped(hs, m, p)) && GoodHoles(HoleListContext.HolesAfter(hs, m, p))
  {
    GoodClip(hs, Last(p));
    GoodCut(Clipped(hs, m, p), p.fragOff, Last(p));
  }

  /** Data that brings no missing byte cuts nothing. */
  lemma NothingToCut(hs: seq<Hole>, f: int, l: int)
    requires Ascending(hs) && f <= l && !Brings(hs, f, l)
    ensures Cut(hs, f, l) == hs
  {
    forall i | 0 <= i < |hs| ensures !Meets(hs[i], f, l) {
      if Meets(hs[i], f, l) {
        BringsHere(hs, f, l, i);
        assert false;
      }
    }
    PendingNone(hs, f, l);
  }

  /** The holes are the missing bytes of the history, and the limit is its limit. */
  ghost predicate Tracks(hs: seq<Hole>, m: int, history: seq<Packet>) {
    m == Limit(history) && HoleListContext.HolesMatch(hs, history)
  }

  lemma TracksAfter(hs: seq<Hole>, m: int, history: seq<Packet>, p: Packet)
    requires Tracks(hs, m, history)
    ensures var m' := if Accepted(p) && Restricts(p, m) then Last(p) else m;
      Tracks(HoleListContext.HolesAfter(hs, m, p), m', history + [p])
  {
    LimitSnoc(history, p);
    HoleListContext.HolesAfterMatch(hs, history, p);
  }

  lemma ClippedTracks(hs: seq<Hole>, m: int, history: seq<Packet>, p: Packet, x: int)
    requires Tracks(hs, m, history) && Accepted(p)
    ensures InHoles(Clipped(hs, m, p), x) <==> 0 <= x <= Limit(history + [p]) && !Covered(history, x)
  {
    LimitSnoc(history, p);
    ClipMeaning(hs, Last(p), x);
    assert InHoles(hs, x) <==> Missing(history, x);
  }

  /** The packet lowers the limit or brings a missing byte, without overlap. */
  ghost predicate Kept(p: Packet, overlap: bool, hs: seq<Hole>, m: int) {
    Accepted(p) && !overlap && (Restricts(p, m) || Brings(hs, p.fragOff, Last(p)))
  }

  /** Freeing the packets that bring nothing loses nothing. */
  lemma KeptTracks(hs: seq<Hole>, m: int, packets: seq<Packet>, p: Packet)
    requires Tracks(hs, m, packets) && GoodHoles(hs)
    ensures Tracks(HoleListContext.HolesAfter(hs, m, p), if Accepted(p) && Restricts(p, m) then Last(p) else m,
                   if Kept(p, false, hs, m) then packets + [p] else packets)
  {
    if Kept(p, false, hs, m) {
      TracksAfter(hs, m, packets, p);
    } else if Accepted(p) {
      NothingToCut(hs, p.fragOff, Last(p));
    }
  }

  class HoleTree {
    const ipv6: bool
    const tree: Root
    const firstHole: Node
    var hole: HoleMap
    var packets: seq<Packet>
    /** The node embedded in each packet. */
    var nodes: seq<Node>
    var mostRestrictingLast: int
    ghost var shape: Tree

    /** The holes in ascending order. */
    ghost function Holes(): seq<Hole>
      reads this
    {
      Spell(InOrder(shape), hole)
    }

    /** The nodes that live as long as the context does. */
    ghost function Owned(): set<Node>
      reads this
    {
      {firstHole} + set x | x in nodes
    }

    ghost predicate Valid()
      reads this, tree, tree.mem.Keys
    {
      && tree.Sync() && HoldsTree(tree.mem, tree.root, shape) && GoodHoles(Holes())
      && Nodes(shape) <= Owned() && |nodes| == |packets| && 0 <= mostRestrictingLast <= MAX16
    }

    constructor (v6: bool)
      ensures Valid() && fresh(tree) && fresh(tree.mem.Keys) && ipv6 == v6 && packets == []
      ensures Holes() == [Hole(0, MAX16)] && Tracks(Holes(), mostRestrictingLast, [])
    {
      ipv6 := v6;
      var t := new Root();
      var n := new Node();
      tree, firstHole := t, n;
      hole := map[n := Hole(0, MAX16)];
      packets, nodes := [], [];
      mostRestrictingLast := MAX16;
      ghost var s, k;
      EmptyTree();
      s, k := RbTree.Insert(t, n, (a, b) => 0, Leaf);
      shape := s;
      new;
      OnlyNode(shape, firstHole, k);
      OneHoleTracks();
    }

    method IsComplete() returns (complete: bool)
      requires Valid()
      ensures complete <==> Holes() == []
      ensures forall history :: Tracks(Holes(), mostRestrictingLast, history) ==> (complete <==> Complete(history))
    {
      WholeTree(tree.mem, tree.root, shape, hole);
      complete := tree.root == null;
      forall history | Tracks(Holes(), mostRestrictingLast, history) ensures complete <==> Complete(history) {
        HoleListContext.EmptyIffComplete(Holes(), history);
      }
    }

    /** rb_explicit_reassctx_add. `self` is the node embedded in the packet. A packet whose node is in
        the tree is kept; one that brings nothing, or overlaps under IPv6, is freed. */
    method Add(p: Packet, self: Node) returns (overlap: bool)
      requires Valid() && self !in Owned()
      modifies this, tree, tree.mem.Keys, self
      ensures Valid() && tree.mem.Keys <= old(tree.mem.Keys) + {self}
      ensures mostRestrictingLast == if Accepted(p) && Restricts(p, old(mostRestrictingLast)) then Last(p)
        else old(mostRestrictingLast)
      ensures overlap <==>
        Accepted(p) && ipv6 && Repeats(Clipped(old(Holes()), old(mostRestrictingLast), p), p.fragOff, Last(p))
      ensures Holes() == if overlap then Clipped(old(Holes()), old(mostRestrictingLast), p)
                         else HoleListContext.HolesAfter(old(Holes()), old(mostRestrictingLast), p)
      ensures Kept(p, overlap, old(Holes()), old(mostRestrictingLast)) ==>
        packets == old(packets) + [p] && nodes == old(nodes) + [self]
      ensures !Kept(p, overlap, old(Holes()), old(mostRestrictingLast)) ==>
        packets == old(packets) && nodes == old(nodes)
    {
      hide Root.Sync, HoldsTree, InOrder, Spell, Nodes, Clipped, Cut, GoodHoles, Brings, Repeats,
           HoleListContext.HolesAfter;
      overlap := false;
      if !Accepted(p) {
        Refused(Holes(), mostRestrictingLast, p);
        return;
      }
      ghost var hs, m := Holes(), mostRestrictingLast;
      AfterIsCutOfClipped(hs, m, p);
      KeptWhen(p, hs, m);
      var mod := Lower(p);
      var brings;
      hole, brings, overlap, shape := AddData(tree, ipv6, hole, p.fragOff, Last(p), self, shape);
      if (mod || brings) && !overlap {
        packets := packets + [p];
        nodes := nodes + [self];
      }
    }

    /** A final fragment that ends before the limit lowers it. */
    method Lower(p: Packet) returns (mod: bool)
      requires Valid() && Accepted(p)
      modifies this`hole, this`shape, this`mostRestrictingLast, tree, tree.mem.Keys
      ensures Valid() && tree.mem.Keys == old(tree.mem.Keys) && Nodes(shape) <= old(Nodes(shape))
      ensures mod == Restricts(p, old(mostRestrictingLast))
      ensures mostRestrictingLast == if mod then Last(p) else old(mostRestrictingLast)
      ensures Holes() == Clipped(old(Holes()), old(mostRestrictingLast), p)
    {
      hide Root.Sync, HoldsTree, InOrder, Spell, Nodes, Clip, Cut, GoodHoles;
      ghost var hs, m := Holes(), mostRestrictingLast;
      AfterIsCutOfClipped(hs, m, p);
      GoodAscends(hs);
      mod := false;
      if !p.moreFrags && mostRestrictingLast > Last(p) {
        mostRestrictingLast := Last(p);
        hole, shape := ClipTree(tree, hole, mostRestrictingLast, shape);
        mod := true;
      }
    }

    /** The payload of the reassembled datagram. */
    method Reassemble(fill: nat -> Byte) returns (pay: seq<Byte>)
      requires Valid() && packets != []
      requires forall i :: 0 <= i < |packets| ==> HoleListContext.Copyable(packets[i], mostRestrictingLast)
      ensures |pay| == mostRestrictingLast + 1
      ensures forall x :: 0 <= x < |pay| ==> pay[x] == HoleListContext.Copied(packets, mostRestrictingLast, fill, x)
      ensures (forall i :: 0 <= i < |packets| ==> HoleListContext.Clean(packets[i], mostRestrictingLast)) ==>
        forall x :: 0 <= x < |pay| && Covered(packets, x) ==> Delivered(packets, x, pay[x])
    {
      pay := HoleListContext.CopyPackets(packets, mostRestrictingLast, fill);
    }
  }

  lemma Refused(hs: seq<Hole>, m: int, p: Packet)
    requires !Accepted(p)
    ensures HoleListContext.HolesAfter(hs, m, p) == hs
  {
  }

  lemma GoodAscends(hs: seq<Hole>)
    requires GoodHoles(hs)
    ensures Ascending(hs)
  {
  }

  lemma KeptWhen(p: Packet, hs: seq<Hole>, m: int)
    requires Accepted(p)
    ensures Restricts(p, m) || Brings(Clipped(hs, m, p), p.fragOff, Last(p)) <==> Kept(p, false, hs, m)
  {
  }

  lemma EmptyTree()
    ensures RbTree.RBTree(Leaf) && Proper(Leaf)
  {
  }

  lemma OnlyNode(t: Tree, n: Node, k: nat)
    requires Inserted(InOrder(t), InOrder(Leaf), n, k)
    ensures InOrder(t) == [n] && Nodes(t) <= {n}
  {
    NodesByOrder(t, Leaf, {n});
  }

  lemma OneHoleTracks()
    ensures Tracks([Hole(0, MAX16)], MAX16, []) && GoodHoles([Hole(0, MAX16)])
  {
    var hs := [Hole(0, MAX16)];
    forall x ensures InHoles(hs, x) <==> Missing([], x) {
      assert InHole(hs[0], x) ==> InHoles(hs, x);
    }
  }
}
