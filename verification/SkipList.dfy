/** `timerskiplist.c`: pending timers in a skip list of up to ten levels. The array sl_next of all
    timers is kept level by level: `next[lvl][x]` is the field sl_next[lvl] of timer `x`. */
module SkipList {

  /** Timers are named by positive numbers. */
  const NIL := 0
  const HEAD := -1

  const MAX_SKIPLIST_DEPTH := 10
  const MAX64 := 0xFFFF_FFFF_FFFF_FFFF

  type Links = map<int, int>

  function TimeOf(time: map<int, int>, x: int): int {
    if x in time then time[x] else 0
  }

  // ---- one level: a linked chain

  /** The node before position `k` of the chain `s`. */
  function NodeAt(s: seq<int>, k: nat): int
    requires k <= |s|
  {
    if k == 0 then HEAD else s[k - 1]
  }

  function Follower(s: seq<int>, k: nat): int
    requires k <= |s|
  {
    if k < |s| then s[k] else NIL
  }

  /** The links `m` lead from the head along `s` to the end. */
  ghost predicate Chain(m: Links, s: seq<int>) {
    forall k :: 0 <= k <= |s| ==> NodeAt(s, k) in m && m[NodeAt(s, k)] == Follower(s, k)
  }

  /** Different timers. */
  ghost predicate Timers(s: seq<int>) {
    && (forall i :: 0 <= i < |s| ==> s[i] > 0)
    && (forall i, j :: 0 <= i < j < |s| ==> s[i] != s[j])
  }

  ghost predicate Sorted(s: seq<int>, time: map<int, int>) {
    forall i, j :: 0 <= i < j < |s| ==> TimeOf(time, s[i]) <= TimeOf(time, s[j])
  }

  /** Different places have different nodes. */
  lemma Places(s: seq<int>, j: nat, k: nat)
    requires Timers(s) && j <= |s| && k <= |s|
    ensures NodeAt(s, j) == NodeAt(s, k) <==> j == k
    ensures NodeAt(s, j) != NIL
  {
  }

  function Insert(s: seq<int>, k: nat, x: int): seq<int>
    requires k <= |s|
  {
    s[..k] + [x] + s[k..]
  }

  function Delete(s: seq<int>, k: nat): seq<int>
    requires k < |s|
  {
    s[..k] + s[k + 1..]
  }

  lemma InsertPlaces(s: seq<int>, k: nat, x: int, j: nat)
    requires k <= |s| && j <= |s| + 1
    ensures NodeAt(Insert(s, k, x), j) == if j <= k then NodeAt(s, j) else if j == k + 1 then x else NodeAt(s, j - 1)
    ensures Follower(Insert(s, k, x), j) == if j < k then Follower(s, j) else if j == k then x else Follower(s, j - 1)
  {
  }

  lemma ChainInsert(m: Links, s: seq<int>, k: nat, x: int)
    requires Chain(m, s) && Timers(s) && k <= |s| && x > 0 && x !in s
    ensures Chain(m[x := Follower(s, k)][NodeAt(s, k) := x], Insert(s, k, x)) && Timers(Insert(s, k, x))
  {
    var s', m' := Insert(s, k, x), m[x := Follower(s, k)][NodeAt(s, k) := x];
    assert NodeAt(s, k) != x;
    forall j | 0 <= j <= |s'| ensures NodeAt(s', j) in m' && m'[NodeAt(s', j)] == Follower(s', j) {
      InsertPlaces(s, k, x, j);
      var j0 := if j <= k then j else j - 1;
      Places(s, j0, k);
      assert NodeAt(s, j0) in m && m[NodeAt(s, j0)] == Follower(s, j0);
      assert NodeAt(s, j0) != x;
    }
    forall i, j | 0 <= i < j < |s'| ensures s'[i] != s'[j] {
      assert s'[i] == if i < k then s[i] else if i == k then x else s[i - 1];
      assert s'[j] == if j < k then s[j] else if j == k then x else s[j - 1];
    }
  }

  lemma ChainDelete(m: Links, s: seq<int>, k: nat)
    requires Chain(m, s) && Timers(s) && k < |s|
    ensures s[k] in m && Chain(m[NodeAt(s, k) := m[s[k]]], Delete(s, k)) && Timers(Delete(s, k))
  {
    var s' := Delete(s, k);
    assert NodeAt(s, k + 1) == s[k] && NodeAt(s, k + 1) in m && m[s[k]] == Follower(s, k + 1);
    var m' := m[NodeAt(s, k) := m[s[k]]];
    forall j | 0 <= j <= |s'| ensures NodeAt(s', j) in m' && m'[NodeAt(s', j)] == Follower(s', j) {
      var j0 := if j <= k then j else j + 1;
      assert NodeAt(s', j) == NodeAt(s, j0);
      assert Follower(s', j) == if j < k then Follower(s, j) else Follower(s, j + 1);
      Places(s, j0, k);
      assert NodeAt(s, j0) in m && m[NodeAt(s, j0)] == Follower(s, j0);
    }
  }

  /** Cutting a chain after its first `k` timers, as timer_skiplist_manage does. */
  lemma ChainCut(m: Links, s: seq<int>, k: nat)
    requires Chain(m, s) && Timers(s) && 0 < k <= |s|
    ensures var m' := m[HEAD := m[NodeAt(s, k)]][NodeAt(s, k) := NIL];
      Chain(m', s[k..]) && Timers(s[k..]) && Ends(m', s[..k])
  {
    var m' := m[HEAD := m[NodeAt(s, k)]][NodeAt(s, k) := NIL];
    Places(s, 0, k);
    forall j | 0 <= j <= |s| - k ensures NodeAt(s[k..], j) in m' && m'[NodeAt(s[k..], j)] == Follower(s[k..], j) {
      assert j > 0 ==> NodeAt(s[k..], j) == NodeAt(s, k + j);
      assert Follower(s[k..], j) == Follower(s, k + j);
      Places(s, k + j, k);
      Places(s, k + j, 0);
      assert NodeAt(s, k + j) in m && m[NodeAt(s, k + j)] == Follower(s, k + j);
    }
    forall j | 0 <= j < k ensures s[..k][j] in m' && m'[s[..k][j]] == if j + 1 < k then s[..k][j + 1] else NIL {
      Places(s, j + 1, k);
      Places(s, j + 1, 0);
      assert NodeAt(s, j + 1) in m && m[NodeAt(s, j + 1)] == Follower(s, j + 1);
    }
  }

  /** The links lead along `s` and end with its last timer. */
  ghost predicate Ends(m: Links, s: seq<int>) {
    forall j :: 0 <= j < |s| ==> s[j] in m && m[s[j]] == if j + 1 < |s| then s[j + 1] else NIL
  }

  // ---- sorted chains

  /** How many timers at the start are due at `t` or before. */
  ghost function UpTo(s: seq<int>, t: int, time: map<int, int>): (k: nat)
    ensures k <= |s| && (forall i :: 0 <= i < k ==> TimeOf(time, s[i]) <= t)
    ensures k < |s| ==> TimeOf(time, s[k]) > t
  {
    if s == [] || TimeOf(time, s[0]) > t then 0 else 1 + UpTo(s[1..], t, time)
  }

  lemma UpToUnique(s: seq<int>, t: int, time: map<int, int>, k: nat)
    requires Sorted(s, time) && k <= |s| && (k > 0 ==> TimeOf(time, s[k - 1]) <= t)
    requires (k < |s| ==> TimeOf(time, s[k]) > t)
    ensures k == UpTo(s, t, time)
  {
  }

  lemma InsertSorted(s: seq<int>, k: nat, x: int, time: map<int, int>)
    requires Sorted(s, time) && k <= |s|
    requires k > 0 ==> TimeOf(time, s[k - 1]) <= TimeOf(time, x)
    requires k < |s| ==> TimeOf(time, x) <= TimeOf(time, s[k])
    ensures Sorted(Insert(s, k, x), time)
  {
    hide TimeOf;
    var s' := Insert(s, k, x);
    forall i, j | 0 <= i < j < |s'| ensures TimeOf(time, s'[i]) <= TimeOf(time, s'[j]) {
      assert s'[i] == if i < k then s[i] else if i == k then x else s[i - 1];
      assert s'[j] == if j < k then s[j] else if j == k then x else s[j - 1];
      if i < k && j == k && i < k - 1 {
        assert TimeOf(time, s[i]) <= TimeOf(time, s[k - 1]);
      } else if i == k && j > k + 1 {
        assert TimeOf(time, s[k]) <= TimeOf(time, s[j - 1]);
      }
    }
  }

  lemma DeleteSorted(s: seq<int>, k: nat, time: map<int, int>)
    requires Sorted(s, time) && k < |s|
    ensures Sorted(Delete(s, k), time)
  {
    var s' := Delete(s, k);
    forall i, j | 0 <= i < j < |s'| ensures TimeOf(time, s'[i]) <= TimeOf(time, s'[j]) {
      assert s'[i] == if i < k then s[i] else s[i + 1];
      assert s'[j] == if j < k then s[j] else s[j + 1];
    }
  }

  // ---- levels: each chain is a subsequence of the one below

  ghost predicate Sub(a: seq<int>, b: seq<int>) {
    if a == [] then true
    else if b == [] then false
    else if a[0] == b[0] then Sub(a[1..], b[1..])
    else Sub(a, b[1..])
  }

  lemma {:induction false} SubHas(a: seq<int>, b: seq<int>, x: int)
    requires Sub(a, b) && x in a
    ensures x in b
    decreases b
  {
    if a[0] == b[0] {
      if x != a[0] {
        assert x in a[1..];
        SubHas(a[1..], b[1..], x);
      }
    } else {
      SubHas(a, b[1..], x);
    }
  }

  lemma {:induction false} SubTail(a: seq<int>, b: seq<int>)
    requires a != [] && Sub(a, b)
    ensures Sub(a[1..], b)
    decreases |b|, 1
  {
    if a[0] == b[0] {
      SubSkip(a[1..], b);
    } else {
      SubTail(a, b[1..]);
      SubSkip(a[1..], b);
    }
  }

  /** What is below the rest of a list is below the list. */
  lemma {:induction false} SubSkip(a: seq<int>, b: seq<int>)
    requires b != [] && Sub(a, b[1..])
    ensures Sub(a, b)
    decreases |b|, 0
  {
    if a != [] && a[0] == b[0] {
      SubTail(a, b[1..]);
    }
  }

  /** A timer that goes into the lower chain only. */
  lemma {:induction false} SubInsertBelow(a: seq<int>, b: seq<int>, k: nat, x: int)
    requires Sub(a, b) && k <= |b|
    ensures Sub(a, Insert(b, k, x))
    decreases b
  {
    var b' := Insert(b, k, x);
    if k == 0 {
      assert b'[1..] == b;
      SubSkip(a, b');
    } else if a != [] {
      assert b'[0] == b[0] && b'[1..] == Insert(b[1..], k - 1, x);
      SubInsertBelow(if a[0] == b[0] then a[1..] else a, b[1..], k - 1, x);
    }
  }

  /** A timer that goes into both chains at the place for its time. */
  lemma {:induction false} SubInsertBoth(a: seq<int>, b: seq<int>, x: int, t: int, time: map<int, int>)
    requires Sub(a, b) && Sorted(b, time)
    ensures Sub(Insert(a, UpTo(a, t, time), x), Insert(b, UpTo(b, t, time), x))
    decreases b
  {
    hide Insert, UpTo, Sorted;
    var i, j := UpTo(a, t, time), UpTo(b, t, time);
    InsertFirst(a, i, x);
    InsertFirst(b, j, x);
    UpToFirst(a, t, time);
    UpToFirst(b, t, time);
    SortedTail(b, time);
    if j == 0 {
      NoneSooner(a, b, t, time);
      SubSame(x, a, b);
    } else if a != [] && a[0] == b[0] {
      SubInsertBoth(a[1..], b[1..], x, t, time);
      SubSame(a[0], Insert(a[1..], i - 1, x), Insert(b[1..], j - 1, x));
    } else {
      SubInsertBoth(a, b[1..], x, t, time);
      SubMore(Insert(a, i, x), b[0], Insert(b[1..], j - 1, x));
    }
  }

  lemma UpToFirst(s: seq<int>, t: int, time: map<int, int>)
    ensures UpTo(s, t, time) == if s == [] || TimeOf(time, s[0]) > t then 0 else 1 + UpTo(s[1..], t, time)
  {
  }

  lemma SortedTail(s: seq<int>, time: map<int, int>)
    requires Sorted(s, time)
    ensures s != [] ==> Sorted(s[1..], time)
  {
  }

  /** If nothing is due in the lower chain, nothing is in the upper one. */
  lemma NoneSooner(a: seq<int>, b: seq<int>, t: int, time: map<int, int>)
    requires Sub(a, b) && Sorted(b, time) && UpTo(b, t, time) == 0
    ensures UpTo(a, t, time) == 0
  {
    if a != [] {
      SubHas(a, b, a[0]);
    }
  }

  lemma InsertFirst(s: seq<int>, k: nat, x: int)
    requires k <= |s|
    ensures Insert(s, k, x) == if k == 0 then [x] + s else [s[0]] + Insert(s[1..], k - 1, x)
  {
  }

  lemma SubSame(x: int, a: seq<int>, b: seq<int>)
    requires Sub(a, b)
    ensures Sub([x] + a, [x] + b)
  {
    assert ([x] + a)[1..] == a && ([x] + b)[1..] == b;
  }

  lemma SubMore(a: seq<int>, x: int, b: seq<int>)
    requires Sub(a, b)
    ensures Sub(a, [x] + b)
  {
    assert ([x] + b)[1..] == b;
    SubSkip(a, [x] + b);
  }

  /** `s` without the timer `x`. */
  ghost function Without(s: seq<int>, x: int): seq<int> {
    if s == [] then [] else if s[0] == x then Without(s[1..], x) else [s[0]] + Without(s[1..], x)
  }

  lemma {:induction false} WithoutNone(s: seq<int>, x: int)
    requires x !in s
    ensures Without(s, x) == s
  {
    if s != [] {
      WithoutNone(s[1..], x);
    }
  }

  lemma {:induction false} WithoutIsDelete(s: seq<int>, k: nat)
    requires Timers(s) && k < |s|
    ensures Without(s, s[k]) == Delete(s, k)
    decreases s
  {
    if k == 0 {
      WithoutNone(s[1..], s[0]);
      assert Delete(s, 0) == s[1..];
    } else {
      WithoutIsDelete(s[1..], k - 1);
      assert s[1..][k - 1] == s[k];
      assert Delete(s, k) == [s[0]] + Delete(s[1..], k - 1);
    }
  }

  lemma {:induction false} SubWithout(a: seq<int>, b: seq<int>, x: int)
    requires Sub(a, b)
    ensures Sub(Without(a, x), Without(b, x))
    decreases b
  {
    if a != [] {
      if a[0] == b[0] {
        SubWithout(a[1..], b[1..], x);
        if a[0] != x {
          assert ([a[0]] + Without(a[1..], x))[1..] == Without(a[1..], x);
          assert ([b[0]] + Without(b[1..], x))[1..] == Without(b[1..], x);
        }
      } else {
        SubWithout(a, b[1..], x);
        if b[0] != x {
          var b' := [b[0]] + Without(b[1..], x);
          assert b'[1..] == Without(b[1..], x);
          SubSkip(Without(a, x), b');
        }
      }
    }
  }

  /** Cutting both chains at the same time. */
  lemma {:induction false} SubCut(a: seq<int>, b: seq<int>, t: int, time: map<int, int>)
    requires Sub(a, b) && Sorted(b, time)
    ensures Sub(a[UpTo(a, t, time)..], b[UpTo(b, t, time)..])
    decreases b
  {
    var i, j := UpTo(a, t, time), UpTo(b, t, time);
    if b == [] {
    } else if j == 0 {
      if a != [] {
        SubHas(a, b, a[0]);
      }
      assert a[i..] == a && b[j..] == b;
    } else if a != [] && a[0] == b[0] {
      SubCut(a[1..], b[1..], t, time);
      assert a[i..] == a[1..][i - 1..] && b[j..] == b[1..][j - 1..];
    } else {
      SubCut(a, b[1..], t, time);
      assert b[j..] == b[1..][j - 1..];
    }
  }

  // ---- the skip list

  /** One level: sorted, without repetition, linked. */
  ghost predicate Level(m: Links, s: seq<int>, time: map<int, int>) {
    Chain(m, s) && Timers(s) && Sorted(s, time)
  }

  ghost predicate Nested(chains: seq<seq<int>>) {
    forall i :: 0 <= i < |chains| - 1 ==> Sub(chains[i + 1], chains[i])
  }

  /** Exactly the first `depth` levels are in use. */
  ghost predicate Deep(chains: seq<seq<int>>, depth: nat) {
    depth <= |chains| && forall i :: 0 <= i < |chains| ==> (chains[i] != [] <==> i < depth)
  }

  lemma SameDepth(chains: seq<seq<int>>, depth: nat, depth': nat)
    requires Deep(chains, depth) && Deep(chains, depth')
    ensures depth == depth'
  {
    if depth < |chains| {
      assert chains[depth] != [] <==> depth < depth';
    }
    if depth' < |chains| {
      assert chains[depth'] != [] <==> depth' < depth;
    }
  }

  ghost predicate Levels(next: seq<Links>, chains: seq<seq<int>>, time: map<int, int>) {
    && |next| == |chains| == MAX_SKIPLIST_DEPTH
    && forall i :: 0 <= i < |chains| ==> Level(next[i], chains[i], time)
  }

  /** The last node of an upper chain that is due by `t` is in the chain below, with nothing later before it. */
  lemma LevelDown(a: seq<int>, b: seq<int>, t: int, time: map<int, int>) returns (k: nat)
    requires Sub(a, b) && Sorted(b, time)
    ensures k <= |b| && NodeAt(b, k) == NodeAt(a, UpTo(a, t, time)) && (k > 0 ==> TimeOf(time, b[k - 1]) <= t)
  {
    var u := UpTo(a, t, time);
    if u == 0 {
      k := 0;
    } else {
      SubHas(a, b, a[u - 1]);
      var j :| 0 <= j < |b| && b[j] == a[u - 1];
      k := j + 1;
    }
  }

  lemma SortedLevel(m: Links, s: seq<int>, time: map<int, int>)
    requires Level(m, s, time)
    ensures Sorted(s, time) && Timers(s)
  {
  }

  /** On each used level the last node due by `t`. */
  ghost predicate Entries(prev: seq<int>, from: nat, depth: nat, chains: seq<seq<int>>, t: int, time: map<int, int>) {
    && |prev| == MAX_SKIPLIST_DEPTH + 1 && depth <= |chains| == MAX_SKIPLIST_DEPTH && prev[depth] == HEAD
    && forall i :: from <= i < depth ==> prev[i] == NodeAt(chains[i], UpTo(chains[i], t, time))
  }

  method NoEntries(ghost depth: nat, ghost chains: seq<seq<int>>, ghost t: int, ghost time: map<int, int>)
    returns (prev: seq<int>)
    requires depth <= |chains| == MAX_SKIPLIST_DEPTH
    ensures Entries(prev, depth, depth, chains, t, time)
  {
    prev := seq(MAX_SKIPLIST_DEPTH + 1, i => HEAD);
  }

  lemma EntryAt(prev: seq<int>, i: nat, depth: nat, chains: seq<seq<int>>, t: int, time: map<int, int>)
    requires i <= depth && Entries(prev, i, depth, chains, t, time)
    ensures |prev| == MAX_SKIPLIST_DEPTH + 1 && depth <= |chains| == MAX_SKIPLIST_DEPTH
    ensures prev[i] == if i < depth then NodeAt(chains[i], UpTo(chains[i], t, time)) else HEAD
  {
  }

  lemma MoreEntries(prev: seq<int>, i: nat, depth: nat, chains: seq<seq<int>>, t: int, time: map<int, int>, x: int)
    requires i < depth && Entries(prev, i + 1, depth, chains, t, time)
    requires x == NodeAt(chains[i], UpTo(chains[i], t, time))
    ensures Entries(prev[i := x], i, depth, chains, t, time)
  {
  }

  /** The highest level up to `r` that leaves no unused level below it and is one of the ten. */
  function LevelFor(r: nat, depth: nat): (lvl: nat)
    ensures lvl <= r && lvl <= depth && lvl <= 9
    ensures lvl == r || lvl == depth || lvl == 9
  {
    if r <= depth && r < MAX_SKIPLIST_DEPTH then r
    else if depth < MAX_SKIPLIST_DEPTH then depth
    else MAX_SKIPLIST_DEPTH - 1
  }

  /** The levels once timer `x` is in those up to `lvl`. */
  ghost function Added(chains: seq<seq<int>>, x: int, lvl: nat, time: map<int, int>): (r: seq<seq<int>>)
    ensures |r| == |chains|
  {
    seq(|chains|, i requires 0 <= i < |chains| =>
      if i <= lvl then Insert(chains[i], UpTo(chains[i], TimeOf(time, x), time), x) else chains[i])
  }

  /** The old levels below `l`, the new ones from there on. */
  ghost function Mixed(old0: seq<seq<int>>, new0: seq<seq<int>>, l: nat): seq<seq<int>>
    requires l <= |old0| == |new0|
  {
    old0[..l] + new0[l..]
  }

  lemma MixedStart(chains: seq<seq<int>>, x: int, lvl: nat, time: map<int, int>)
    requires lvl < |chains|
    ensures Mixed(chains, Added(chains, x, lvl, time), lvl + 1) == chains
  {
  }

  lemma MixedEnd(chains: seq<seq<int>>, added: seq<seq<int>>)
    requires |chains| == |added|
    ensures Mixed(chains, added, 0) == added
  {
  }

  lemma {:induction false} NotAbove(chains: seq<seq<int>>, i: nat, x: int)
    requires Nested(chains) && i < |chains| && x !in chains[0]
    ensures x !in chains[i]
  {
    if i > 0 {
      NotAbove(chains, i - 1, x);
      assert Sub(chains[i - 1 + 1], chains[i - 1]);
      if x in chains[i] {
        SubHas(chains[i], chains[i - 1], x);
      }
    }
  }

  lemma LevelInsert(m: Links, s: seq<int>, x: int, time: map<int, int>)
    requires Level(m, s, time) && x > 0 && x !in s
    ensures var k := UpTo(s, TimeOf(time, x), time);
      && NodeAt(s, k) in m && NodeAt(s, k) != x
      && Level(m[x := m[NodeAt(s, k)]][NodeAt(s, k) := x], Insert(s, k, x), time)
  {
    var k := UpTo(s, TimeOf(time, x), time);
    assert NodeAt(s, k) in m && m[NodeAt(s, k)] == Follower(s, k);
    ChainInsert(m, s, k, x);
    InsertSorted(s, k, x, time);
  }

  /** One round of the loop in timer_skiplist_add. */
  lemma LinkFacts(next: seq<Links>, chains: seq<seq<int>>, x: int, lvl: nat, l: nat, depth: nat, prev: seq<int>,
                  time: map<int, int>)
    requires |chains| == MAX_SKIPLIST_DEPTH && Nested(chains) && Deep(chains, depth)
    requires Entries(prev, 0, depth, chains, TimeOf(time, x), time)
    requires l <= lvl <= depth && lvl < MAX_SKIPLIST_DEPTH && x > 0 && x !in chains[0]
    requires Levels(next, Mixed(chains, Added(chains, x, lvl, time), l + 1), time)
    ensures |next| == MAX_SKIPLIST_DEPTH && |prev| == MAX_SKIPLIST_DEPTH + 1 && prev[l] in next[l]
    ensures Levels(next[l := next[l][x := next[l][prev[l]]][prev[l] := x]],
      Mixed(chains, Added(chains, x, lvl, time), l), time)
  {
    hide Level, UpTo, Nested, Deep, Entries, Added, Mixed, Insert;
    var added := Added(chains, x, lvl, time);
    var was := Mixed(chains, added, l + 1);
    MixedStep(chains, added, l);
    assert Level(next[l], chains[l], time);
    NotAbove(chains, l, x);
    LevelInsert(next[l], chains[l], x, time);
    EntryFor(prev, l, depth, chains, TimeOf(time, x), time);
    AddedLevel(chains, x, lvl, time, l);
    LevelChanged(next, was, l, next[l][x := next[l][prev[l]]][prev[l] := x], added[l], time);
  }

  lemma MixedStep(old0: seq<seq<int>>, new0: seq<seq<int>>, l: nat)
    requires l < |old0| == |new0|
    ensures var was := Mixed(old0, new0, l + 1);
      |was| == |old0| && was[l] == old0[l] && Mixed(old0, new0, l) == was[l := new0[l]]
  {
  }

  lemma AddedLevel(chains: seq<seq<int>>, x: int, lvl: nat, time: map<int, int>, l: nat)
    requires l <= lvl && l < |chains|
    ensures Added(chains, x, lvl, time)[l] == Insert(chains[l], UpTo(chains[l], TimeOf(time, x), time), x)
  {
  }

  /** The entry of a level, which is the head on the first unused one. */
  lemma EntryFor(prev: seq<int>, l: nat, depth: nat, chains: seq<seq<int>>, t: int, time: map<int, int>)
    requires Entries(prev, 0, depth, chains, t, time) && Deep(chains, depth) && l <= depth && l < |chains|
    ensures |prev| == MAX_SKIPLIST_DEPTH + 1 && prev[l] == NodeAt(chains[l], UpTo(chains[l], t, time))
  {
    EmptyUpTo(t, time);
  }

  lemma LevelChanged(next: seq<Links>, chains: seq<seq<int>>, l: nat, m: Links, s: seq<int>, time: map<int, int>)
    requires Levels(next, chains, time) && l < |chains| && Level(m, s, time)
    ensures Levels(next[l := m], chains[l := s], time)
  {
    hide Level;
  }

  lemma EmptyUpTo(t: int, time: map<int, int>)
    ensures UpTo([], t, time) == 0
  {
  }

  lemma AddedFacts(chains: seq<seq<int>>, x: int, lvl: nat, time: map<int, int>, depth: nat, next: seq<Links>)
    requires Levels(next, chains, time) && Nested(chains) && Deep(chains, depth) && lvl <= depth
    requires lvl < MAX_SKIPLIST_DEPTH
    ensures Nested(Added(chains, x, lvl, time))
    ensures Deep(Added(chains, x, lvl, time), if lvl == depth then depth + 1 else depth)
    ensures |chains| == MAX_SKIPLIST_DEPTH
    ensures Added(chains, x, lvl, time)[0] == Insert(chains[0], UpTo(chains[0], TimeOf(time, x), time), x)
    ensures Added(chains, x, lvl, time)[0] != []
  {
    hide Sub, UpTo, TimeOf;
    var added := Added(chains, x, lvl, time);
    forall i | 0 <= i < |chains| - 1 ensures Sub(added[i + 1], added[i]) {
      assert Sub(chains[i + 1], chains[i]) && Level(next[i], chains[i], time);
      if i + 1 <= lvl {
        SubInsertBoth(chains[i + 1], chains[i], x, TimeOf(time, x), time);
      } else if i <= lvl {
        SubInsertBelow(chains[i + 1], chains[i], UpTo(chains[i], TimeOf(time, x), time), x);
      }
    }
  }

  // ---- removing

  /** All times are 64-bit values. */
  ghost predicate Times(chains: seq<seq<int>>, time: map<int, int>) {
    forall i, j :: 0 <= i < |chains| && 0 <= j < |chains[i]| ==> 0 <= TimeOf(time, chains[i][j]) <= MAX64
  }

  /** `y` is the node before `x` if `x` is in the chain and is to be found; otherwise `x` does not follow it. */
  ghost predicate Precedes(m: Links, s: seq<int>, y: int, x: int, found: bool) {
    y in m && if found && x in s then exists k :: 0 <= k < |s| && s[k] == x && y == NodeAt(s, k) else m[y] != x
  }

  ghost predicate Around(prev: seq<int>, from: nat, next: seq<Links>, chains: seq<seq<int>>, depth: nat, x: int,
                         found: bool) {
    && |prev| == MAX_SKIPLIST_DEPTH + 1 && |next| == |chains| == MAX_SKIPLIST_DEPTH && depth <= MAX_SKIPLIST_DEPTH
    && forall i :: from <= i < depth ==> Precedes(next[i], chains[i], prev[i], x, found)
  }

  lemma AroundStart(prev: seq<int>, next: seq<Links>, chains: seq<seq<int>>, depth: nat, t: int, time: map<int, int>,
                    x: int, found: bool)
    requires Entries(prev, 0, depth, chains, t, time) && |next| == |chains|
    ensures Around(prev, depth, next, chains, depth, x, found)
  {
  }

  lemma AroundStep(prev: seq<int>, i: nat, next: seq<Links>, chains: seq<seq<int>>, depth: nat, x: int, found: bool,
                   y: int)
    requires i < depth && Around(prev, i + 1, next, chains, depth, x, found)
    requires Precedes(next[i], chains[i], y, x, found)
    ensures Around(prev[i := y], i, next, chains, depth, x, found)
  {
  }

  lemma EntryOf(prev: seq<int>, i: nat, depth: nat, chains: seq<seq<int>>, t: int, time: map<int, int>)
    requires i < depth && Entries(prev, 0, depth, chains, t, time)
    ensures |prev| == MAX_SKIPLIST_DEPTH + 1 && depth <= |chains| == MAX_SKIPLIST_DEPTH
    ensures prev[i] == NodeAt(chains[i], UpTo(chains[i], t, time))
  {
  }

  lemma InDeep(chains: seq<seq<int>>, depth: nat, i: nat)
    requires Deep(chains, depth) && i < depth
    ensures i < |chains|
  {
  }

  /** Where the walk along a level ends. */
  lemma FoundPlace(m: Links, s: seq<int>, x: int, earlier: int, k: nat, time: map<int, int>, i: nat,
                   chains: seq<seq<int>>)
    requires i < |chains| && chains[i] == s && Times(chains, time) && Level(m, s, time) && x > 0
    requires var t := TimeOf(time, x); earlier == if t == 0 then MAX64 else t - 1
    requires UpTo(s, earlier, time) <= k <= |s| && (forall j :: UpTo(s, earlier, time) <= j < k ==> s[j] != x)
    requires k < |s| ==> s[k] == x || TimeOf(time, s[k]) > TimeOf(time, x)
    ensures Precedes(m, s, NodeAt(s, k), x, TimeOf(time, x) > 0)
  {
    var t, u := TimeOf(time, x), UpTo(s, earlier, time);
    assert forall j :: 0 <= j < |s| ==> 0 <= TimeOf(time, s[j]) <= MAX64;
    assert NodeAt(s, k) in m && m[NodeAt(s, k)] == Follower(s, k);
    if t > 0 && x in s {
      var j :| 0 <= j < |s| && s[j] == x;
      assert j >= u;
      assert k == j;
    } else if t == 0 {
      assert k == |s|;
    }
  }

  ghost function Removed(chains: seq<seq<int>>, x: int, found: bool): (r: seq<seq<int>>)
    ensures |r| == |chains|
  {
    seq(|chains|, i requires 0 <= i < |chains| => if found then Without(chains[i], x) else chains[i])
  }

  lemma RemovedNot(chains: seq<seq<int>>, x: int)
    ensures Removed(chains, x, false) == chains
  {
  }

  lemma RemovedStart(chains: seq<seq<int>>, x: int, found: bool, depth: nat)
    requires Deep(chains, depth)
    ensures Mixed(chains, Removed(chains, x, found), depth) == chains
  {
    forall i | depth <= i < |chains| ensures Removed(chains, x, found)[i] == chains[i] {
      assert chains[i] == [];
    }
  }

  lemma LevelWithout(m: Links, s: seq<int>, y: int, x: int, time: map<int, int>)
    requires Level(m, s, time) && Precedes(m, s, y, x, true) && x > 0
    ensures m[y] == x ==> x in m && Level(m[y := m[x]], Without(s, x), time)
    ensures m[y] != x ==> Level(m, Without(s, x), time)
  {
    if x in s {
      var k :| 0 <= k < |s| && s[k] == x && y == NodeAt(s, k);
      assert m[NodeAt(s, k)] == Follower(s, k);
      ChainDelete(m, s, k);
      DeleteSorted(s, k, time);
      WithoutIsDelete(s, k);
    } else {
      WithoutNone(s, x);
    }
  }

  lemma UnlinkFacts(next: seq<Links>, next0: seq<Links>, chains: seq<seq<int>>, x: int, i: nat, depth: nat,
                    prev: seq<int>, found: bool, time: map<int, int>)
    requires |chains| == MAX_SKIPLIST_DEPTH && i < depth && Around(prev, 0, next0, chains, depth, x, found) && x > 0
    requires Levels(next, Mixed(chains, Removed(chains, x, found), i + 1), time) && next[i] == next0[i]
    ensures |next| == MAX_SKIPLIST_DEPTH && |prev| == MAX_SKIPLIST_DEPTH + 1 && prev[i] in next[i]
    ensures var now := Mixed(chains, Removed(chains, x, found), i);
      if next[i][prev[i]] == x then found && x in next[i]
        && Levels(next[i := next[i][prev[i] := next[i][x]]], now, time)
      else Levels(next, now, time)
  {
    hide Level, Without;
    var removed := Removed(chains, x, found);
    var was, now := Mixed(chains, removed, i + 1), Mixed(chains, removed, i);
    assert was[i] == chains[i] && Level(next[i], was[i], time);
    assert Precedes(next0[i], chains[i], prev[i], x, found);
    if found {
      LevelWithout(next[i], chains[i], prev[i], x, time);
    }
    assert now == was[i := removed[i]];
  }

  lemma {:induction false} UsedBelow(chains: seq<seq<int>>, i: nat, j: nat)
    requires Nested(chains) && j <= i < |chains| && chains[i] != []
    ensures chains[j] != []
    decreases i
  {
    if j < i {
      assert Sub(chains[i - 1 + 1], chains[i - 1]);
      UsedBelow(chains, i - 1, j);
    }
  }

  lemma TimerAt(m: Links, s: seq<int>, time: map<int, int>, x: int)
    requires Level(m, s, time) && x in s
    ensures x > 0 && s != []
  {
  }

  lemma RemovedFacts(chains: seq<seq<int>>, x: int, depth: nat, next: seq<Links>, time: map<int, int>)
    requires Levels(next, chains, time) && Nested(chains) && Deep(chains, depth)
    ensures var r := Removed(chains, x, true);
      && Nested(r) && (forall i :: depth <= i < |r| ==> r[i] == []) && |chains| == MAX_SKIPLIST_DEPTH
      && r[0] == Without(chains[0], x)
      && (chains[0] != [] && chains[0][0] != x ==> r[0] != [] && r[0][0] == chains[0][0])
      && (chains[0] != [] && chains[0][0] == x ==> r[0] == chains[0][1..])
  {
    var r := Removed(chains, x, true);
    forall i | 0 <= i < |chains| - 1 ensures Sub(r[i + 1], r[i]) {
      assert Sub(chains[i + 1], chains[i]);
      SubWithout(chains[i + 1], chains[i], x);
    }
    forall i | depth <= i < |r| ensures r[i] == [] {
      assert chains[i] == [];
    }
    assert Level(next[0], chains[0], time);
    if chains[0] != [] && chains[0][0] == x {
      WithoutNone(chains[0][1..], x);
    }
  }

  lemma LevelSizes(next: seq<Links>, chains: seq<seq<int>>, time: map<int, int>)
    requires Levels(next, chains, time)
    ensures |next| == |chains| == MAX_SKIPLIST_DEPTH
  {
  }

  lemma Unused(chains: seq<seq<int>>, depth: nat)
    requires Deep(chains, depth)
    ensures forall i :: depth <= i < |chains| ==> chains[i] == []
  {
  }

  // ---- cutting off what has expired

  /** The timers due after `now`, on every level. */
  ghost function Later(chains: seq<seq<int>>, now: int, time: map<int, int>): (r: seq<seq<int>>)
    ensures |r| == |chains|
  {
    seq(|chains|, i requires 0 <= i < |chains| => chains[i][UpTo(chains[i], now, time)..])
  }

  lemma LaterFacts(chains: seq<seq<int>>, next: seq<Links>, depth: nat, now: int, time: map<int, int>)
    requires Levels(next, chains, time) && Nested(chains)
    ensures Nested(Later(chains, now, time))
  {
    hide UpTo, Sub;
    var r := Later(chains, now, time);
    forall i | 0 <= i < |chains| - 1 ensures Sub(r[i + 1], r[i]) {
      assert Sub(chains[i + 1], chains[i]) && Level(next[i], chains[i], time);
      SubCut(chains[i + 1], chains[i], now, time);
    }
  }

  /** The loop has cut the levels from `i` on. The levels that became empty are on top. */
  ghost predicate CutOff(next: seq<Links>, chains: seq<seq<int>>, depth: nat, depth0: nat, i: nat, now: int,
                         time: map<int, int>) {
    var later := Later(chains, now, time);
    && |chains| == MAX_SKIPLIST_DEPTH && i <= depth0 <= |chains| && Deep(chains, depth0) && Nested(chains)
    && Nested(later)
    && Levels(next, Mixed(chains, later, i), time)
    && (forall j :: i <= j < |chains| ==> Ends(next[j], chains[j][..UpTo(chains[j], now, time)]))
    && i <= depth <= depth0 && (forall j :: i <= j < |chains| ==> (later[j] != [] <==> j < depth))
  }

  lemma CutStart(chains: seq<seq<int>>, next: seq<Links>, depth: nat, now: int, time: map<int, int>)
    requires Levels(next, chains, time) && Nested(chains) && Deep(chains, depth)
    ensures CutOff(next, chains, depth, depth, depth, now, time)
  {
    hide Nested, Level, UpTo, Later, Mixed, Ends;
    LaterFacts(chains, next, depth, now, time);
    var later := Later(chains, now, time);
    forall j | depth <= j < |chains|
      ensures chains[j] == [] && later[j] == [] && Ends(next[j], chains[j][..UpTo(chains[j], now, time)])
    {
      LaterEmpty(chains, now, time, j, next[j]);
    }
    MixedSame(chains, later, depth);
  }

  lemma LaterEmpty(chains: seq<seq<int>>, now: int, time: map<int, int>, j: nat, m: Links)
    requires j < |chains| && chains[j] == []
    ensures Later(chains, now, time)[j] == [] && Ends(m, chains[j][..UpTo(chains[j], now, time)])
  {
  }

  lemma MixedSame(old0: seq<seq<int>>, new0: seq<seq<int>>, l: nat)
    requires l <= |old0| == |new0| && forall j :: l <= j < |old0| ==> old0[j] == new0[j]
    ensures Mixed(old0, new0, l) == old0
  {
  }

  lemma LevelCut(m: Links, s: seq<int>, now: int, time: map<int, int>)
    requires Level(m, s, time)
    ensures var k := UpTo(s, now, time);
      var y := NodeAt(s, k);
      && y in m && m[y] == Follower(s, k)
      && (y == HEAD <==> k == 0) && (k == 0 ==> Level(m, s[k..], time) && Ends(m, s[..k]))
      && (k > 0 ==> Level(m[HEAD := m[y]][y := NIL], s[k..], time) && Ends(m[HEAD := m[y]][y := NIL], s[..k]))
  {
    var k := UpTo(s, now, time);
    assert NodeAt(s, k) in m && m[NodeAt(s, k)] == Follower(s, k);
    if k > 0 {
      ChainCut(m, s, k);
    } else {
      assert s[k..] == s;
    }
  }

  lemma CutStep(next: seq<Links>, next0: seq<Links>, chains: seq<seq<int>>, depth: nat, depth0: nat, i: nat, y: int,
                now: int, time: map<int, int>)
    requires CutOff(next, chains, depth, depth0, i + 1, now, time) && i < depth0
    requires |next| == |next0| == MAX_SKIPLIST_DEPTH && next[i] == next0[i]
    requires i < |chains| && y == NodeAt(chains[i], UpTo(chains[i], now, time))
    ensures y in next[i]
    ensures y == HEAD ==> CutOff(next, chains, depth, depth0, i, now, time)
    ensures y != HEAD ==> var m := next[i][HEAD := next[i][y]][y := NIL];
      && (next[i][y] == NIL ==> depth > 0)
      && CutOff(next[i := m], chains, if next[i][y] == NIL then depth - 1 else depth, depth0, i, now, time)
  {
    hide Level, UpTo, Sub, NodeAt;
    var later := Later(chains, now, time);
    var was, mixed := Mixed(chains, later, i + 1), Mixed(chains, later, i);
    assert was[i] == chains[i] && Level(next[i], was[i], time);
    LevelCut(next[i], chains[i], now, time);
    assert mixed == was[i := later[i]];
    CutDepth(chains, later, depth, i, now, time, next[i]);
  }

  /** Whether a level becomes empty, and what that says about the levels above. */
  lemma CutDepth(chains: seq<seq<int>>, later: seq<seq<int>>, depth: nat, i: nat, now: int, time: map<int, int>,
                 m: Links)
    requires i < |chains| && later == Later(chains, now, time) && Nested(later) && Level(m, chains[i], time)
    requires chains[i] != []
    requires i + 1 <= depth <= |chains| && forall j :: i + 1 <= j < |chains| ==> (later[j] != [] <==> j < depth)
    ensures later[i] == [] <==> UpTo(chains[i], now, time) == |chains[i]|
    ensures later[i] == [] <==> Follower(chains[i], UpTo(chains[i], now, time)) == NIL
    ensures later[i] == [] ==> depth == i + 1 && NodeAt(chains[i], UpTo(chains[i], now, time)) != HEAD
  {
    if i + 1 < |chains| {
      assert Sub(later[i + 1], later[i]);
    }
  }

  lemma CutEnd(next: seq<Links>, chains: seq<seq<int>>, depth: nat, depth0: nat, now: int, time: map<int, int>)
    requires CutOff(next, chains, depth, depth0, 0, now, time)
    ensures Levels(next, Later(chains, now, time), time) && Deep(Later(chains, now, time), depth)
    ensures forall j :: 0 <= j < |chains| ==> j < |next| && Ends(next[j], chains[j][..UpTo(chains[j], now, time)])
  {
    hide Sub, UpTo;
    MixedEnd(chains, Later(chains, now, time));
  }

  class TimerList {
    var next: seq<Links>
    var depth: nat
    var time: map<int, int>
    /** pending_head.time64: when the first timer is due, or 0. */
    var headTime: int
    ghost var chains: seq<seq<int>>

    ghost predicate Valid()
      reads this
    {
      && Levels(next, chains, time) && Nested(chains) && Deep(chains, depth)
      && headTime == if chains[0] == [] then 0 else TimeOf(time, chains[0][0])
    }

    constructor ()
      ensures Valid() && chains[0] == []
    {
      next := seq(MAX_SKIPLIST_DEPTH, i => map[HEAD := NIL]);
      chains := seq(MAX_SKIPLIST_DEPTH, i => []);
      depth, time, headTime := 0, map[], 0;
    }

    lemma At(i: nat)
      requires Levels(next, chains, time) && i < MAX_SKIPLIST_DEPTH
      ensures |next| == |chains| == MAX_SKIPLIST_DEPTH && Level(next[i], chains[i], time)
    {
    }

    lemma Link(i: nat, k: nat)
      requires Levels(next, chains, time) && i < MAX_SKIPLIST_DEPTH && k <= |chains[i]|
      ensures NodeAt(chains[i], k) in next[i] && next[i][NodeAt(chains[i], k)] == Follower(chains[i], k)
      ensures k < |chains[i]| ==> chains[i][k] > 0
    {
      assert Level(next[i], chains[i], time);
    }

    /** The inner loop of timer_get_prev_entries on one level. */
    method Walk(lvl: nat, start: int, t: int, ghost k0: nat) returns (x: int)
      requires Levels(next, chains, time) && lvl < MAX_SKIPLIST_DEPTH
      requires k0 <= |chains[lvl]| && start == NodeAt(chains[lvl], k0)
      requires (k0 > 0 ==> TimeOf(time, chains[lvl][k0 - 1]) <= t)
      ensures x == NodeAt(chains[lvl], UpTo(chains[lvl], t, time))
    {
      hide Levels, Level, TimeOf;
      At(lvl);
      SortedLevel(next[lvl], chains[lvl], time);
      ghost var s, k := chains[lvl], k0;
      Link(lvl, k);
      x := start;
      while next[lvl][x] != NIL && TimeOf(time, next[lvl][x]) <= t
        invariant k <= |s| && x == NodeAt(s, k) && (k > 0 ==> TimeOf(time, s[k - 1]) <= t)
        invariant x in next[lvl] && next[lvl][x] == Follower(s, k)
        decreases |s| - k
      {
        k := k + 1;
        Link(lvl, k);
        x := next[lvl][x];
      }
      if k < |s| {
        Link(lvl, k);
      }
      UpToUnique(s, t, time, k);
    }

    /** timer_get_prev_entries: on each level the last node due by `t`. */
    method GetPrevEntries(t: int) returns (prev: seq<int>)
      requires Levels(next, chains, time) && Nested(chains) && Deep(chains, depth)
      ensures Entries(prev, 0, depth, chains, t, time)
    {
      hide Sub, Nested, Deep, Levels, UpTo, Entries, NodeAt;
      prev := NoEntries(depth, chains, t, time) by { Sizes(); }
      var lvl: nat := depth;
      while lvl != 0
        invariant lvl <= depth && Entries(prev, lvl, depth, chains, t, time)
      {
        lvl := lvl - 1;
        EntryAt(prev, lvl + 1, depth, chains, t, time);
        ghost var k := Below(lvl, t);
        var x := Walk(lvl, prev[lvl + 1], t, k);
        MoreEntries(prev, lvl, depth, chains, t, time, x);
        prev := prev[lvl := x];
      }
    }

    lemma Sizes()
      requires Levels(next, chains, time) && Deep(chains, depth)
      ensures |next| == |chains| == MAX_SKIPLIST_DEPTH && depth <= MAX_SKIPLIST_DEPTH
    {
    }

    /** Where the walk on level `lvl` starts. */
    lemma Below(lvl: nat, t: int) returns (k: nat)
      requires Levels(next, chains, time) && Nested(chains) && Deep(chains, depth) && lvl < depth
      ensures k <= |chains[lvl]| && (k > 0 ==> TimeOf(time, chains[lvl][k - 1]) <= t)
      ensures NodeAt(chains[lvl], k) ==
        if lvl + 1 < depth then NodeAt(chains[lvl + 1], UpTo(chains[lvl + 1], t, time)) else HEAD
    {
      At(lvl);
      if lvl + 1 < depth {
        assert Sub(chains[lvl + 1], chains[lvl]);
        k := LevelDown(chains[lvl + 1], chains[lvl], t, time);
      } else {
        k := 0;
      }
    }

    /** The random choice `r` limited to one level above the current ones. */
    method ChooseLevel(r: nat) returns (lvl: nat)
      requires depth <= MAX_SKIPLIST_DEPTH
      ensures lvl == LevelFor(r, depth)
    {
      lvl := r;
      if lvl > depth {
        lvl := depth;
      }
      if lvl >= MAX_SKIPLIST_DEPTH {
        lvl := MAX_SKIPLIST_DEPTH - 1;
      }
    }

    /** The loop of timer_skiplist_add: links the timer in on the levels up to `lvl`. */
    method LinkIn(x: int, lvl: nat, prev: seq<int>)
      requires Levels(next, chains, time) && Nested(chains) && Deep(chains, depth)
      requires Entries(prev, 0, depth, chains, TimeOf(time, x), time)
      requires lvl <= depth && lvl < MAX_SKIPLIST_DEPTH && x > 0 && x !in chains[0]
      modifies this`next
      ensures Levels(next, Added(chains, x, lvl, time), time)
    {
      hide Levels, Deep, Entries, Nested, Added, UpTo, NodeAt, Mixed;
      Sizes();
      ghost var added := Added(chains, x, lvl, time);
      MixedStart(chains, x, lvl, time);
      var l: nat := lvl + 1;
      while l > 0
        invariant l <= lvl + 1 && Levels(next, Mixed(chains, added, l), time)
      {
        l := l - 1;
        LinkFacts(next, chains, x, lvl, l, depth, prev, time);
        next := next[l := next[l][x := next[l][prev[l]]][prev[l] := x]];
      }
      MixedEnd(chains, added);
    }

    /** timer_skiplist_add, for every outcome `r` of the random choice. */
    method Add(x: int, t: int, r: nat)
      requires Valid() && x > 0 && x !in chains[0]
      modifies this
      ensures Valid() && time == old(time)[x := t]
      ensures chains[0] == Insert(old(chains[0]), UpTo(old(chains[0]), t, time), x)
      ensures chains == Added(old(chains), x, LevelFor(r, old(depth)), time)
    {
      hide Levels, Nested, Deep, Added, Entries, UpTo, Insert;
      SetTime(x, t);
      Sizes();
      var prev := GetPrevEntries(t);
      var lvl := ChooseLevel(r);
      AddedFacts(chains, x, lvl, time, depth, next);
      LinkIn(x, lvl, prev);
      chains := Added(chains, x, lvl, time);
      if lvl == depth {
        depth := depth + 1;
      }
      Sizes();
      Link(0, 0);
      headTime := TimeOf(time, next[0][HEAD]);
    }

    /** The caller writes the field time64 of a timer that is not in the list. */
    method SetTime(x: int, t: int)
      requires Valid() && x !in chains[0]
      modifies this`time
      ensures Valid() && time == old(time)[x := t]
    {
      hide Nested, Deep, Sub;
      forall i | 0 <= i < MAX_SKIPLIST_DEPTH ensures Level(next[i], chains[i], time[x := t]) {
        NotAbove(chains, i, x);
        assert Level(next[i], chains[i], time);
      }
      time := time[x := t];
    }

    /** The loop of timer_get_prev_entries_for_node on one level. */
    method WalkTo(lvl: nat, start: int, x: int, ghost k0: nat) returns (y: int, ghost k: nat)
      requires Levels(next, chains, time) && lvl < MAX_SKIPLIST_DEPTH && x > 0
      requires k0 <= |chains[lvl]| && start == NodeAt(chains[lvl], k0)
      ensures k0 <= k <= |chains[lvl]| && y == NodeAt(chains[lvl], k)
      ensures forall j :: k0 <= j < k ==> chains[lvl][j] != x
      ensures k < |chains[lvl]| ==> chains[lvl][k] == x || TimeOf(time, chains[lvl][k]) > TimeOf(time, x)
    {
      hide Levels, Level, TimeOf;
      At(lvl);
      ghost var s := chains[lvl];
      k := k0;
      Link(lvl, k);
      y := start;
      while next[lvl][y] != NIL && next[lvl][y] != x && TimeOf(time, next[lvl][y]) <= TimeOf(time, x)
        invariant k0 <= k <= |s| && y == NodeAt(s, k) && (forall j :: k0 <= j < k ==> s[j] != x)
        invariant y in next[lvl] && next[lvl][y] == Follower(s, k) && (k < |s| ==> s[k] > 0)
        decreases |s| - k
      {
        k := k + 1;
        Link(lvl, k);
        y := next[lvl][y];
      }
    }

    /** timer_get_prev_entries_for_node. With a time of 0 the search for earlier times wraps around and ends
        behind every timer. */
    method GetPrevEntriesForNode(x: int) returns (prev: seq<int>)
      requires Levels(next, chains, time) && Nested(chains) && Deep(chains, depth) && Times(chains, time) && x > 0
      ensures Around(prev, 0, next, chains, depth, x, TimeOf(time, x) > 0)
    {
      hide Levels, Nested, Deep, Entries, UpTo, Around, NodeAt, Times;
      Sizes();
      var t := TimeOf(time, x);
      var earlier := if t == 0 then MAX64 else t - 1;
      ghost var old0: seq<int>;
      prev := GetPrevEntries(earlier);
      old0 := prev;
      var i: nat := depth;
      AroundStart(prev, next, chains, depth, earlier, time, x, t > 0);
      while i > 0
        invariant i <= depth && Around(prev, i, next, chains, depth, x, t > 0)
        invariant |prev| == |old0| && Entries(old0, 0, depth, chains, earlier, time)
        invariant forall j :: 0 <= j < i && j < |prev| ==> prev[j] == old0[j]
      {
        i := i - 1;
        EntryOf(old0, i, depth, chains, earlier, time);
        At(i);
        ghost var k;
        var y;
        y, k := WalkTo(i, prev[i], x, UpTo(chains[i], earlier, time));
        InDeep(chains, depth, i);
        FoundPlace(next[i], chains[i], x, earlier, k, time, i, chains);
        AroundStep(prev, i, next, chains, depth, x, t > 0, y);
        prev := prev[i := y];
      }
    }

    /** The first loop of timer_skiplist_remove. */
    method Unlink(x: int, prev: seq<int>, ghost found: bool)
      requires Levels(next, chains, time) && Deep(chains, depth) && Around(prev, 0, next, chains, depth, x, found)
      requires x > 0
      modifies this`next
      ensures Levels(next, Removed(chains, x, found), time) && (!found ==> next == old(next))
    {
      hide Levels, Deep, Around, Removed, Mixed;
      Sizes();
      ghost var removed, next0 := Removed(chains, x, found), next;
      RemovedStart(chains, x, found, depth);
      var i: nat := depth;
      while i > 0
        invariant i <= depth && Levels(next, Mixed(chains, removed, i), time) && (!found ==> next == next0)
        invariant |next| == |next0| && forall j :: 0 <= j < i ==> next[j] == next0[j]
      {
        i := i - 1;
        UnlinkFacts(next, next0, chains, x, i, depth, prev, found, time);
        if next[i][prev[i]] == x {
          next := next[i := next[i][prev[i] := next[i][x]]];
        }
      }
      MixedEnd(chains, removed);
    }

    /** The second loop: levels that have become empty are not used any more. */
    method LowerDepth()
      requires Levels(next, chains, time) && Nested(chains) && depth <= MAX_SKIPLIST_DEPTH
      requires forall i :: depth <= i < |chains| ==> chains[i] == []
      modifies this`depth
      ensures Deep(chains, depth)
    {
      hide Levels, Nested;
      while depth > 0
        invariant depth <= MAX_SKIPLIST_DEPTH && forall i :: depth <= i < |chains| ==> chains[i] == []
      {
        At(depth - 1);
        Link(depth - 1, 0);
        if next[depth - 1][HEAD] != NIL {
          break;
        }
        depth := depth - 1;
      }
      if depth > 0 {
        At(depth - 1);
        Link(depth - 1, 0);
        forall i | 0 <= i < depth ensures chains[i] != [] {
          UsedBelow(chains, depth - 1, i);
        }
      }
    }

    /** The cached head time when timer `x` of `s` is about to be removed. */
    ghost function NewHeadTime(s: seq<int>, time: map<int, int>, x: int, was: int): int
      requires s != []
    {
      if s[0] != x then was else if |s| == 1 then 0 else TimeOf(time, s[1])
    }

    /** timer_skiplist_remove. A timer whose time is 0 is not found: it stays, and if it is the first one
        the cached head time becomes that of the second, so the list is right only if that is 0 as well. */
    method Remove(x: int)
      requires Valid() && Times(chains, time) && x in chains[0]
      modifies this
      ensures time == old(time)
      ensures TimeOf(time, x) > 0 ==>
        Valid() && chains == Removed(old(chains), x, true) && chains[0] == Without(old(chains[0]), x)
      ensures TimeOf(time, x) == 0 ==> chains == old(chains) && next == old(next) && depth == old(depth)
      ensures TimeOf(time, x) == 0 ==> chains[0] != [] && headTime == NewHeadTime(chains[0], time, x, old(headTime))
      ensures TimeOf(time, x) == 0 ==>
        (Valid() <==> chains[0][0] != x || |chains[0]| == 1 || TimeOf(time, chains[0][1]) == 0)
    {
      hide Nested, Deep, Levels, Removed, Around, Times, Without;
      At(0) by { Sizes(); }
      Sizes();
      Link(0, 0);
      TimerAt(next[0], chains[0], time, x);
      RemovedFacts(chains, x, depth, next, time);
      ghost var found := TimeOf(time, x) > 0;
      if x == next[0][HEAD] {
        Link(0, 1);
        headTime := if next[0][x] == NIL then 0 else TimeOf(time, next[0][x]);
      }
      var prev := GetPrevEntriesForNode(x);
      Unlink(x, prev, found);
      if found {
        chains := Removed(chains, x, true);
        LevelSizes(next, chains, time);
      } else {
        RemovedNot(chains, x);
        Unused(chains, depth);
      }
      LowerDepth();
      if !found {
        SameDepth(chains, depth, old(depth));
      }
    }

    /** The split of timer_skiplist_manage: the timers due by `now` are cut off on every level. */
    method SplitExpired(now: int) returns (first: int)
      requires Valid() && chains[0] != [] && TimeOf(time, chains[0][0]) <= now
      modifies this
      ensures Valid() && time == old(time) && chains == Later(old(chains), now, time)
      ensures first == old(chains)[0][0]
      ensures forall i :: 0 <= i < MAX_SKIPLIST_DEPTH ==>
        Ends(next[i], old(chains)[i][..UpTo(old(chains)[i], now, time)])
    {
      hide Nested, Deep, Levels, Entries, Later, UpTo, Ends, CutOff;
      Sizes();
      At(0);
      Link(0, 0);
      first := next[0][HEAD];
      var prev := GetPrevEntries(now);
      LaterFacts(chains, next, depth, now, time);
      CutLevels(now, prev);
      chains := Later(chains, now, time);
      LevelSizes(next, chains, time);
      At(0);
      Link(0, 0);
      headTime := if next[0][HEAD] == NIL then 0 else TimeOf(time, next[0][HEAD]);
    }

    /** Its loop over the levels. */
    method CutLevels(now: int, prev: seq<int>)
      requires Levels(next, chains, time) && Nested(chains) && Deep(chains, depth)
      requires Entries(prev, 0, depth, chains, now, time)
      modifies this`next, this`depth
      ensures Levels(next, Later(chains, now, time), time) && Deep(Later(chains, now, time), depth)
      ensures |next| == |chains| == MAX_SKIPLIST_DEPTH
      ensures forall i :: 0 <= i < MAX_SKIPLIST_DEPTH ==> Ends(next[i], chains[i][..UpTo(chains[i], now, time)])
    {
      hide Levels, Deep, Entries, Later, UpTo, CutOff, NodeAt, Nested;
      Sizes();
      ghost var depth0, next0 := depth, next;
      CutStart(chains, next, depth, now, time);
      var i: nat := depth;
      while i > 0
        invariant i <= depth0 && CutOff(next, chains, depth, depth0, i, now, time)
        invariant |next| == |next0| == MAX_SKIPLIST_DEPTH
        invariant forall j :: 0 <= j < i && j < |next| ==> next[j] == next0[j]
      {
        i := i - 1;
        EntryOf(prev, i, depth0, chains, now, time);
        CutStep(next, next0, chains, depth, depth0, i, prev[i], now, time);
        if prev[i] != HEAD {
          ghost var before := next;
          var rest := next[i][prev[i]];
          next := next[i := next[i][HEAD := rest]];
          if rest == NIL {
            depth := depth - 1;
          }
          next := next[i := next[i][prev[i] := NIL]];
          assert next == before[i := before[i][HEAD := rest][prev[i] := NIL]];
        }
      }
      CutEnd(next, chains, depth, depth0, now, time);
    }
  }
}
