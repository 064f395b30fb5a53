/** `rballoc.c` and `rballoc.h`: per-thread caches of memory blocks in front of one shared cache.
    A block is its identity; all blocks here have the native size. */
module BlockCache {
  import opened Rings

  function Min(a: int, b: int): int {
    if a < b then a else b
  }

  function Max(a: int, b: int): int {
    if a < b then b else a
  }

  // ---- what filling and halving do to the cached blocks

  /** How many blocks rb_alloc_fill moves into a local cache that holds `n` of `cap`. */
  function FillCount(n: nat, cap: nat, shared: nat): (k: nat)
    ensures k <= shared
  {
    Min(Max(0, cap / 2 - n), shared)
  }

  /** How many blocks rb_alloc_halve moves to a shared cache with room for `room`. */
  function ShareCount(n: nat, cap: nat, room: nat): (k: nat)
    ensures k <= n
  {
    Min(Max(0, n - cap / 2), room)
  }

  /** How many it frees afterwards. */
  function FreeCount(n: nat, cap: nat): (k: nat)
    ensures k <= n
  {
    Max(0, n - cap / 2)
  }

  // ---- the code on the rings

  ghost predicate Separate(loc: RingBuffer, glob: RingBuffer) {
    loc != glob && loc.buf != glob.buf
  }

  /** rb_alloc_local_size. */
  method Size(loc: RingBuffer) returns (n: nat)
    requires RingOk(loc.View())
    ensures n == |Contents(loc.View())|
  {
    if loc.end >= loc.start {
      n := loc.end - loc.start;
    } else {
      n := loc.buf.Length + loc.end - loc.start;
    }
  }

  /** The oldest item of one ring goes to the end of another. */
  method MoveOne(from: RingBuffer, to: RingBuffer)
    requires Separate(from, to) && RingOk(from.View()) && RingOk(to.View()) && !Empty(from.View()) && !Full(to.View())
    modifies from, from.buf, to, to.buf
    ensures RingOk(from.View()) && RingOk(to.View()) && |old(Contents(from.View()))| > 0
    ensures Contents(from.View()) == old(Contents(from.View()))[1..]
    ensures Contents(to.View()) == old(Contents(to.View())) + [old(Contents(from.View()))[0]]
  {
    hide Contents, Full, Put, Take, Empty;
    var x := from.Remove();
    to.Append(x);
  }

  /** rb_alloc_fill. */
  method Fill(loc: RingBuffer, glob: RingBuffer)
    requires Separate(loc, glob) && RingOk(loc.View()) && RingOk(glob.View())
    modifies loc, loc.buf, glob, glob.buf
    ensures RingOk(loc.View()) && RingOk(glob.View())
    ensures var l, g := old(Contents(loc.View())), old(Contents(glob.View()));
      var k := FillCount(|l|, loc.buf.Length, |g|);
      Contents(loc.View()) == l + g[..k] && Contents(glob.View()) == g[k..]
    ensures var n, n', half := |old(Contents(loc.View()))|, |Contents(loc.View())|, loc.buf.Length / 2;
      && (n >= half ==> n' == n) && (n < half ==> n' <= half)
      && (n' < half ==> Contents(glob.View()) == [])
  {
    hide Contents, Full, Put, Take, Empty;
    ghost var l, g, k := Contents(loc.View()), Contents(glob.View()), 0;
    var cap := loc.buf.Length;
    while true
      invariant RingOk(loc.View()) && RingOk(glob.View())
      invariant k <= |g| && Contents(loc.View()) == l + g[..k] && Contents(glob.View()) == g[k..]
      invariant k <= FillCount(|l|, cap, |g|)
      decreases |g| - k
    {
      var n := Size(loc);
      var empty := glob.IsEmpty();
      EmptyIff(glob.View());
      FullIff(loc.View());
      if n >= cap / 2 || empty {
        break;
      }
      MoveOne(glob, loc);
      assert l + g[..k] + [g[k]] == l + g[..k + 1];
      k := k + 1;
    }
    FillCountMeans(|l|, cap, |g|);
  }

  /** Filling stops at half the capacity, and before that only when the shared cache is empty. */
  lemma FillCountMeans(n: nat, cap: nat, shared: nat)
    ensures var k := FillCount(n, cap, shared);
      && (n >= cap / 2 ==> k == 0) && (n < cap / 2 ==> n + k <= cap / 2)
      && (n + k < cap / 2 ==> k == shared)
  {
  }

  /** Sharing stops at half the capacity, and before that only when the shared cache is full. */
  lemma ShareCountMeans(n: nat, cap: nat, room: nat)
    ensures var k := ShareCount(n, cap, room);
      && k <= room && (n <= cap / 2 ==> k == 0) && (n > cap / 2 ==> n - k >= cap / 2)
      && (n - k > cap / 2 ==> k == room)
  {
  }

  /** Trimming leaves half the capacity, or what was there if that is less. */
  lemma FreeCountMeans(n: nat, cap: nat)
    ensures n - FreeCount(n, cap) == if n > cap / 2 then cap / 2 else n
  {
  }

  lemma NextOf(g: seq<Item>, k: nat, x: Item, rest: seq<Item>)
    requires k <= |g| && g[k..] == [x] + rest
    ensures k < |g| && g[k] == x && rest == g[k + 1..]
  {
    assert g[k..][0] == x;
    assert g[k..][1..] == rest;
  }

  /** The locked part of rb_alloc_halve. */
  method Share(loc: RingBuffer, glob: RingBuffer)
    requires Separate(loc, glob) && RingOk(loc.View()) && RingOk(glob.View())
    modifies loc, loc.buf, glob, glob.buf
    ensures RingOk(loc.View()) && RingOk(glob.View())
    ensures var l, g := old(Contents(loc.View())), old(Contents(glob.View()));
      |g| < glob.buf.Length &&
      var k := ShareCount(|l|, loc.buf.Length, glob.buf.Length - 1 - |g|);
      Contents(loc.View()) == l[k..] && Contents(glob.View()) == g + l[..k]
    ensures var n, n', half := |old(Contents(loc.View()))|, |Contents(loc.View())|, loc.buf.Length / 2;
      && (n <= half ==> n' == n) && (n > half ==> n' >= half)
      && (n' > half ==> |Contents(glob.View())| == glob.buf.Length - 1)
  {
    hide Contents, Full, Put, Take, Empty;
    ghost var l, g, k := Contents(loc.View()), Contents(glob.View()), 0;
    ContentsFit(glob.View());
    var cap := loc.buf.Length;
    while true
      invariant RingOk(loc.View()) && RingOk(glob.View())
      invariant k <= |l| && Contents(loc.View()) == l[k..] && Contents(glob.View()) == g + l[..k]
      invariant k <= ShareCount(|l|, cap, glob.buf.Length - 1 - |g|)
      decreases |l| - k
    {
      var n := Size(loc);
      var full := glob.IsFull();
      EmptyIff(loc.View());
      FullIff(glob.View());
      if n <= cap / 2 || full {
        break;
      }
      MoveOne(loc, glob);
      assert g + l[..k] + [l[k]] == g + l[..k + 1];
      k := k + 1;
    }
    ShareCountMeans(|l|, cap, glob.buf.Length - 1 - |g|);
  }

  lemma ContentsFit(r: Ring)
    requires RingOk(r)
    ensures |Contents(r)| < |r.buf|
  {
  }

  /** The rest of rb_alloc_halve: what the shared cache had no room for is freed. */
  method Trim(loc: RingBuffer) returns (freed: seq<Item>)
    requires RingOk(loc.View())
    modifies loc, loc.buf
    ensures RingOk(loc.View())
    ensures var l := old(Contents(loc.View()));
      var k := FreeCount(|l|, loc.buf.Length);
      freed == l[..k] && Contents(loc.View()) == l[k..]
    ensures var n, half := |old(Contents(loc.View()))|, loc.buf.Length / 2;
      |Contents(loc.View())| == if n > half then half else n
  {
    hide Contents, Full, Put, Take, Empty;
    ghost var l, k := Contents(loc.View()), 0;
    var cap := loc.buf.Length;
    freed := [];
    while true
      invariant RingOk(loc.View()) && k <= |l| && freed == l[..k] && Contents(loc.View()) == l[k..]
      invariant k <= FreeCount(|l|, cap)
      decreases |l| - k
    {
      var n := Size(loc);
      EmptyIff(loc.View());
      if n <= cap / 2 {
        break;
      }
      var x := loc.Remove();
      assert l[k..] == [x] + l[k + 1..] by { NextOf(l, k, x, Contents(loc.View())); }
      assert l[..k] + [x] == l[..k + 1];
      freed := freed + [x];
      k := k + 1;
    }
    FreeCountMeans(|l|, cap);
  }

  /** rb_alloc_mt for the native size. `spare` is what malloc would answer; it is asked exactly when both
      caches are empty, or the local one is too small to be filled. */
  method Alloc(loc: RingBuffer, glob: RingBuffer, spare: Item) returns (b: Item, made: bool)
    requires Separate(loc, glob) && RingOk(loc.View()) && RingOk(glob.View())
    modifies loc, loc.buf, glob, glob.buf
    ensures RingOk(loc.View()) && RingOk(glob.View())
    ensures var l, g := old(Contents(loc.View())), old(Contents(glob.View()));
      var k := if l == [] then FillCount(0, loc.buf.Length, |g|) else 0;
      var l' := l + g[..k];
      && Contents(glob.View()) == g[k..] && (made <==> l' == [])
      && if made then b == spare && Contents(loc.View()) == [] else b == l'[0] && Contents(loc.View()) == l'[1..]
    ensures var l, g := old(Contents(loc.View())), old(Contents(glob.View()));
      && (made <==> l == [] && (g == [] || loc.buf.Length == 1))
      && (!made ==> b == (l + g)[0])
  {
    hide Contents, Full, Put, Take, Empty;
    ghost var l, g := Contents(loc.View()), Contents(glob.View());
    EmptyIff(loc.View());
    var empty := loc.IsEmpty();
    if empty {
      Fill(loc, glob);
    } else {
      assert g[..0] == [] && g[0..] == g && l + [] == l;
    }
    ghost var l' := Contents(loc.View());
    EmptyIff(loc.View());
    empty := loc.IsEmpty();
    if !empty {
      made := false;
      b := loc.Remove();
      NextOf(l', 0, b, Contents(loc.View()));
      assert l'[0..] == l';
    } else {
      made, b := true, spare;
    }
    FillCountMeans(0, loc.buf.Length, |g|);
  }

  /** How many blocks a free moves to the shared cache, how many it gives back to the system, and what
      stays in a local cache with the blocks `l`: nothing happens unless that cache is full. */
  ghost function Moves(l: seq<Item>, cap: nat, room: nat): (k: nat)
    ensures k <= |l|
  {
    if |l| == cap - 1 then ShareCount(|l|, cap, room) else 0
  }

  ghost function Drops(l: seq<Item>, cap: nat, room: nat): (d: nat)
    ensures d <= |l| - Moves(l, cap, room)
  {
    if |l| == cap - 1 then FreeCount(|l| - Moves(l, cap, room), cap) else 0
  }

  ghost function Stays(l: seq<Item>, cap: nat, room: nat): seq<Item> {
    l[Moves(l, cap, room)..][Drops(l, cap, room)..]
  }

  /** rb_alloc_halve, if the local cache is full. */
  method HalveIfFull(loc: RingBuffer, glob: RingBuffer) returns (freed: seq<Item>)
    requires Separate(loc, glob) && RingOk(loc.View()) && RingOk(glob.View())
    modifies loc, loc.buf, glob, glob.buf
    ensures RingOk(loc.View()) && RingOk(glob.View())
    ensures var l, g := old(Contents(loc.View())), old(Contents(glob.View()));
      |g| < glob.buf.Length &&
      var cap, room := loc.buf.Length, glob.buf.Length - 1 - |g|;
      && Contents(glob.View()) == g + l[..Moves(l, cap, room)]
      && freed == l[Moves(l, cap, room)..][..Drops(l, cap, room)]
      && Contents(loc.View()) == Stays(l, cap, room)
    ensures var n, cap := |old(Contents(loc.View()))|, loc.buf.Length;
      && |Contents(loc.View())| == (if n == cap - 1 then cap / 2 else n)
      && (freed != [] ==> |Contents(glob.View())| == glob.buf.Length - 1)
  {
    hide Contents, Put, Take, Empty, Full, ShareCount, FreeCount;
    ghost var l, g := Contents(loc.View()), Contents(glob.View());
    ContentsFit(glob.View());
    FullIff(loc.View());
    freed := [];
    var full := loc.IsFull();
    if full {
      Share(loc, glob);
      freed := Trim(loc);
    } else {
      assert l[..0] == [] && l[0..] == l && g + [] == g;
    }
  }

  /** rb_free_mt for a block of the native size. If halving a full cache made no room, the push makes the
      cache look empty. */
  method Free(loc: RingBuffer, glob: RingBuffer, b: Item) returns (freed: seq<Item>)
    requires Separate(loc, glob) && RingOk(loc.View()) && RingOk(glob.View())
    modifies loc, loc.buf, glob, glob.buf
    ensures RingOk(loc.View()) && RingOk(glob.View())
    ensures var l, g := old(Contents(loc.View())), old(Contents(glob.View()));
      |g| < glob.buf.Length &&
      var cap, room := loc.buf.Length, glob.buf.Length - 1 - |g|;
      && Contents(glob.View()) == g + l[..Moves(l, cap, room)]
      && freed == l[Moves(l, cap, room)..][..Drops(l, cap, room)]
      && Contents(loc.View()) == (if |Stays(l, cap, room)| < cap - 1 then Stays(l, cap, room) + [b] else [])
      && (cap >= 3 ==> Contents(loc.View()) == Stays(l, cap, room) + [b])
    ensures var n, cap := |old(Contents(loc.View()))|, loc.buf.Length;
      && (cap >= 3 ==> |Contents(loc.View())| == (if n == cap - 1 then cap / 2 else n) + 1)
      && (freed != [] ==> |Contents(glob.View())| == glob.buf.Length - 1)
  {
    hide Contents, Put, Take, Empty, Full, Moves, Drops, Stays;
    ghost var l, g := Contents(loc.View()), Contents(glob.View());
    ContentsFit(loc.View());
    ContentsFit(glob.View());
    RoomLeft(l, loc.buf.Length, glob.buf.Length - 1 - |g|);
    freed := HalveIfFull(loc, glob);
    FullIff(loc.View());
    ContentsFit(loc.View());
    loc.Append(b);
  }

  /** With a capacity of at least 3 there is always room for the block. */
  lemma RoomLeft(l: seq<Item>, cap: nat, room: nat)
    requires |l| < cap
    ensures cap >= 3 ==> |Stays(l, cap, room)| < cap - 1
  {
  }

  /** What stays of a full cache after halving. */
  function Halved(cap: nat, room: nat): int
    requires cap > 0
  {
    var n := cap - 1;
    var k := ShareCount(n, cap, room);
    n - k - FreeCount(n - k, cap)
  }

  /** Halving a full cache makes room exactly when its capacity is at least 3. */
  lemma HalvingMakesRoom(cap: nat, room: nat)
    requires cap > 0
    ensures Halved(cap, room) == cap / 2 && (Halved(cap, room) < cap - 1 <==> cap >= 3)
  {
  }

  // ---- several threads

  /** Where a thread is in rb_alloc_mt or rb_free_mt, and which block it carries. */
  datatype Pc = Ready | Filled | Freeing(b: Item) | Shared(b: Item, halved: bool)

  /** `out` are the blocks handed out, `freed` those given back to the system, `made` all that malloc
      ever returned. */
  datatype State = State(
    caps: seq<nat>, locals: seq<seq<Item>>, pcs: seq<Pc>,
    sharedCap: nat, shared: seq<Item>,
    out: set<Item>, freed: seq<Item>, made: set<Item>)

  ghost predicate Sized(s: State) {
    && |s.locals| == |s.pcs| == |s.caps| && |s.shared| < s.sharedCap
    && forall i :: 0 <= i < |s.locals| ==> 3 <= s.caps[i] && |s.locals[i]| < s.caps[i]
  }

  /** Thread `i` has the cached blocks `l` and is at `p`. */
  function Goto(s: State, i: nat, l: seq<Item>, p: Pc): State
    requires i < |s.locals| && i < |s.pcs|
  {
    s.(locals := s.locals[i := l], pcs := s.pcs[i := p])
  }

  /** rb_alloc_mt up to the end of rb_alloc_fill. */
  function Filling(s: State, i: nat): State
    requires i < |s.locals| == |s.pcs| == |s.caps|
  {
    var l := s.locals[i];
    var k := if l == [] then FillCount(0, s.caps[i], |s.shared|) else 0;
    Goto(s, i, l + s.shared[..k], Filled).(shared := s.shared[k..])
  }

  /** The rest of rb_alloc_mt when there is a cached block. */
  function Popping(s: State, i: nat): State
    requires i < |s.locals| == |s.pcs| && s.locals[i] != []
  {
    var l := s.locals[i];
    Goto(s, i, l[1..], Ready).(out := s.out + {l[0]})
  }

  /** The rest of rb_alloc_mt when malloc returns the block `b`. */
  function Making(s: State, i: nat, b: Item): State
    requires i < |s.locals| == |s.pcs|
  {
    Goto(s, i, s.locals[i], Ready).(out := s.out + {b}, made := s.made + {b})
  }

  /** A call of rb_free_mt for the block `b`. */
  function Returning(s: State, i: nat, b: Item): State
    requires i < |s.locals| == |s.pcs|
  {
    Goto(s, i, s.locals[i], Freeing(b)).(out := s.out - {b})
  }

  /** The locked part of rb_alloc_halve, if the cache is full. */
  function Sharing(s: State, i: nat, b: Item): State
    requires Sized(s) && i < |s.locals|
  {
    var l, cap := s.locals[i], s.caps[i];
    var full := |l| == cap - 1;
    var k := if full then ShareCount(|l|, cap, s.sharedCap - 1 - |s.shared|) else 0;
    Goto(s, i, l[k..], Shared(b, full)).(shared := s.shared + l[..k])
  }

  /** The rest of rb_alloc_halve, and the push of the block. */
  function Pushing(s: State, i: nat, b: Item, halved: bool): State
    requires Sized(s) && i < |s.locals|
  {
    var l := s.locals[i];
    var d := if halved then FreeCount(|l|, s.caps[i]) else 0;
    Goto(s, i, l[d..] + [b], Ready).(freed := s.freed + l[..d])
  }

  /** One step of thread `i`. Each takes the lock of the shared cache at most once, or touches only the
      thread's own cache. */
  ghost predicate Step(s: State, s': State, i: nat)
    requires Sized(s) && i < |s.locals|
  {
    match s.pcs[i]
    case Ready => s' == Filling(s, i) || exists b :: b in s.out && s' == Returning(s, i, b)
    case Filled =>
      if s.locals[i] != [] then s' == Popping(s, i)
      else s' == Goto(s, i, s.locals[i], Ready) || exists b :: b !in s.made && s' == Making(s, i, b)
    case Freeing(b) => s' == Sharing(s, i, b)
    case Shared(b, halved) => s' == Pushing(s, i, b, halved)
  }

  /** A thread asks malloc only if both its own cache and the shared one were empty when it looked. */
  lemma MallocOnlyWhenEmpty(s: State, i: nat)
    requires Sized(s) && i < |s.locals|
    ensures Filling(s, i).locals[i] == [] <==> s.locals[i] == [] && s.shared == []
  {
    FillCountMeans(0, s.caps[i], |s.shared|);
  }

  /** The lock is the only thing that threads wait for: a thread can always go on, with any block that is
      handed out or that malloc may give it. */
  lemma ThreadCanStep(s: State, i: nat, b: Item)
    requires Sized(s) && i < |s.locals|
    ensures s.pcs[i].Ready? ==> Step(s, Filling(s, i), i) && (b in s.out ==> Step(s, Returning(s, i, b), i))
    ensures s.pcs[i].Filled? && s.locals[i] != [] ==> Step(s, Popping(s, i), i)
    ensures s.pcs[i].Filled? && s.locals[i] == [] ==>
      Step(s, Goto(s, i, [], Ready), i) && (b !in s.made ==> Step(s, Making(s, i, b), i))
    ensures s.pcs[i].Freeing? ==> Step(s, Sharing(s, i, s.pcs[i].b), i)
    ensures s.pcs[i].Shared? ==> Step(s, Pushing(s, i, s.pcs[i].b, s.pcs[i].halved), i)
  {
  }

  /** A thread gives blocks back to the system only if it has just filled the shared cache, and it keeps
      half of a full cache besides the block. */
  lemma FreedOnlyWhenFull(s: State, i: nat, b: Item)
    requires Sized(s) && i < |s.locals|
    ensures var s1 := Sharing(s, i, b);
      Sized(s1) &&
      var s2 := Pushing(s1, i, b, |s.locals[i]| == s.caps[i] - 1);
      && (s2.freed != s.freed ==> |s1.shared| == s.sharedCap - 1)
      && |s2.locals[i]| == (if |s.locals[i]| == s.caps[i] - 1 then s.caps[i] / 2 else |s.locals[i]|) + 1
  {
    ShareCountMeans(|s.locals[i]|, s.caps[i], s.sharedCap - 1 - |s.shared|);
    FreeCountMeans(|Sharing(s, i, b).locals[i]|, s.caps[i]);
  }

  // ---- conservation

  ghost function Count(s: seq<Item>, b: Item): nat {
    if s == [] then 0 else (if s[0] == b then 1 else 0) + Count(s[1..], b)
  }

  ghost function CountAll(ls: seq<seq<Item>>, b: Item): nat {
    if ls == [] then 0 else Count(ls[0], b) + CountAll(ls[1..], b)
  }

  function Hand(p: Pc): seq<Item> {
    if p.Freeing? || p.Shared? then [p.b] else []
  }

  ghost function Hands(pcs: seq<Pc>): seq<seq<Item>> {
    seq(|pcs|, i requires 0 <= i < |pcs| => Hand(pcs[i]))
  }

  /** How often a block is in the local caches, in the shared cache, handed out, freed, and on its way
      back, all together. */
  ghost function Total(s: State, b: Item): nat {
    CountAll(s.locals, b) + Count(s.shared, b) + (if b in s.out then 1 else 0) + Count(s.freed, b) +
      CountAll(Hands(s.pcs), b)
  }

  lemma {:induction false} CountConcat(x: seq<Item>, y: seq<Item>, b: Item)
    ensures Count(x + y, b) == Count(x, b) + Count(y, b)
  {
    if x == [] {
      assert x + y == y;
    } else {
      assert (x + y)[1..] == x[1..] + y;
      CountConcat(x[1..], y, b);
    }
  }

  lemma CountCut(l: seq<Item>, k: nat, b: Item)
    requires k <= |l|
    ensures Count(l, b) == Count(l[..k], b) + Count(l[k..], b)
  {
    assert l == l[..k] + l[k..];
    CountConcat(l[..k], l[k..], b);
  }

  lemma CountOne(x: Item, b: Item)
    ensures Count([x], b) == if x == b then 1 else 0
  {
  }

  lemma {:induction false} CountPut(ls: seq<seq<Item>>, i: nat, x: seq<Item>, b: Item)
    requires i < |ls|
    ensures CountAll(ls[i := x], b) + Count(ls[i], b) == CountAll(ls, b) + Count(x, b)
    decreases ls
  {
    if i > 0 {
      CountPut(ls[1..], i - 1, x, b);
      assert ls[i := x][1..] == ls[1..][i - 1 := x];
    } else {
      assert ls[i := x][1..] == ls[1..];
    }
  }

  lemma GotoTotal(s: State, i: nat, l: seq<Item>, p: Pc, b: Item)
    requires i < |s.locals| == |s.pcs|
    ensures Total(Goto(s, i, l, p), b) + Count(s.locals[i], b) + Count(Hand(s.pcs[i]), b) ==
      Total(s, b) + Count(l, b) + Count(Hand(p), b)
  {
    hide Count, CountAll, Hand;
    CountPut(s.locals, i, l, b);
    assert Hands(s.pcs[i := p]) == Hands(s.pcs)[i := Hand(p)];
    CountPut(Hands(s.pcs), i, Hand(p), b);
  }

  /** A thread about to push has room for its block. */
  ghost predicate HasRoom(s: State) {
    && Sized(s)
    && forall i :: 0 <= i < |s.pcs| && s.pcs[i].Shared? && !s.pcs[i].halved ==> |s.locals[i]| < s.caps[i] - 1
  }

  /** Every block that was ever made is in exactly one place. */
  ghost predicate Inv(s: State) {
    HasRoom(s) && forall b :: Total(s, b) == if b in s.made then 1 else 0
  }

  lemma StepKeepsRoom(s: State, s': State, i: nat)
    requires HasRoom(s) && i < |s.locals| && Step(s, s', i)
    ensures HasRoom(s')
  {
  }

  lemma FillingTotal(s: State, i: nat, b: Item)
    requires Sized(s) && i < |s.locals| && s.pcs[i].Ready?
    ensures Total(Filling(s, i), b) == Total(s, b)
  {
    hide Count, CountAll, Hands;
    var l := s.locals[i];
    var k := if l == [] then FillCount(0, s.caps[i], |s.shared|) else 0;
    GotoTotal(s, i, l + s.shared[..k], Filled, b);
    CountConcat(l, s.shared[..k], b);
    CountCut(s.shared, k, b);
  }

  lemma PoppingTotal(s: State, i: nat, b: Item)
    requires Sized(s) && i < |s.locals| && s.pcs[i].Filled? && s.locals[i] != [] && s.locals[i][0] !in s.out
    ensures Total(Popping(s, i), b) == Total(s, b)
  {
    hide Count, CountAll, Hands;
    var l := s.locals[i];
    GotoTotal(s, i, l[1..], Ready, b);
    CountCut(l, 1, b);
    assert l[..1] == [l[0]];
    CountOne(l[0], b);
  }

  lemma SharingTotal(s: State, i: nat, b: Item)
    requires Sized(s) && i < |s.locals| && s.pcs[i].Freeing?
    ensures Total(Sharing(s, i, s.pcs[i].b), b) == Total(s, b)
  {
    hide Count, CountAll, Hands;
    var l, cap := s.locals[i], s.caps[i];
    var full := |l| == cap - 1;
    var k := if full then ShareCount(|l|, cap, s.sharedCap - 1 - |s.shared|) else 0;
    GotoTotal(s, i, l[k..], Shared(s.pcs[i].b, full), b);
    CountCut(l, k, b);
    CountConcat(s.shared, l[..k], b);
  }

  lemma PushingTotal(s: State, i: nat, b: Item)
    requires Sized(s) && i < |s.locals| && s.pcs[i].Shared?
    ensures Total(Pushing(s, i, s.pcs[i].b, s.pcs[i].halved), b) == Total(s, b)
  {
    hide Count, CountAll, Hands;
    var l, p := s.locals[i], s.pcs[i];
    var d := if p.halved then FreeCount(|l|, s.caps[i]) else 0;
    GotoTotal(s, i, l[d..] + [p.b], Ready, b);
    CountCut(l, d, b);
    CountConcat(l[d..], [p.b], b);
    CountConcat(s.freed, l[..d], b);
    assert Hand(p) == [p.b] && Hand(Ready) == [];
    NoneOf(b);
  }

  lemma NoneOf(b: Item)
    ensures Count([], b) == 0
  {
  }

  lemma {:induction false} CountAllHas(ls: seq<seq<Item>>, i: nat, b: Item)
    requires i < |ls|
    ensures Count(ls[i], b) <= CountAll(ls, b)
    decreases ls
  {
    if i > 0 {
      CountAllHas(ls[1..], i - 1, b);
    }
  }

  /** A cached block is not handed out. */
  lemma CachedNotOut(s: State, i: nat)
    requires Inv(s) && i < |s.locals| && s.locals[i] != []
    ensures s.locals[i][0] !in s.out
  {
    var b := s.locals[i][0];
    CountAllHas(s.locals, i, b);
    assert Count(s.locals[i], b) >= 1;
    assert Total(s, b) <= 1;
  }

  /** A step loses no block and makes none twice. */
  lemma StepKeepsInv(s: State, s': State, i: nat)
    requires Inv(s) && i < |s.locals| && Step(s, s', i)
    ensures Inv(s')
  {
    StepKeepsRoom(s, s', i);
    if s.pcs[i].Filled? && s.locals[i] != [] {
      CachedNotOut(s, i);
    }
    forall b: Item ensures Total(s', b) == if b in s'.made then 1 else 0 {
      StepTotal(s, s', i, b);
    }
  }

  lemma StepTotal(s: State, s': State, i: nat, b: Item)
    requires Inv(s) && i < |s.locals| && Step(s, s', i)
    requires s.pcs[i].Filled? && s.locals[i] != [] ==> s.locals[i][0] !in s.out
    ensures Total(s', b) == if b in s'.made then 1 else 0
  {
    hide Count, CountAll, Hands;
    assert Total(s, b) == if b in s.made then 1 else 0;
    match s.pcs[i]
    case Freeing(_) => SharingTotal(s, i, b);
    case Shared(_, _) => PushingTotal(s, i, b);
    case Ready =>
      if s' == Filling(s, i) {
        FillingTotal(s, i, b);
      } else {
        var x :| x in s.out && s' == Returning(s, i, x);
        GotoTotal(s, i, s.locals[i], Freeing(x), b);
        CountOne(x, b);
        NoneOf(b);
      }
    case Filled =>
      if s.locals[i] != [] {
        PoppingTotal(s, i, b);
      } else {
        GotoTotal(s, i, s.locals[i], Ready, b);
        NoneOf(b);
        if s' != Goto(s, i, s.locals[i], Ready) {
          var x :| x !in s.made && s' == Making(s, i, x);
          assert Total(s, x) == 0;
        }
      }
  }

  // ---- runs

  ghost predicate Init(s: State) {
    && Sized(s) && s.shared == [] && s.out == {} && s.freed == [] && s.made == {}
    && forall i :: 0 <= i < |s.locals| ==> s.locals[i] == [] && s.pcs[i] == Ready
  }

  ghost predicate Run(states: seq<State>, who: seq<nat>) {
    && |states| == |who| + 1 && Init(states[0])
    && forall i :: 0 <= i < |who| ==>
      Sized(states[i]) && who[i] < |states[i].locals| && Step(states[i], states[i + 1], who[i])
  }

  lemma {:induction false} NothingYet(ls: seq<seq<Item>>, b: Item)
    requires forall i :: 0 <= i < |ls| ==> ls[i] == []
    ensures CountAll(ls, b) == 0
  {
    if ls != [] {
      NothingYet(ls[1..], b);
    }
  }

  lemma InitInv(s: State)
    requires Init(s)
    ensures Inv(s)
  {
    forall b: Item ensures Total(s, b) == 0 {
      NothingYet(s.locals, b);
      NothingYet(Hands(s.pcs), b);
    }
  }

  lemma {:induction false} RunKeepsInv(states: seq<State>, who: seq<nat>, i: nat)
    requires Run(states, who) && i < |states|
    ensures Inv(states[i])
  {
    hide Inv, Step, Init;
    if i == 0 {
      InitInv(states[0]);
    } else {
      RunKeepsInv(states, who, i - 1);
      StepKeepsInv(states[i - 1], states[i], who[i - 1]);
    }
  }

  /** After any interleaving every block made is in exactly one place, no other block is anywhere, and no
      cache is fuller than its ring allows. */
  lemma Conservation(states: seq<State>, who: seq<nat>, i: nat, b: Item)
    requires Run(states, who) && i < |states|
    ensures Sized(states[i]) && Total(states[i], b) == if b in states[i].made then 1 else 0
  {
    RunKeepsInv(states, who, i);
  }
}
