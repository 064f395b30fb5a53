/** `timerlinkwheel.c` and `timerlinkwheel.h`: a wheel of timer heaps. */
module TimerWheel {
  import opened IntrusiveTree
  import opened TimerHeap

  // ---- slots

  /** The division of C, which rounds toward zero. */
  function CDiv(a: int, b: int): int
    requires b > 0
  {
    if a >= 0 then a / b else -((-a) / b)
  }

  /** Whole ticks from `next` to `t`; none for a time that has passed. */
  function Ticks(next: int, gran: int, t: int): nat
    requires gran > 0
  {
    var diff := CDiv(t - next, gran);
    if diff < 0 then 0 else diff
  }

  function SlotOf(cur: nat, size: nat, gran: int, next: int, t: int): nat
    requires size > 0 && gran > 0
  {
    (cur + Ticks(next, gran, t)) % size
  }

  function Advance(cur: nat, size: nat): nat {
    if cur + 1 >= size then 0 else cur + 1
  }

  lemma MulAtLeast(k: int, n: int)
    requires k >= 1 && n > 0
    ensures k * n >= n
  {
  }

  lemma DivUnique(x: int, n: int, q: int, r: int)
    requires n > 0 && x == q * n + r && 0 <= r < n
    ensures x / n == q && x % n == r
  {
    var q', r' := x / n, x % n;
    assert x == q' * n + r';
    assert (q' - q) * n == q' * n - q * n;
    assert (q - q') * n == q * n - q' * n;
    if q < q' {
      MulAtLeast(q' - q, n);
    } else if q' < q {
      MulAtLeast(q - q', n);
    }
  }

  lemma OneLess(a: int, b: int)
    requires b > 0
    ensures (a - b) / b == a / b - 1 && (a - b) % b == a % b
  {
    var q, r := a / b, a % b;
    assert a == q * b + r;
    assert (q - 1) * b == q * b - b;
    DivUnique(a - b, b, q - 1, r);
  }

  lemma DivSign(a: int, b: int)
    requires b > 0 && a >= 0
    ensures a / b >= 0 && (a < b ==> a / b == 0 && a % b == a) && (a >= b ==> a / b >= 1)
  {
    if a < b {
      DivUnique(a, b, 0, a);
    } else {
      DivSign(a - b, b);
      OneLess(a, b);
    }
  }

  lemma TicksPassed(next: int, gran: int, t: int)
    requires gran > 0
    ensures t < next + gran ==> Ticks(next, gran, t) == 0
    ensures next + gran <= t ==> Ticks(next, gran, t) > 0 && Ticks(next + gran, gran, t) == Ticks(next, gran, t) - 1
  {
    if t < next {
      DivSign(next - t, gran);
    } else {
      DivSign(t - next, gran);
      OneLess(t - next, gran);
    }
  }

  lemma AdvanceOne(a: nat, d: nat, n: nat)
    requires a < n && d > 0
    ensures (Advance(a, n) + (d - 1)) % n == (a + d) % n
  {
    OneLess(a + d, n);
  }

  /** A timer that is not due in this tick keeps its slot when the wheel turns. */
  lemma TurnKeepsSlot(cur: nat, size: nat, gran: int, next: int, t: int)
    requires cur < size && gran > 0 && next + gran <= t
    ensures SlotOf(Advance(cur, size), size, gran, next + gran, t) == SlotOf(cur, size, gran, next, t)
  {
    hide Ticks, Advance;
    TicksPassed(next, gran, t);
    AdvanceOne(cur, Ticks(next, gran, t), size);
  }

  /** A timer that is due in this tick, or was before, is in the current slot. */
  lemma DueIsHere(cur: nat, size: nat, gran: int, next: int, t: int)
    requires cur < size && gran > 0 && t < next + gran
    ensures SlotOf(cur, size, gran, next, t) == cur
  {
    hide Ticks;
    TicksPassed(next, gran, t);
    DivSign(cur, size);
  }

  /** Every stored timer is in the slot that its time asks for, and knows it. The time of `but` may
      have changed. */
  ghost predicate PlacedBut(but: Node?, held: seq<set<Node>>, idx: map<Node, int>, time: Times, cur: nat, gran: int,
                            next: int)
    requires gran > 0
  {
    forall i, x :: 0 <= i < |held| && x in held[i] ==>
      x in idx && idx[x] == i && (x != but ==> InSlot(i, x, idx, time, cur, |held|, gran, next))
  }

  ghost predicate Placed(held: seq<set<Node>>, idx: map<Node, int>, time: Times, cur: nat, gran: int, next: int)
    requires gran > 0
  {
    forall i, x :: 0 <= i < |held| && x in held[i] ==> InSlot(i, x, idx, time, cur, |held|, gran, next)
  }

  ghost predicate InSlot(i: int, x: Node, idx: map<Node, int>, time: Times, cur: nat, size: nat, gran: int, next: int)
    requires gran > 0 && size > 0
  {
    x in idx && idx[x] == i && x in time && SlotOf(cur, size, gran, next, time[x]) == i
  }

  lemma TurnInSlot(i: int, x: Node, idx: map<Node, int>, time: Times, cur: nat, size: nat, gran: int, next: int)
    requires gran > 0 && cur < size && InSlot(i, x, idx, time, cur, size, gran, next)
    requires (i == cur ==> next + gran <= TimeOf(time, x))
    ensures InSlot(i, x, idx, time, Advance(cur, size), size, gran, next + gran) && next + gran <= TimeOf(time, x)
  {
    hide SlotOf, Advance;
    if next + gran <= time[x] {
      TurnKeepsSlot(cur, size, gran, next, time[x]);
    } else {
      DueIsHere(cur, size, gran, next, time[x]);
    }
  }

  lemma TurnPlaced(held: seq<set<Node>>, idx: map<Node, int>, time: Times, cur: nat, gran: int, next: int)
    requires gran > 0 && cur < |held| && Placed(held, idx, time, cur, gran, next)
    requires forall x :: x in held[cur] ==> next + gran <= TimeOf(time, x)
    ensures Placed(held, idx, time, Advance(cur, |held|), gran, next + gran)
    ensures AllFrom(held, time, next + gran)
  {
    hide InSlot;
    forall i, x | 0 <= i < |held| && x in held[i]
      ensures InSlot(i, x, idx, time, Advance(cur, |held|), |held|, gran, next + gran)
    {
      assert i == cur ==> next + gran <= TimeOf(time, x);
      TurnInSlot(i, x, idx, time, cur, |held|, gran, next);
    }
    forall i, x | 0 <= i < |held| && x in held[i]
      ensures next + gran <= TimeOf(time, x)
    {
      assert i == cur ==> next + gran <= TimeOf(time, x);
      TurnInSlot(i, x, idx, time, cur, |held|, gran, next);
    }
  }

  /** A due timer that is first in the current slot is first of all. */
  lemma FirstDue(held: seq<set<Node>>, idx: map<Node, int>, time: Times, cur: nat, gran: int, next: int, link: Node)
    requires gran > 0 && cur < |held| && Placed(held, idx, time, cur, gran, next)
    requires TimeOf(time, link) < next + gran && forall x :: x in held[cur] ==> TimeOf(time, link) <= TimeOf(time, x)
    ensures forall x :: x in Union(held) ==> TimeOf(time, link) <= TimeOf(time, x)
  {
    hide SlotOf;
    forall x | x in Union(held) ensures TimeOf(time, link) <= TimeOf(time, x) {
      var i :| 0 <= i < |held| && x in held[i];
      assert InSlot(i, x, idx, time, cur, |held|, gran, next);
      if time[x] < next + gran {
        DueIsHere(cur, |held|, gran, next, time[x]);
      }
    }
  }

  ghost predicate AllFrom(held: seq<set<Node>>, time: Times, from: int) {
    forall i, x :: 0 <= i < |held| && x in held[i] ==> from <= TimeOf(time, x)
  }

  /** All stored timers. */
  ghost function Union(held: seq<set<Node>>): set<Node> {
    set i, x | 0 <= i < |held| && x in held[i] :: x
  }

  ghost predicate Separate(held: seq<set<Node>>) {
    forall i, j :: 0 <= i < j < |held| ==> held[i] !! held[j]
  }

  lemma UnionAdd(held: seq<set<Node>>, k: nat, x: Node)
    requires k < |held|
    ensures Union(held[k := held[k] + {x}]) == Union(held) + {x}
  {
    var held' := held[k := held[k] + {x}];
    assert x in held'[k];
    forall y | y in Union(held) ensures y in Union(held') {
      var i :| 0 <= i < |held| && y in held[i];
      assert y in held'[i];
    }
  }

  lemma UnionRemove(held: seq<set<Node>>, k: nat, x: Node)
    requires k < |held| && x in held[k] && Separate(held)
    ensures Union(held[k := held[k] - {x}]) == Union(held) - {x}
  {
    var held' := held[k := held[k] - {x}];
    forall y | y in Union(held) && y != x ensures y in Union(held') {
      var i :| 0 <= i < |held| && y in held[i];
      assert y in held'[i];
    }
  }

  lemma UnionHolds(held: seq<set<Node>>, k: nat)
    requires k < |held|
    ensures held[k] <= Union(held)
  {
  }

  lemma UnionHas(held: seq<set<Node>>, k: nat, x: Node)
    requires k < |held| && x !in Union(held)
    ensures x !in held[k]
  {
  }

  ghost predicate Free(x: Node, held: seq<set<Node>>) {
    forall i :: 0 <= i < |held| ==> x !in held[i]
  }

  lemma NotInUnion(x: Node, held: seq<set<Node>>)
    requires x !in Union(held)
    ensures Free(x, held)
  {
  }

  lemma InUnionOrFree(x: Node, held: seq<set<Node>>)
    ensures x !in Union(held) <==> Free(x, held)
  {
  }

  lemma SameTimes(time: Times, x: Node)
    requires x in time
    ensures time[x := time[x]] == time
  {
  }

  lemma PlacedAll(but: Node, held: seq<set<Node>>, idx: map<Node, int>, time: Times, cur: nat, gran: int, next: int)
    requires gran > 0 && PlacedBut(but, held, idx, time, cur, gran, next) && Free(but, held)
    ensures Placed(held, idx, time, cur, gran, next)
  {
    hide InSlot;
    forall i, x | 0 <= i < |held| && x in held[i] ensures InSlot(i, x, idx, time, cur, |held|, gran, next) {
    }
  }

  /** A stored timer remembers its slot. */
  method SlotOfStored(ghost held: seq<set<Node>>, idx: map<Node, int>, ghost time: Times, ghost cur: nat,
                      ghost gran: int, ghost next: int, x: Node)
    returns (k: nat)
    requires gran > 0 && PlacedBut(x, held, idx, time, cur, gran, next) && x in Union(held)
    ensures k < |held| && x in held[k]
  {
    ghost var i :| 0 <= i < |held| && x in held[i];
    k := idx[x];
  }

  lemma PlacedNone(but: Node, held: seq<set<Node>>, idx: map<Node, int>, time: Times, cur: nat, gran: int, next: int)
    requires gran > 0 && Placed(held, idx, time, cur, gran, next)
    ensures PlacedBut(but, held, idx, time, cur, gran, next)
    ensures forall i :: 0 <= i < |held| && but in held[i] ==> but in time
  {
    hide SlotOf;
    forall i, x | 0 <= i < |held| && x in held[i]
      ensures x in idx && idx[x] == i && (x != but ==> InSlot(i, x, idx, time, cur, |held|, gran, next)) && x in time
    {
      assert InSlot(i, x, idx, time, cur, |held|, gran, next);
    }
  }

  lemma RemoveFacts(held: seq<set<Node>>, idx: map<Node, int>, time: Times, cur: nat, gran: int, next: int, k: nat,
                    x: Node)
    requires gran > 0 && k < |held| && x in held[k] && Separate(held) && PlacedBut(x, held, idx, time, cur, gran, next)
    ensures Placed(held[k := held[k] - {x}], idx, time, cur, gran, next)
    ensures Union(held[k := held[k] - {x}]) == Union(held) - {x} && x in Union(held)
    ensures |Union(held) - {x}| < |Union(held)|
  {
    hide PlacedBut, Placed;
    PlacedRemove(held, idx, time, cur, gran, next, k, x);
    UnionRemove(held, k, x);
    CardRemove(Union(held), x);
  }

  lemma CardAdd(s: set<Node>, x: Node)
    ensures x !in s ==> |s + {x}| == |s| + 1
  {
  }

  lemma CardRemove(s: set<Node>, x: Node)
    ensures x in s ==> |s - {x}| == |s| - 1
  {
  }

  lemma UnionSize(held: seq<set<Node>>, k: nat)
    requires k < |held|
    ensures |held[k]| <= |Union(held)|
  {
    Smaller(held[k], Union(held));
  }

  lemma {:induction false} Smaller(a: set<Node>, b: set<Node>)
    requires a <= b
    ensures |a| <= |b|
  {
    if a != {} {
      var x :| x in a;
      Smaller(a - {x}, b - {x});
    }
  }

  lemma SlotInRange(cur: nat, size: nat, gran: int, next: int, t: int)
    requires gran > 0 && size > 0
    ensures SlotOf(cur, size, gran, next, t) < size
  {
  }

  lemma PlacedAdd(held: seq<set<Node>>, idx: map<Node, int>, time: Times, cur: nat, gran: int, next: int, x: Node,
                  t: int)
    requires gran > 0 && |held| > 0 && Placed(held, idx, time, cur, gran, next) && x !in Union(held)
    ensures var k := SlotOf(cur, |held|, gran, next, t);
      k < |held| && Placed(held[k := held[k] + {x}], idx[x := k], time[x := t], cur, gran, next)
  {
    var k := SlotOf(cur, |held|, gran, next, t);
    SlotInRange(cur, |held|, gran, next, t);
    hide SlotOf;
    var held' := held[k := held[k] + {x}];
    forall i, y | 0 <= i < |held'| && y in held'[i]
      ensures InSlot(i, y, idx[x := k], time[x := t], cur, |held'|, gran, next)
    {
      UnionHas(held, i, x);
      if y != x {
        assert y in held[i];
        assert InSlot(i, y, idx, time, cur, |held|, gran, next);
      }
    }
  }

  lemma InsertFacts(held: seq<set<Node>>, idx: map<Node, int>, time: Times, cur: nat, gran: int, next: int, x: Node)
    requires gran > 0 && |held| > 0 && Placed(held, idx, time, cur, gran, next) && x !in Union(held) && x in time
    ensures var k := SlotOf(cur, |held|, gran, next, time[x]);
      && k < |held| && Free(x, held) && |held[k]| <= |Union(held)|
      && Placed(held[k := held[k] + {x}], idx[x := k], time, cur, gran, next)
      && Union(held[k := held[k] + {x}]) == Union(held) + {x} && |Union(held) + {x}| == |Union(held)| + 1
  {
    hide Union, Placed, SlotOf, Free;
    var k := SlotOf(cur, |held|, gran, next, time[x]);
    PlacedAdd(held, idx, time, cur, gran, next, x, time[x]);
    SameTimes(time, x);
    UnionAdd(held, k, x);
    UnionSize(held, k);
    NotInUnion(x, held);
    CardAdd(Union(held), x);
  }

  lemma PlacedRemove(held: seq<set<Node>>, idx: map<Node, int>, time: Times, cur: nat, gran: int, next: int, k: nat,
                     x: Node)
    requires gran > 0 && k < |held| && PlacedBut(x, held, idx, time, cur, gran, next) && x in held[k]
    ensures Placed(held[k := held[k] - {x}], idx, time, cur, gran, next)
  {
    hide InSlot;
    var held' := held[k := held[k] - {x}];
    forall i, y | 0 <= i < |held'| && y in held'[i] ensures InSlot(i, y, idx, time, cur, |held'|, gran, next) {
      assert y in held[i];
    }
  }

  lemma PlacedRetimed(held: seq<set<Node>>, idx: map<Node, int>, time: Times, cur: nat, gran: int, next: int, x: Node,
                      t: int)
    requires gran > 0 && Placed(held, idx, time, cur, gran, next)
    ensures PlacedBut(x, held, idx, time[x := t], cur, gran, next)
  {
    hide SlotOf;
    forall i, y | 0 <= i < |held| && y in held[i]
      ensures y in idx && idx[y] == i && (y != x ==> InSlot(i, y, idx, time[x := t], cur, |held|, gran, next))
    {
      assert InSlot(i, y, idx, time, cur, |held|, gran, next);
    }
  }

  // ---- callbacks

  /** What a callback may do to the wheel: add a timer that is not stored, remove a stored one, or change
      the time of a stored one. */
  datatype Act = Start(timer: Node, at: int) | Stop(timer: Node) | Change(timer: Node, at: int)

  /** A callback is told which timer fired in which tick, and knows which timers are stored. */
  type Script = (Node, int, set<Node>) -> seq<Act>

  /** The timers that are stored after an act, or after several. */
  function StoredAfter(a: Act, s: set<Node>): set<Node> {
    match a
    case Start(x, _) => s + {x}
    case Stop(x) => s - {x}
    case Change(_, _) => s
  }

  function TimesAfter(a: Act, time: Times): Times {
    match a
    case Start(x, t) => time[x := t]
    case Stop(_) => time
    case Change(x, t) => time[x := t]
  }

  ghost function StoredAll(acts: seq<Act>, s: set<Node>): set<Node> {
    if acts == [] then s else StoredAfter(acts[|acts| - 1], StoredAll(acts[..|acts| - 1], s))
  }

  ghost function TimesAll(acts: seq<Act>, time: Times): Times {
    if acts == [] then time else TimesAfter(acts[|acts| - 1], TimesAll(acts[..|acts| - 1], time))
  }

  lemma ActsSnoc(acts: seq<Act>, i: nat, s: set<Node>, time: Times)
    requires i < |acts|
    ensures StoredAll(acts[..i + 1], s) == StoredAfter(acts[i], StoredAll(acts[..i], s))
    ensures TimesAll(acts[..i + 1], time) == TimesAfter(acts[i], TimesAll(acts[..i], time))
  {
    assert acts[..i + 1][..i] == acts[..i];
  }

  /** An act is about timers of the program, is one that the wheel's interface allows, and asks for no
      time before `limit`. */
  ghost predicate LegalOne(a: Act, s: set<Node>, pool: set<Node>, limit: int) {
    && a.timer in pool
    && (a.Start? <==> a.timer !in s)
    && (a.Stop? || limit <= a.at)
  }

  ghost predicate Legal(acts: seq<Act>, s: set<Node>, pool: set<Node>, limit: int) {
    forall i :: 0 <= i < |acts| ==> LegalOne(acts[i], StoredAll(acts[..i], s), pool, limit)
  }

  /** The callbacks of the timers of `pool` act legally and only for later ticks. */
  ghost predicate Sane(script: Script, pool: set<Node>, gran: int) {
    forall x, now, s :: x in pool && s <= pool && x !in s ==> Legal(script(x, now, s), s, pool, now + gran)
  }

  // ---- firing

  /** The timers that are due before `limit`. */
  ghost function Soon(s: set<Node>, time: Times, limit: int): set<Node> {
    set x | x in s && TimeOf(time, x) < limit
  }

  lemma ActSoon(a: Act, s: set<Node>, time: Times, pool: set<Node>, limit: int)
    requires LegalOne(a, s, pool, limit) && s <= pool
    ensures StoredAfter(a, s) <= pool
    ensures Soon(StoredAfter(a, s), TimesAfter(a, time), limit) <= Soon(s, time, limit)
  {
  }

  lemma SoonShrinks(s: set<Node>, time: Times, x: Node, limit: int)
    requires x in s && TimeOf(time, x) < limit
    ensures Soon(s - {x}, time, limit) < Soon(s, time, limit)
  {
    assert x in Soon(s, time, limit) && x !in Soon(s - {x}, time, limit);
  }

  /** Timer `timer` with time `t` fired in the tick that began at `tick`, and its callback did `acts`. */
  datatype Event = Event(timer: Node, t: int, tick: int, acts: seq<Act>)

  /** The timers that are stored after the events, and their times. */
  ghost function Left(all: set<Node>, fired: seq<Event>): set<Node> {
    if fired == [] then all
    else
      var e := fired[|fired| - 1];
      StoredAll(e.acts, Left(all, fired[..|fired| - 1]) - {e.timer})
  }

  ghost function TimesLeft(time: Times, fired: seq<Event>): Times {
    if fired == [] then time else TimesAll(fired[|fired| - 1].acts, TimesLeft(time, fired[..|fired| - 1]))
  }

  /** The timer was stored and due, no stored timer was due earlier, and its callback was run. */
  ghost predicate Fires(e: Event, s: set<Node>, time: Times, script: Script, gran: int) {
    && e.timer in s && e.t == TimeOf(time, e.timer) < e.tick + gran
    && (forall x :: x in s ==> e.t <= TimeOf(time, x))
    && e.acts == script(e.timer, e.tick, s - {e.timer})
  }

  /** The events up to `limit` and their callbacks, one after the other, explain what is stored. */
  ghost predicate Story(all0: set<Node>, time0: Times, all: set<Node>, time: Times, fired: seq<Event>,
                        script: Script, gran: int, limit: int) {
    && all == Left(all0, fired) && time == TimesLeft(time0, fired)
    && forall i :: 0 <= i < |fired| ==>
         && Fires(fired[i], Left(all0, fired[..i]), TimesLeft(time0, fired[..i]), script, gran)
         && fired[i].tick <= limit
  }

  lemma StoryBegins(all: set<Node>, time: Times, script: Script, gran: int, limit: int)
    ensures Story(all, time, all, time, [], script, gran, limit)
  {
  }

  lemma StoryStep(all0: set<Node>, time0: Times, all: set<Node>, time: Times, fired: seq<Event>,
                  script: Script, gran: int, limit: int, e: Event)
    requires Story(all0, time0, all, time, fired, script, gran, limit)
    requires Fires(e, all, time, script, gran) && e.tick <= limit
    ensures Story(all0, time0, StoredAll(e.acts, all - {e.timer}), TimesAll(e.acts, time),
                  fired + [e], script, gran, limit)
  {
    hide StoredAll, TimesAll, Fires;
    var fired' := fired + [e];
    assert fired'[..|fired|] == fired;
    forall i | 0 <= i < |fired'|
      ensures Fires(fired'[i], Left(all0, fired'[..i]), TimesLeft(time0, fired'[..i]), script, gran)
      ensures fired'[i].tick <= limit
    {
      if i < |fired| {
        assert fired'[..i] == fired[..i] && fired'[i] == fired[i];
      }
    }
  }

  /** No timer of `s` is due before `t`. */
  ghost predicate NoneBefore(s: set<Node>, time: Times, t: int) {
    forall x :: x in s ==> t <= TimeOf(time, x)
  }

  lemma {:induction false} ActsNoneBefore(acts: seq<Act>, s: set<Node>, time: Times, pool: set<Node>,
                                          limit: int, t: int)
    requires Legal(acts, s, pool, limit) && s <= pool && NoneBefore(s, time, t) && t <= limit
    ensures StoredAll(acts, s) <= pool && NoneBefore(StoredAll(acts, s), TimesAll(acts, time), t)
  {
    if acts != [] {
      var n := |acts| - 1;
      assert Legal(acts[..n], s, pool, limit) by {
        forall i | 0 <= i < n ensures LegalOne(acts[..n][i], StoredAll(acts[..n][..i], s), pool, limit) {
          assert acts[..n][..i] == acts[..i] && acts[..n][i] == acts[i];
        }
      }
      ActsNoneBefore(acts[..n], s, time, pool, limit, t);
      assert LegalOne(acts[n], StoredAll(acts[..n], s), pool, limit);
    }
  }

  /** After an event no timer is due before a time at or before that of the event. */
  lemma EventNoneBefore(e: Event, s: set<Node>, time: Times, script: Script, gran: int, pool: set<Node>, t: int)
    requires Fires(e, s, time, script, gran) && Sane(script, pool, gran) && s <= pool && t <= e.t
    ensures StoredAll(e.acts, s - {e.timer}) <= pool
    ensures NoneBefore(StoredAll(e.acts, s - {e.timer}), TimesAll(e.acts, time), t)
  {
    hide StoredAll, TimesAll, Legal;
    assert Legal(e.acts, s - {e.timer}, pool, e.tick + gran);
    ActsNoneBefore(e.acts, s - {e.timer}, time, pool, e.tick + gran, t);
  }

  lemma FiresFirst(e: Event, s: set<Node>, time: Times, script: Script, gran: int, t: int)
    requires Fires(e, s, time, script, gran) && NoneBefore(s, time, t)
    ensures t <= e.t
  {
  }

  lemma LeftSnoc(all: set<Node>, time: Times, fired: seq<Event>, j: nat)
    requires j < |fired|
    ensures Left(all, fired[..j + 1]) == StoredAll(fired[j].acts, Left(all, fired[..j]) - {fired[j].timer})
    ensures TimesLeft(time, fired[..j + 1]) == TimesAll(fired[j].acts, TimesLeft(time, fired[..j]))
  {
    assert fired[..j + 1][..j] == fired[..j];
  }

  /** Timers fire in the order of their times, over a whole run and whatever the callbacks do. */
  lemma {:induction false} FiresInOrder(all0: set<Node>, time0: Times, fired: seq<Event>, script: Script, gran: int,
                                        pool: set<Node>, i: nat, j: nat)
    requires forall k :: 0 <= k < |fired| ==>
      Fires(fired[k], Left(all0, fired[..k]), TimesLeft(time0, fired[..k]), script, gran)
    requires Sane(script, pool, gran) && all0 <= pool && j <= |fired|
    ensures Left(all0, fired[..j]) <= pool
    ensures i < j ==> NoneBefore(Left(all0, fired[..j]), TimesLeft(time0, fired[..j]), fired[i].t)
    decreases j
  {
    if j == 0 {
      assert fired[..0] == [];
    } else {
      hide Fires, Sane, Left, TimesLeft, StoredAll, TimesAll, NoneBefore;
      var e, s, time := fired[j - 1], Left(all0, fired[..j - 1]), TimesLeft(time0, fired[..j - 1]);
      FiresInOrder(all0, time0, fired, script, gran, pool, i, j - 1);
      LeftSnoc(all0, time0, fired, j - 1);
      var t := if i < j then fired[i].t else e.t;
      if i < j - 1 {
        FiresFirst(e, s, time, script, gran, t);
      }
      EventNoneBefore(e, s, time, script, gran, pool, t);
    }
  }

  lemma StoryInOrder(all0: set<Node>, time0: Times, all: set<Node>, time: Times, fired: seq<Event>,
                     script: Script, gran: int, limit: int, pool: set<Node>)
    requires Story(all0, time0, all, time, fired, script, gran, limit) && Sane(script, pool, gran) && all0 <= pool
    ensures forall i, j :: 0 <= i < j < |fired| ==> fired[i].t <= fired[j].t
  {
    hide Fires, Left, TimesLeft, Sane;
    forall i, j | 0 <= i < j < |fired| ensures fired[i].t <= fired[j].t {
      FiresInOrder(all0, time0, fired, script, gran, pool, i, j);
      FiresFirst(fired[j], Left(all0, fired[..j]), TimesLeft(time0, fired[..j]), script, gran, fired[i].t);
    }
  }

  ghost predicate HasFired(x: Node, fired: seq<Event>) {
    exists i :: 0 <= i < |fired| && fired[i].timer == x
  }

  predicate Mentions(acts: seq<Act>, x: Node) {
    exists j :: 0 <= j < |acts| && acts[j].timer == x
  }

  predicate AddsTimer(acts: seq<Act>, x: Node) {
    exists j :: 0 <= j < |acts| && acts[j].Start? && acts[j].timer == x
  }

  /** A callback did something with the timer. */
  ghost predicate Touched(x: Node, fired: seq<Event>) {
    exists i :: 0 <= i < |fired| && Mentions(fired[i].acts, x)
  }

  lemma {:induction false} ActsElsewhere(acts: seq<Act>, s: set<Node>, time: Times, x: Node)
    ensures !Mentions(acts, x) ==>
      (x in StoredAll(acts, s) <==> x in s) && TimeOf(TimesAll(acts, time), x) == TimeOf(time, x)
    ensures !AddsTimer(acts, x) && x !in s ==> x !in StoredAll(acts, s)
  {
    if acts != [] {
      var n := |acts| - 1;
      ActsElsewhere(acts[..n], s, time, x);
      assert Mentions(acts[..n], x) ==> Mentions(acts, x) by {
        if Mentions(acts[..n], x) {
          var j :| 0 <= j < n && acts[..n][j].timer == x;
          assert acts[j].timer == x;
        }
      }
      assert AddsTimer(acts[..n], x) ==> AddsTimer(acts, x) by {
        if AddsTimer(acts[..n], x) {
          var j :| 0 <= j < n && acts[..n][j].Start? && acts[..n][j].timer == x;
          assert acts[j].Start? && acts[j].timer == x;
        }
      }
    }
  }

  /** A timer that neither fired nor was touched by a callback is as before. */
  lemma {:induction false} UntouchedStays(x: Node, all0: set<Node>, time0: Times, fired: seq<Event>)
    requires !HasFired(x, fired) && !Touched(x, fired)
    ensures (x in Left(all0, fired) <==> x in all0) && TimeOf(TimesLeft(time0, fired), x) == TimeOf(time0, x)
  {
    hide StoredAll, TimesAll, Mentions;
    if fired != [] {
      var n := |fired| - 1;
      forall i | 0 <= i < n ensures fired[..n][i].timer != x && !Mentions(fired[..n][i].acts, x) {
        assert fired[..n][i] == fired[i];
      }
      UntouchedStays(x, all0, time0, fired[..n]);
      assert fired[n].timer != x && !Mentions(fired[n].acts, x);
      ActsElsewhere(fired[n].acts, Left(all0, fired[..n]) - {fired[n].timer}, TimesLeft(time0, fired[..n]), x);
    }
  }

  /** A timer that fired is gone unless its own or a later callback adds it again. */
  lemma {:induction false} FiredIsGone(x: Node, all0: set<Node>, fired: seq<Event>, i: nat)
    requires i < |fired| && fired[i].timer == x
    requires forall j :: i <= j < |fired| ==> !AddsTimer(fired[j].acts, x)
    ensures x !in Left(all0, fired)
  {
    hide StoredAll, AddsTimer;
    var n := |fired| - 1;
    if i < n {
      FiredIsGone(x, all0, fired[..n], i);
    }
    ActsElsewhere(fired[n].acts, Left(all0, fired[..n]) - {fired[n].timer}, map[], x);
  }

  /** Once all stored timers are due later, all earlier ones have fired or a callback took them. */
  lemma DueHaveFired(all0: set<Node>, time0: Times, held: seq<set<Node>>, time: Times, fired: seq<Event>,
                     script: Script, gran: int, limit: int, from: int)
    requires Story(all0, time0, Union(held), time, fired, script, gran, limit) && AllFrom(held, time, from)
    ensures forall x :: x in all0 && TimeOf(time0, x) < from ==> HasFired(x, fired) || Touched(x, fired)
  {
    hide HasFired, Touched, Left, TimesLeft;
    forall x | x in all0 && !HasFired(x, fired) && !Touched(x, fired) ensures TimeOf(time0, x) >= from {
      UntouchedStays(x, all0, time0, fired);
      assert x in Union(held);
    }
  }

  // ---- the wheel

  /** The slots of a new wheel. */
  method NewHeaps(n: nat) returns (hs: seq<LinkHeap>)
    ensures |hs| == n && forall i :: 0 <= i < n ==> fresh(hs[i]) && fresh(hs[i].tree)
    ensures forall i :: 0 <= i < n ==> hs[i].Valid(map[]) && hs[i].Timers() == {} && hs[i].size == 0
    ensures forall i, j :: 0 <= i < j < n ==> hs[i] != hs[j] && hs[i].tree != hs[j].tree
  {
    hide Pow2, Ord;
    hs := [];
    for k := 0 to n
      invariant |hs| == k && forall i :: 0 <= i < k ==> fresh(hs[i]) && fresh(hs[i].tree)
      invariant forall i :: 0 <= i < k ==> hs[i].Valid(map[]) && hs[i].Timers() == {} && hs[i].size == 0
      invariant forall i, j :: 0 <= i < j < k ==> hs[i] != hs[j] && hs[i].tree != hs[j].tree
    {
      var h := new LinkHeap();
      assert h.Valid(map[]);
      h.Holds(map[]);
      hs := hs + [h];
    }
  }

  class LinkWheel {
    const heaps: seq<LinkHeap>
    const granularity: int
    var curidx: nat
    var next: int
    /** The fields time64 and idx of the timers. */
    var time: Times
    var idx: map<Node, int>
    /** The timers of each slot. */
    ghost var held: seq<set<Node>>

    /** The slots are different heaps that hold different timers; all are in order, except
        perhaps for the timer `x`. */
    ghost predicate Slots(x: Node?)
      reads this`held, this`time, heaps
      reads set h | h in heaps :: h.tree, set h, n | h in heaps && n in h.tree.mem.Keys :: n
    {
      && |held| == |heaps|
      && (forall i :: 0 <= i < |heaps| ==> InOrderBut(i, x))
      && (forall i, j :: 0 <= i < j < |heaps| ==>
        heaps[i] != heaps[j] && heaps[i].tree != heaps[j].tree && held[i] !! held[j])
    }

    ghost predicate InOrderBut(i: nat, x: Node?)
      requires i < |heaps| == |held|
      reads this`held, this`time, heaps
      reads set h | h in heaps :: h.tree, set h, n | h in heaps && n in h.tree.mem.Keys :: n
    {
      && heaps[i].Timers() == held[i] && heaps[i].size == |held[i]|
      && (if x != null && x in held[i] then heaps[i].ValidExcept(x, time) else heaps[i].Valid(time))
    }

    ghost predicate Valid()
      reads this, heaps, set h | h in heaps :: h.tree, set h, n | h in heaps && n in h.tree.mem.Keys :: n
    {
      && granularity > 0 && 0 < |heaps| && curidx < |heaps|
      && Slots(null) && Placed(held, idx, time, curidx, granularity, next) && |Union(held)| < Pow2(PATH_MAX)
    }

    /** The same while the time of a stored timer has changed. */
    ghost predicate ValidBut(x: Node)
      reads this, heaps, set h | h in heaps :: h.tree, set h, n | h in heaps && n in h.tree.mem.Keys :: n
    {
      && granularity > 0 && 0 < |heaps| && curidx < |heaps|
      && Slots(x) && PlacedBut(x, held, idx, time, curidx, granularity, next) && |Union(held)| < Pow2(PATH_MAX)
    }

    /** timer_linkwheel_init. */
    constructor (gran: int, size: nat, next64: int)
      requires gran > 0 && size > 0
      ensures Valid() && Stored() == {} && next == next64 && granularity == gran && |heaps| == size && curidx == 0
    {
      var hs := NewHeaps(size);
      heaps, granularity, curidx, next := hs, gran, 0, next64;
      time, idx := map[], map[];
      held := seq(size, i => {});
      new;
      Pow2Grows(0, PATH_MAX);
      assert Union(held) == {};
    }

    lemma Apart()
      requires Slots(null)
      ensures Separate(held) && |held| == |heaps|
    {
    }

    lemma ApartBut(x: Node)
      requires Slots(x)
      ensures Separate(held) && |held| == |heaps|
    {
    }

    ghost function Stored(): set<Node>
      reads this
    {
      Union(held)
    }

    /** timer_linkheap_add on one slot. */
    method AddTo(k: nat, timer: Node)
      requires Slots(null) && k < |heaps| && Free(timer, held) && |held[k]| + 1 < Pow2(PATH_MAX)
      modifies this`held, heaps, set h | h in heaps :: h.tree, Stored(), timer
      ensures Slots(null) && held == old(held)[k := old(held)[k] + {timer}]
    {
      hide Pow2, Nodes, Union, LinkHeap.Valid, LinkHeap.ValidExcept;
      ghost var s := held[k];
      CardAdd(s, timer);
      UnionHolds(held, k);
      forall i | 0 <= i < |heaps|
        ensures heaps[i].tree.mem.Keys == held[i] && heaps[i].Valid(time) && heaps[i].Timers() == held[i]
        ensures heaps[i].size == |held[i]|
      {
        assert InOrderBut(i, null);
        heaps[i].Holds(time);
      }
      heaps[k].Add(timer, time);
      heaps[k].Holds(time);
      held := held[k := s + {timer}];
      forall i | 0 <= i < |heaps| ensures InOrderBut(i, null) {
        if i != k {
          assert heaps[i].tree.mem.Keys !! old(held)[k];
          assert old(heaps[i].Valid(time));
        }
      }
    }

    /** timer_linkheap_remove on one slot. */
    method RemoveFrom(k: nat, timer: Node)
      requires Slots(timer) && k < |heaps| && timer in held[k]
      modifies this`held, heaps, set h | h in heaps :: h.tree, Stored()
      ensures Slots(null) && held == old(held)[k := old(held)[k] - {timer}]
    {
      hide Pow2, Nodes, Union, LinkHeap.Valid, LinkHeap.ValidExcept;
      assert InOrderBut(k, timer);
      ghost var s := held[k];
      CardRemove(s, timer);
      UnionHolds(held, k);
      heaps[k].HoldsBut(timer, time);
      forall i | 0 <= i < |heaps| && i != k
        ensures heaps[i].tree.mem.Keys == held[i] && heaps[i].Valid(time)
        ensures heaps[i].Timers() == held[i] && heaps[i].size == |held[i]|
      {
        assert InOrderBut(i, timer);
        assert held[i] !! held[k];
        heaps[i].Holds(time);
      }
      heaps[k].Remove(timer, time);
      heaps[k].Holds(time);
      held := held[k := s - {timer}];
      forall i | 0 <= i < |heaps| ensures InOrderBut(i, null) {
        if i != k {
          assert heaps[i].tree.mem.Keys !! old(held)[k];
          assert old(heaps[i].Valid(time));
        }
      }
    }

    /** The caller writes the timer's field time64. */
    method SetTime(timer: Node, t: int)
      requires Valid()
      modifies this`time
      ensures time == old(time)[timer := t]
      ensures if timer in Stored() then ValidBut(timer) else Valid()
    {
      hide Pow2, Nodes, LinkHeap.Valid, LinkHeap.ValidExcept, SlotOf, Union;
      PlacedRetimed(held, idx, time, curidx, granularity, next, timer, t);
      forall i | 0 <= i < |heaps|
        ensures heaps[i].Timers() == held[i] && heaps[i].size == |held[i]|
        ensures if timer in held[i] then heaps[i].ValidExcept(timer, time[timer := t])
          else heaps[i].Valid(time[timer := t])
      {
        assert InOrderBut(i, null);
        heaps[i].Retimed(timer, t, time);
        assert timer in held[i] ==> InSlot(i, timer, idx, time, curidx, |held|, granularity, next);
      }
      InUnionOrFree(timer, held);
      time := time[timer := t];
      if timer !in Stored() {
        PlacedAll(timer, held, idx, time, curidx, granularity, next);
      }
    }

    /** timer_linkwheel_add: puts the timer in the slot for its time. */
    method Insert(timer: Node)
      requires Valid() && timer !in Stored() && timer in time && |Stored()| + 1 < Pow2(PATH_MAX)
      modifies this, heaps, set h | h in heaps :: h.tree, Stored(), timer
      ensures Valid() && Stored() == old(Stored()) + {timer} && time == old(time) && curidx == old(curidx)
      ensures next == old(next)
      ensures var k := SlotOf(curidx, |heaps|, granularity, next, time[timer]);
        && idx == old(idx)[timer := k] && k < |old(held)| && held == old(held)[k := old(held)[k] + {timer}]
    {
      hide Pow2, Slots, SlotOf, Union, Placed, InOrderBut;
      Apart();
      var k := FindSlot(time[timer]);
      InsertFacts(held, idx, time, curidx, granularity, next, timer);
      idx := idx[timer := k];
      AddTo(k, timer);
    }

    /** The slot arithmetic of timer_linkwheel_add. */
    method FindSlot(t: int) returns (k: nat)
      requires granularity > 0 && 0 < |heaps|
      ensures k == SlotOf(curidx, |heaps|, granularity, next, t) < |heaps|
    {
      var diff := CDiv(t - next, granularity);
      if diff < 0 {
        diff := 0;
      }
      k := (curidx + diff) % |heaps|;
    }

    /** timer_linkwheel_remove: the slot is the one the timer remembers, so its time may have changed. */
    method Remove(timer: Node)
      requires ValidBut(timer) && timer in Stored()
      modifies this, heaps, set h | h in heaps :: h.tree, Stored()
      ensures Valid() && Stored() == old(Stored()) - {timer}
      ensures time == old(time) && idx == old(idx) && curidx == old(curidx) && next == old(next)
    {
      hide Pow2, Slots, SlotOf, Union, PlacedBut, Placed, InOrderBut;
      ApartBut(timer);
      var k := SlotOfStored(held, idx, time, curidx, granularity, next, timer);
      RemoveFacts(held, idx, time, curidx, granularity, next, k, timer);
      RemoveFrom(k, timer);
    }

    /** timer_linkwheel_modify, after the caller has changed the timer's time. */
    method Modify(timer: Node)
      requires ValidBut(timer) && timer in Stored() && timer in time
      modifies this, heaps, set h | h in heaps :: h.tree, Stored(), timer
      ensures Valid() && Stored() == old(Stored())
      ensures time == old(time) && curidx == old(curidx) && next == old(next)
    {
      hide Pow2, Slots, SlotOf, Union, PlacedBut, Placed, InOrderBut;
      CardRemove(Stored(), timer);
      Remove(timer);
      Insert(timer);
    }

    /** The inner loop's step: takes a timer that is due in this tick out of the current slot. */
    method TakeDue() returns (link: Node?)
      requires Valid()
      modifies this, heaps, set h | h in heaps :: h.tree, Stored()
      ensures Valid() && time == old(time) && idx == old(idx) && curidx == old(curidx) && next == old(next)
      ensures link != null ==> forall x :: x in old(Stored()) ==> TimeOf(time, link) <= TimeOf(time, x)
      ensures link == null ==>
        held == old(held) && forall x :: x in held[curidx] ==> next + granularity <= TimeOf(time, x)
      ensures link != null ==>
        link in old(held)[curidx] && link in old(Stored()) && TimeOf(time, link) < next + granularity && link in time
      ensures link != null ==>
        held == old(held)[curidx := old(held)[curidx] - {link}] && Stored() == old(Stored()) - {link}
    {
      hide Pow2, SlotOf, Union, Nodes, LinkHeap.ValidExcept, Placed;
      Apart();
      assert InOrderBut(curidx, null);
      link := heaps[curidx].NextExpiryTimer(time);
      if link == null || TimeOf(time, link) >= next + granularity {
        link := null;
        return;
      }
      FirstDue(held, idx, time, curidx, granularity, next, link);
      PlacedNone(link, held, idx, time, curidx, granularity, next);
      SlotsBut(link);
      RemoveFacts(held, idx, time, curidx, granularity, next, curidx, link);
      RemoveFrom(curidx, link);
    }

    lemma SlotsBut(x: Node)
      requires Slots(null) && x in time
      ensures Slots(x)
    {
      hide Nodes, Pow2, Ord;
      forall i | 0 <= i < |heaps| ensures InOrderBut(i, x) {
        assert InOrderBut(i, null);
        heaps[i].AnyBut(x, time);
      }
    }

    /** The end of a tick. */
    method Turn()
      requires Valid() && forall x :: x in held[curidx] ==> next + granularity <= TimeOf(time, x)
      modifies this`curidx, this`next
      ensures Valid() && next == old(next) + granularity && AllFrom(held, time, next)
    {
      hide Pow2, Slots, Union, Placed, SlotOf;
      Apart();
      TurnPlaced(held, idx, time, curidx, granularity, next);
      next := next + granularity;
      curidx := curidx + 1;
      if curidx >= |heaps| {
        curidx := 0;
      }
    }

    lemma Rechecked(x: Node)
      requires Valid() && x in Stored()
      ensures ValidBut(x)
    {
      hide Pow2, SlotOf, LinkHeap.Valid, LinkHeap.ValidExcept;
      PlacedNone(x, held, idx, time, curidx, granularity, next);
      SlotsBut(x);
    }

    /** One thing that a callback does. */
    method Perform(a: Act, ghost pool: set<Node>)
      requires Valid() && Stored() <= pool && LegalOne(a, Stored(), pool, next + granularity) && |pool| < Pow2(PATH_MAX)
      modifies this, heaps, set h | h in heaps :: h.tree, pool
      ensures Valid() && Stored() == StoredAfter(a, old(Stored())) && time == TimesAfter(a, old(time))
      ensures curidx == old(curidx) && next == old(next)
    {
      hide Pow2, Slots, SlotOf, Union, Placed, PlacedBut, InOrderBut;
      match a {
        case Start(x, t) =>
          RoomFor(Stored(), x, pool);
          SetTime(x, t);
          Insert(x);
        case Stop(x) =>
          Rechecked(x);
          Remove(x);
        case Change(x, t) =>
          SetTime(x, t);
          Modify(x);
      }
    }

    /** Everything that a callback does. */
    method PerformAll(acts: seq<Act>, running: set<Node>, ghost pool: set<Node>) returns (running': set<Node>)
      requires Valid() && running == Stored() <= pool && Legal(acts, running, pool, next + granularity)
      requires |pool| < Pow2(PATH_MAX)
      modifies this, heaps, set h | h in heaps :: h.tree, pool
      ensures Valid() && running' == Stored() == StoredAll(acts, old(Stored())) && time == TimesAll(acts, old(time))
      ensures Stored() <= pool && curidx == old(curidx) && next == old(next)
      ensures Soon(Stored(), time, next + granularity) <= Soon(old(Stored()), old(time), next + granularity)
    {
      hide Pow2, Valid, Union, LegalOne, Soon, StoredAll, TimesAll, StoredAfter, TimesAfter;
      running' := running;
      ghost var time0 := time;
      NoActs(running, time0);
      for i := 0 to |acts|
        invariant Valid() && running' == Stored() == StoredAll(acts[..i], running) && time == TimesAll(acts[..i], time0)
        invariant Stored() <= pool && curidx == old(curidx) && next == old(next)
        invariant Soon(Stored(), time, next + granularity) <= Soon(running, time0, next + granularity)
      {
        ActsSnoc(acts, i, running, time0);
        ActSoon(acts[i], Stored(), time, pool, next + granularity);
        Perform(acts[i], pool);
        running' := StoredAfter(acts[i], running');
      }
      assert acts[..|acts|] == acts;
    }

    /** One timer of the current tick fires and its callback runs. */
    method FireOne(script: Script, running: set<Node>, ghost pool: set<Node>)
      returns (link: Node?, acts: seq<Act>, running': set<Node>)
      requires Valid() && running == Stored() <= pool && |pool| < Pow2(PATH_MAX) && Sane(script, pool, granularity)
      modifies this, heaps, set h | h in heaps :: h.tree, pool
      ensures Valid() && curidx == old(curidx) && next == old(next) && running' == Stored() <= pool
      ensures link == null ==> Stored() == old(Stored()) && time == old(time)
      ensures link == null ==>
        curidx < |held| && forall x :: x in held[curidx] ==> next + granularity <= TimeOf(time, x)
      ensures link != null ==>
        Fires(Event(link, TimeOf(old(time), link), next, acts), old(Stored()), old(time), script, granularity)
      ensures link != null ==> Stored() == StoredAll(acts, old(Stored()) - {link}) && time == TimesAll(acts, old(time))
      ensures link != null ==>
        Soon(Stored(), time, next + granularity) < Soon(old(Stored()), old(time), next + granularity)
    {
      hide Pow2, Slots, SlotOf, Union, Placed, InOrderBut, Soon, Legal, StoredAll, TimesAll;
      Apart();
      ghost var all, now := Stored(), time;
      acts, running' := [], running;
      link := TakeDue();
      if link == null {
        return;
      }
      running' := running - {link};
      acts := script(link, next, running');
      SoonShrinks(all, now, link, next + granularity);
      running' := PerformAll(acts, running', pool);
    }

    /** The inner loop of timer_linkwheel_process: fires what is due in the current tick. */
    method RunTick(script: Script, running: set<Node>, before: seq<Event>, ghost pool: set<Node>,
                   ghost all0: set<Node>, ghost time0: Times, ghost limit: int)
      returns (fired: seq<Event>, running': set<Node>)
      requires Valid() && running == Stored() <= pool && |pool| < Pow2(PATH_MAX) && Sane(script, pool, granularity)
      requires Story(all0, time0, Stored(), time, before, script, granularity, limit) && next <= limit
      modifies this, heaps, set h | h in heaps :: h.tree, pool
      ensures Valid() && curidx == old(curidx) && next == old(next) && running' == Stored() <= pool
      ensures curidx < |held| && forall x :: x in held[curidx] ==> next + granularity <= TimeOf(time, x)
      ensures before <= fired && Story(all0, time0, Stored(), time, fired, script, granularity, limit)
    {
      hide Pow2, Valid, Union, Soon, Story, Sane, Fires, StoredAll, TimesAll;
      fired, running' := before, running;
      while true
        invariant Valid() && curidx == old(curidx) && next == old(next) && running' == Stored() <= pool
        invariant before <= fired && Story(all0, time0, Stored(), time, fired, script, granularity, limit)
        decreases Soon(Stored(), time, next + granularity)
      {
        ghost var all, now := Stored(), time;
        var was := time;
        var link, acts;
        link, acts, running' := FireOne(script, running', pool);
        if link == null {
          return;
        }
        var e := Event(link, TimeOf(was, link), next, acts);
        StoryStep(all0, time0, all, now, fired, script, granularity, limit, e);
        fired := fired + [e];
      }
    }

    /** timer_linkwheel_process. `running` are the timers that the program has stored, `pool` all the
        timers it has. */
    method Process(curtime: int, script: Script, running: set<Node>, ghost pool: set<Node>)
      returns (fired: seq<Event>, running': set<Node>)
      requires Valid() && running == Stored() <= pool && |pool| < Pow2(PATH_MAX) && Sane(script, pool, granularity)
      modifies this, heaps, set h | h in heaps :: h.tree, pool
      ensures Valid() && next > curtime && running' == Stored() <= pool
      ensures Story(old(Stored()), old(time), Stored(), time, fired, script, granularity, curtime)
      ensures old(next) <= curtime ==> AllFrom(held, time, next)
      ensures old(next) <= curtime ==> forall x :: x in old(Stored()) && TimeOf(old(time), x) < next ==>
        HasFired(x, fired) || Touched(x, fired)
      ensures forall i, j :: 0 <= i < j < |fired| ==> fired[i].t <= fired[j].t
    {
      hide Pow2, Slots, SlotOf, Union, Placed, InOrderBut, Story, AllFrom, Sane;
      fired, running' := [], running;
      ghost var all0, time0 := Stored(), time;
      StoryBegins(all0, time0, script, granularity, curtime);
      while curtime >= next
        invariant Valid() && next >= old(next) && running' == Stored() <= pool
        invariant Story(all0, time0, Stored(), time, fired, script, granularity, curtime)
        invariant next > old(next) ==> AllFrom(held, time, next)
        decreases curtime - next
      {
        fired, running' := RunTick(script, running', fired, pool, all0, time0, curtime);
        Turn();
      }
      if old(next) <= curtime {
        DueHaveFired(all0, time0, held, time, fired, script, granularity, curtime, next);
      }
      StoryInOrder(all0, time0, Stored(), time, fired, script, granularity, curtime, pool);
    }
  }

  lemma NoActs(s: set<Node>, time: Times)
    ensures StoredAll([], s) == s && TimesAll([], time) == time
  {
  }

  lemma RoomFor(s: set<Node>, x: Node, pool: set<Node>)
    requires s <= pool && x in pool && x !in s
    ensures |s| + 1 <= |pool|
  {
    CardAdd(s, x);
    Smaller(s + {x}, pool);
  }
}
