/** `queue.c` and `queue.h`: a bounded queue that any number of producers and consumers share
    under one mutex with two condition variables. The threads run in interleaved steps. */
module BlockingQueue {

  import opened Rings

  // ---- the threads

  /** Where a thread is: `rest` are the items it still has to enqueue, `sz` and `got` the limit and the
      items of a dequeue, and `seen` what the ring held when it began to take them. */
  datatype Pc =
    | Idle
    | EnqLock(rest: seq<Item>)
    | EnqHold(rest: seq<Item>)
    | EnqStored(rest: seq<Item>, wasEmpty: bool)
    | EnqWait(rest: seq<Item>)
    | DeqLock(sz: nat, timed: bool)
    | DeqHold(sz: nat, timed: bool)
    | DeqTake(sz: nat, got: seq<Item>, seen: seq<Item>, wasFull: bool)
    | DeqWait(sz: nat, timed: bool)
    | TimedOut
    | OutHold
    | Done(sz: nat, got: seq<Item>, seen: seq<Item>, late: bool)

  datatype Option<T> = None | Some(value: T)

  /** `put` and `taken` are all items so far enqueued and dequeued, in order, and `results` what the
      dequeue calls have returned, in the order in which they gave the mutex back. `owners` tells which thread
      enqueued each item, and `given` all that the enqueue calls of each thread were given. */
  datatype State = State(
    ring: Ring,
    holder: Option<nat>,
    pcs: seq<Pc>,
    put: seq<Item>,
    taken: seq<Item>,
    results: seq<seq<Item>>,
    owners: seq<nat>,
    given: seq<seq<Item>>)

  /** The thread has the mutex. */
  predicate Holds(p: Pc) {
    p.EnqHold? || p.EnqStored? || p.DeqHold? || p.DeqTake? || p.OutHold?
  }

  /** pthread_cond_broadcast: the waiting threads go on to lock the mutex again. */
  function WakeFull(p: Pc): Pc {
    if p.EnqWait? then EnqLock(p.rest) else p
  }

  function WakeEmpty(p: Pc): Pc {
    if p.DeqWait? then DeqLock(p.sz, p.timed) else p
  }

  function Broadcast(pcs: seq<Pc>, wake: Pc -> Pc): (r: seq<Pc>)
    ensures |r| == |pcs| && forall i :: 0 <= i < |pcs| ==> r[i] == wake(pcs[i])
  {
    seq(|pcs|, i requires 0 <= i < |pcs| => wake(pcs[i]))
  }

  /** Thread `t` goes to `p` and nothing else changes. */
  function Goto(s: State, t: nat, p: Pc): State
    requires t < |s.pcs|
  {
    s.(pcs := s.pcs[t := p])
  }

  /** One step of thread `t`. */
  ghost predicate Step(s: State, s': State, t: nat)
    requires t < |s.pcs| == |s.given| && RingOk(s.ring)
  {
    match s.pcs[t]
    // calls: queue_enq_one and queue_enq_many, queue_deq_one, queue_deq_many and queue_timeddeq_many
    case Idle => (exists items :: s' == Goto(s, t, EnqLock(items)).(given := s.given[t := s.given[t] + items]))
      || (exists sz, timed :: s' == Goto(s, t, DeqLock(sz, timed)))
    case Done(_, _, _, _) => s' == Goto(s, t, Idle)
    // pthread_mutex_lock, also at the end of a wait
    case EnqLock(rest) => s.holder == None && s' == Goto(s, t, EnqHold(rest)).(holder := Some(t))
    case DeqLock(sz, timed) => s.holder == None && s' == Goto(s, t, DeqHold(sz, timed)).(holder := Some(t))
    case TimedOut => s.holder == None && s' == Goto(s, t, OutHold).(holder := Some(t))
    // the loop of the producers
    case EnqHold(rest) =>
      if rest == [] then s' == Goto(s, t, Done(0, [], [], false)).(holder := None)
      else if Full(s.ring) then s' == Goto(s, t, EnqWait(rest)).(holder := None)
      else
        s' == Goto(s, t, EnqStored(rest[1..], Empty(s.ring))).(
          ring := Put(s.ring, rest[0]), put := s.put + [rest[0]], owners := s.owners + [t])
    case EnqStored(rest, wasEmpty) =>
      var pcs := if wasEmpty then Broadcast(s.pcs, WakeEmpty) else s.pcs;
      s' == s.(pcs := pcs[t := EnqHold(rest)])
    // the loops of the consumers
    case DeqHold(sz, timed) =>
      if Empty(s.ring) then s' == Goto(s, t, DeqWait(sz, timed)).(holder := None)
      else s' == Goto(s, t, DeqTake(sz, [], Contents(s.ring), Full(s.ring)))
    case DeqTake(sz, got, seen, wasFull) =>
      if !Empty(s.ring) && |got| < sz then
        var x := s.ring.buf[s.ring.start];
        s' == Goto(s, t, DeqTake(sz, got + [x], seen, wasFull)).(ring := Take(s.ring), taken := s.taken + [x])
      else
        var pcs := if wasFull then Broadcast(s.pcs, WakeFull) else s.pcs;
        s' == s.(pcs := pcs[t := Done(sz, got, seen, false)], holder := None, results := s.results + [got])
    case OutHold => s' == Goto(s, t, Done(0, [], [], true)).(holder := None)
    // a wait may end without a broadcast, and a timed one with a timeout
    case EnqWait(rest) => s' == Goto(s, t, EnqLock(rest))
    case DeqWait(sz, timed) => s' == Goto(s, t, DeqLock(sz, timed)) || (timed && s' == Goto(s, t, TimedOut))
  }

  ghost predicate Init(s: State) {
    && RingOk(s.ring) && 2 <= |s.ring.buf| && Empty(s.ring) && s.holder == None
    && s.put == [] && s.taken == [] && s.results == [] && s.owners == []
    && |s.given| == |s.pcs| && (forall i :: 0 <= i < |s.given| ==> s.given[i] == [])
    && forall i :: 0 <= i < |s.pcs| ==> s.pcs[i].Idle?
  }

  // ---- the invariant

  /** The thread with the mutex is about to wake the waiters of `full`, or of `empty`. */
  ghost predicate WillWakeFull(s: State) {
    s.holder.Some? && s.holder.value < |s.pcs| && s.pcs[s.holder.value].DeqTake? && s.pcs[s.holder.value].wasFull
  }

  ghost predicate WillWakeEmpty(s: State) {
    s.holder.Some? && s.holder.value < |s.pcs| && s.pcs[s.holder.value].EnqStored? && s.pcs[s.holder.value].wasEmpty
  }

  /** Exactly the holder is between lock and unlock. */
  ghost predicate OneHolder(s: State) {
    && (s.holder.Some? ==> s.holder.value < |s.pcs|)
    && forall t :: 0 <= t < |s.pcs| ==> (Holds(s.pcs[t]) <==> s.holder == Some(t))
  }

  /** Nobody sleeps without a reason. */
  ghost predicate NoLostWakeup(s: State) {
    && (forall t :: 0 <= t < |s.pcs| && s.pcs[t].EnqWait? ==> Full(s.ring) || WillWakeFull(s))
    && (forall t :: 0 <= t < |s.pcs| && s.pcs[t].DeqWait? ==> Empty(s.ring) || WillWakeEmpty(s))
  }

  /** What a thread knows about the ring, and about its result: a dequeue that was not late returns what
      it found, as far as it may, and it found something. */
  ghost predicate Knows(p: Pc, r: Ring)
    requires RingOk(r)
  {
    && (p.DeqTake? ==> |p.got| <= p.sz && if p.got == [] then !Empty(r) && p.wasFull == Full(r) else !Full(r))
    && (p.DeqTake? ==> p.seen == p.got + Contents(r) && p.seen != [])
    && (p.EnqStored? ==> !Empty(r))
    && (p.Done? && !p.late ==> p.got == FirstOf(p.seen, p.sz) && (0 < p.sz ==> p.seen != []))
  }

  function FirstOf(s: seq<Item>, n: nat): seq<Item> {
    if n < |s| then s[..n] else s
  }

  /** The items that thread `t` has enqueued. */
  ghost function PutBy(put: seq<Item>, owners: seq<nat>, t: nat): seq<Item>
    requires |put| == |owners|
  {
    if put == [] then []
    else
      var n := |put| - 1;
      PutBy(put[..n], owners[..n], t) + if owners[n] == t then [put[n]] else []
  }

  lemma PutBySnoc(put: seq<Item>, owners: seq<nat>, x: Item, u: nat, t: nat)
    requires |put| == |owners|
    ensures PutBy(put + [x], owners + [u], t) == PutBy(put, owners, t) + if u == t then [x] else []
  {
    assert (put + [x])[..|put|] == put && (owners + [u])[..|owners|] == owners;
  }

  /** What an enqueue call still has to store. */
  function RestOf(p: Pc): seq<Item> {
    if p.EnqLock? || p.EnqHold? || p.EnqStored? || p.EnqWait? then p.rest else []
  }

  /** What a thread's calls were given is what it has enqueued, in order, and what is left of the call. */
  ghost predicate Enqueued(s: State) {
    && |s.owners| == |s.put| && |s.given| == |s.pcs|
    && forall t :: 0 <= t < |s.pcs| ==> s.given[t] == PutBy(s.put, s.owners, t) + RestOf(s.pcs[t])
  }

  ghost function Flat(rs: seq<seq<Item>>): seq<Item> {
    if rs == [] then [] else Flat(rs[..|rs| - 1]) + rs[|rs| - 1]
  }

  lemma FlatSnoc(rs: seq<seq<Item>>, r: seq<Item>)
    ensures Flat(rs + [r]) == Flat(rs) + r
  {
    assert (rs + [r])[..|rs|] == rs;
  }

  /** What the dequeue that has the mutex has taken so far. */
  ghost function InHand(s: State): seq<Item> {
    if s.holder.Some? && s.holder.value < |s.pcs| && s.pcs[s.holder.value].DeqTake? then s.pcs[s.holder.value].got
    else []
  }

  /** What was taken is what the finished calls returned, one call after the other, and what the running
      one has in hand; and a thread returns what its call is recorded with. */
  ghost predicate Accounted(s: State) {
    && s.taken == Flat(s.results) + InHand(s)
    && forall t :: 0 <= t < |s.pcs| && s.pcs[t].Done? && s.pcs[t].got != [] ==> s.pcs[t].got in s.results
  }

  /** The threads get along. */
  ghost predicate Live(s: State) {
    && RingOk(s.ring) && 2 <= |s.ring.buf| && OneHolder(s) && NoLostWakeup(s)
    && forall t :: 0 <= t < |s.pcs| ==> Knows(s.pcs[t], s.ring)
  }

  /** Every item is accounted for. */
  ghost predicate Books(s: State)
    requires RingOk(s.ring)
  {
    s.put == s.taken + Contents(s.ring) && Accounted(s) && Enqueued(s)
  }

  ghost predicate Inv(s: State) {
    Live(s) && Books(s)
  }

  lemma InitInv(s: State)
    requires Init(s)
    ensures Inv(s)
  {
    EmptyIff(s.ring);
  }

  /** Thread `t` moves to `p`, locks or unlocks, and leaves the ring alone. */
  lemma MoveKeepsInv(s: State, t: nat, p: Pc, h: Option<nat>)
    requires t < |s.pcs| && Inv(s) && Knows(p, s.ring)
    requires h == s.holder || (s.holder == None && h == Some(t)) || (s.holder == Some(t) && h == None)
    requires Holds(p) <==> h == Some(t)
    requires (p.EnqWait? ==> Full(s.ring)) && (p.DeqWait? ==> Empty(s.ring))
    requires !s.pcs[t].DeqTake? && !(s.pcs[t].EnqStored? && s.pcs[t].wasEmpty)
    requires ((p.DeqTake? || p.Done?) ==> p.got == []) && RestOf(p) == RestOf(s.pcs[t])
    ensures Inv(Goto(s, t, p).(holder := h))
  {
    hide Contents, Full, Empty, PutBy, Flat;
  }

  /** Every step keeps the invariant. */
  lemma StepKeepsInv(s: State, s': State, t: nat)
    requires t < |s.pcs| && Inv(s) && Step(s, s', t)
    ensures Inv(s')
  {
    hide Inv;
    match s.pcs[t]
    case EnqHold(rest) => ProducerStep(s, s', t);
    case EnqStored(_, _) => SignalStep(s, s', t);
    case DeqHold(_, _) => ConsumerStep(s, s', t);
    case DeqTake(_, _, _, _) => TakeStep(s, s', t);
    case Idle => CallStep(s, s', t);
    case _ => QuietStep(s, s', t);
  }

  lemma QuietStep(s: State, s': State, t: nat)
    requires t < |s.pcs| && Inv(s) && Step(s, s', t)
    requires var p := s.pcs[t]; !p.Idle? && !p.EnqHold? && !p.EnqStored? && !p.DeqHold? && !p.DeqTake?
    ensures Inv(s')
  {
    assert Holds(s.pcs[t]) <==> s.holder == Some(t);
    hide Inv, Contents, Full, Empty;
    var p := s'.pcs[t];
    assert s' == Goto(s, t, p).(holder := s'.holder);
    MoveKeepsInv(s, t, p, s'.holder);
  }

  /** A call begins. */
  lemma CallStep(s: State, s': State, t: nat)
    requires t < |s.pcs| && Inv(s) && Step(s, s', t) && s.pcs[t].Idle?
    ensures Inv(s')
  {
    assert Holds(s.pcs[t]) <==> s.holder == Some(t);
    CallLive(s, s', t);
    CallBooks(s, s', t);
  }

  lemma CallLive(s: State, s': State, t: nat)
    requires t < |s.pcs| == |s.given| && Live(s) && Step(s, s', t) && s.pcs[t].Idle? && s.holder != Some(t)
    ensures Live(s')
  {
    hide Contents, Full, Empty;
  }

  lemma CallBooks(s: State, s': State, t: nat)
    requires t < |s.pcs| && Inv(s) && Step(s, s', t) && s.pcs[t].Idle? && s.holder != Some(t)
    ensures RingOk(s'.ring) && Books(s')
  {
    hide Contents, Full, Empty, PutBy, Flat, NoLostWakeup, Knows;
    assert s'.given[t] == s.given[t] + RestOf(s'.pcs[t]);
    assert s.given[t] == PutBy(s.put, s.owners, t) + [] == PutBy(s.put, s.owners, t);
  }

  lemma ProducerStep(s: State, s': State, t: nat)
    requires t < |s.pcs| && Inv(s) && Step(s, s', t) && s.pcs[t].EnqHold?
    ensures Inv(s')
  {
    assert Holds(s.pcs[t]) <==> s.holder == Some(t);
    var rest := s.pcs[t].rest;
    if rest != [] && !Full(s.ring) {
      PutAppends(s.ring, rest[0]);
      EmptyIff(Put(s.ring, rest[0]));
      StoreStep(s, t, Put(s.ring, rest[0]), rest);
    } else {
      hide Inv, Contents, Empty;
      MoveKeepsInv(s, t, s'.pcs[t], None);
    }
  }

  lemma StoreStep(s: State, t: nat, r: Ring, rest: seq<Item>)
    requires t < |s.pcs| && Inv(s) && s.pcs[t] == EnqHold(rest) && s.holder == Some(t) && !Full(s.ring) && rest != []
    requires RingOk(r) && |r.buf| == |s.ring.buf| && Contents(r) == Contents(s.ring) + [rest[0]] && !Empty(r)
    ensures var p := EnqStored(rest[1..], Empty(s.ring));
      Inv(Goto(s, t, p).(ring := r, put := s.put + [rest[0]], owners := s.owners + [t]))
  {
    hide Contents, Full, Empty, PutBy, Flat;
    var x := rest[0];
    assert s.put + [x] == s.taken + (Contents(s.ring) + [x]);
    forall u | 0 <= u < |s.pcs|
      ensures PutBy(s.put + [x], s.owners + [t], u) == PutBy(s.put, s.owners, u) + if t == u then [x] else []
    {
      PutBySnoc(s.put, s.owners, x, t, u);
    }
    assert PutBy(s.put, s.owners, t) + rest == PutBy(s.put, s.owners, t) + [x] + rest[1..];
  }

  lemma SignalStep(s: State, s': State, t: nat)
    requires t < |s.pcs| && Inv(s) && Step(s, s', t) && s.pcs[t].EnqStored?
    ensures Inv(s')
  {
    hide Contents, Full, Empty, PutBy, Flat;
  }

  lemma ConsumerStep(s: State, s': State, t: nat)
    requires t < |s.pcs| && Inv(s) && Step(s, s', t) && s.pcs[t].DeqHold?
    ensures Inv(s')
  {
    assert Holds(s.pcs[t]) <==> s.holder == Some(t);
    hide Inv, Contents, Full;
    MoveKeepsInv(s, t, s'.pcs[t], s'.holder);
  }

  lemma TakeStep(s: State, s': State, t: nat)
    requires t < |s.pcs| && Inv(s) && Step(s, s', t) && s.pcs[t].DeqTake?
    ensures Inv(s')
  {
    assert Holds(s.pcs[t]) <==> s.holder == Some(t);
    var p := s.pcs[t];
    if !Empty(s.ring) && |p.got| < p.sz {
      TakeRemoves(s.ring);
      TakenNotFull(s.ring);
      TakeOne(s, t, Take(s.ring), s.ring.buf[s.ring.start]);
    } else {
      FinishTake(s, s', t);
    }
  }

  lemma FinishTake(s: State, s': State, t: nat)
    requires t < |s.pcs| && Inv(s) && Step(s, s', t) && s.pcs[t].DeqTake?
    requires !(!Empty(s.ring) && |s.pcs[t].got| < s.pcs[t].sz)
    ensures Inv(s')
  {
    assert Holds(s.pcs[t]) <==> s.holder == Some(t);
    FinishLive(s, s', t);
    FinishBooks(s, s', t);
  }

  lemma FinishLive(s: State, s': State, t: nat)
    requires t < |s.pcs| == |s.given| && Live(s) && Step(s, s', t) && s.pcs[t].DeqTake? && s.holder == Some(t)
    requires !(!Empty(s.ring) && |s.pcs[t].got| < s.pcs[t].sz)
    ensures Live(s')
  {
    hide Contents, Full, Empty, FirstOf;
    EmptyIff(s.ring);
    FirstTaken(s.pcs[t].seen, s.pcs[t].sz, s.pcs[t].got, Contents(s.ring));
  }

  lemma FinishBooks(s: State, s': State, t: nat)
    requires t < |s.pcs| && Inv(s) && Step(s, s', t) && s.pcs[t].DeqTake? && s.holder == Some(t)
    requires !(!Empty(s.ring) && |s.pcs[t].got| < s.pcs[t].sz)
    ensures RingOk(s'.ring) && Books(s')
  {
    hide Contents, Full, Empty, Flat, PutBy, NoLostWakeup, Knows;
    FlatSnoc(s.results, s.pcs[t].got);
  }

  lemma FirstTaken(seen: seq<Item>, sz: nat, got: seq<Item>, rest: seq<Item>)
    requires seen == got + rest && |got| <= sz && (rest == [] || |got| == sz)
    ensures got == FirstOf(seen, sz)
  {
  }

  lemma TakeOne(s: State, t: nat, r: Ring, x: Item)
    requires t < |s.pcs| && Inv(s) && s.pcs[t].DeqTake? && s.holder == Some(t) && |s.pcs[t].got| < s.pcs[t].sz
    requires RingOk(r) && |r.buf| == |s.ring.buf| && Contents(s.ring) == [x] + Contents(r) && !Full(r) && !Empty(s.ring)
    ensures var p := DeqTake(s.pcs[t].sz, s.pcs[t].got + [x], s.pcs[t].seen, s.pcs[t].wasFull);
      Inv(Goto(s, t, p).(ring := r, taken := s.taken + [x]))
  {
    hide Contents, Full, Empty, Flat, PutBy;
    assert s.pcs[t].got + ([x] + Contents(r)) == s.pcs[t].got + [x] + Contents(r);
    assert s.taken + ([x] + Contents(r)) == s.taken + [x] + Contents(r);
    assert Flat(s.results) + s.pcs[t].got + [x] == Flat(s.results) + (s.pcs[t].got + [x]);
  }

  lemma TakenNotFull(r: Ring)
    requires RingOk(r) && 2 <= |r.buf| && !Empty(r)
    ensures !Full(Take(r))
  {
  }

  // ---- runs

  /** A run of any length: thread who[i] makes step i. */
  ghost predicate Run(states: seq<State>, who: seq<nat>) {
    && |states| == |who| + 1 && Init(states[0])
    && forall i :: 0 <= i < |who| ==>
         && RingOk(states[i].ring) && who[i] < |states[i].pcs| == |states[i].given|
         && Step(states[i], states[i + 1], who[i])
  }

  lemma {:induction false} RunKeepsInv(states: seq<State>, who: seq<nat>, i: nat)
    requires Run(states, who) && i < |states|
    ensures Inv(states[i])
  {
    if i == 0 {
      InitInv(states[0]);
    } else {
      RunKeepsInv(states, who, i - 1);
      StepKeepsInv(states[i - 1], states[i], who[i - 1]);
    }
  }

  /** Whenever the mutex is free: a producer sleeps only while the ring is full, a consumer only while it
      is empty, so never both kinds sleep; and what was enqueued is what was dequeued followed by what the
      ring holds. */
  lemma WheneverFree(states: seq<State>, who: seq<nat>, i: nat)
    requires Run(states, who) && i < |states| && states[i].holder == None
    ensures var s := states[i];
      && RingOk(s.ring) && s.put == s.taken + Contents(s.ring)
      && (forall t :: 0 <= t < |s.pcs| && s.pcs[t].EnqWait? ==> |Contents(s.ring)| == |s.ring.buf| - 1)
      && (forall t :: 0 <= t < |s.pcs| && s.pcs[t].DeqWait? ==> Contents(s.ring) == [])
      && !(exists t, u :: 0 <= t < |s.pcs| && 0 <= u < |s.pcs| && s.pcs[t].EnqWait? && s.pcs[u].DeqWait?)
  {
    RunKeepsInv(states, who, i);
    EmptyIff(states[i].ring);
    FullIff(states[i].ring);
  }

  /** The results of all dequeue calls, put one after the other, are what was enqueued, up to what a
      running call has in hand and what the ring holds: each item is returned by one call and in order.
      A dequeue that was not late returns what was in the ring when it began, up to `sz` items and at least
      one, a stretch of that sequence. */
  lemma FirstInFirstOut(states: seq<State>, who: seq<nat>, i: nat, t: nat)
    requires Run(states, who) && i < |states| && t < |states[i].pcs|
    ensures var s := states[i];
      RingOk(s.ring) && s.put == Flat(s.results) + InHand(s) + Contents(s.ring)
    ensures var p := states[i].pcs[t];
      && (p.Done? && !p.late ==> p.got == FirstOf(p.seen, p.sz))
      && (p.Done? && !p.late && 0 < p.sz ==> 1 <= |p.got| <= p.sz)
      && (p.Done? && p.got != [] ==> p.got in states[i].results && StretchOf(p.got, states[i].put))
  {
    RunKeepsInv(states, who, i);
    var s := states[i];
    var p := s.pcs[t];
    if p.Done? && p.got != [] {
      var k :| 0 <= k < |s.results| && s.results[k] == p.got;
      ResultIsStretch(s.results, k, InHand(s) + Contents(s.ring));
      assert s.put == Flat(s.results) + (InHand(s) + Contents(s.ring));
    }
  }

  /** Nothing is lost, repeated or reordered on the way in: the items that the enqueue calls of a thread
      were given, one call after the other, are those it has put in the ring, in order, and what is left of
      a call under way. */
  lemma CallsEnqueueAll(states: seq<State>, who: seq<nat>, i: nat, t: nat)
    requires Run(states, who) && i < |states| && t < |states[i].pcs|
    ensures var s := states[i];
      && |s.put| == |s.owners| && |s.given| == |s.pcs|
      && s.given[t] == PutBy(s.put, s.owners, t) + RestOf(s.pcs[t])
      && (s.pcs[t].Idle? || s.pcs[t].Done? ==> s.given[t] == PutBy(s.put, s.owners, t))
  {
    RunKeepsInv(states, who, i);
  }

  ghost predicate StretchOf(r: seq<Item>, s: seq<Item>) {
    exists before, after :: s == before + r + after
  }

  lemma {:induction false} ResultIsStretch(rs: seq<seq<Item>>, k: nat, rest: seq<Item>)
    requires k < |rs|
    ensures StretchOf(rs[k], Flat(rs) + rest)
  {
    var n := |rs| - 1;
    var front := Flat(rs[..n]);
    if k == n {
      assert Flat(rs) + rest == front + rs[k] + rest;
    } else {
      ResultIsStretch(rs[..n], k, rs[n] + rest);
      assert front + (rs[n] + rest) == Flat(rs) + rest;
    }
  }

  /** The mutex never blocks for good: as long as some thread is inside a call and not asleep, some
      such thread can make a step. */
  lemma SomeThreadCanStep(s: State, t: nat) returns (u: nat, s': State)
    requires Inv(s) && t < |s.pcs| && Awake(s.pcs[t])
    ensures u < |s.pcs| && Awake(s.pcs[u]) && Step(s, s', u)
  {
    u := if s.holder.Some? && s.holder.value < |s.pcs| then s.holder.value else t;
    s' := Moved(s, u);
  }

  /** Outside a call a thread may begin any call, and a timed wait may end with or without a timeout. */
  lemma CallsAndTimeouts(s: State, t: nat, items: seq<Item>, sz: nat, timed: bool)
    requires Inv(s) && t < |s.pcs|
    ensures s.pcs[t].Idle? ==>
      && Step(s, Goto(s, t, EnqLock(items)).(given := s.given[t := s.given[t] + items]), t)
      && Step(s, Goto(s, t, DeqLock(sz, timed)), t)
    ensures s.pcs[t] == DeqWait(sz, timed) ==>
      Step(s, Goto(s, t, DeqLock(sz, timed)), t) && (timed ==> Step(s, Goto(s, t, TimedOut), t))
  {
    hide Inv;
  }

  predicate Awake(p: Pc) {
    !p.Idle? && !p.Done? && !p.EnqWait? && !p.DeqWait?
  }

  /** The step of an awake thread that holds the mutex or can have it. */
  ghost function Moved(s: State, t: nat): (s': State)
    requires t < |s.pcs| == |s.given| && RingOk(s.ring) && Awake(s.pcs[t]) && (s.holder == None || Holds(s.pcs[t]))
    ensures Step(s, s', t)
  {
    match s.pcs[t]
    case EnqLock(rest) => Goto(s, t, EnqHold(rest)).(holder := Some(t))
    case DeqLock(sz, timed) => Goto(s, t, DeqHold(sz, timed)).(holder := Some(t))
    case TimedOut => Goto(s, t, OutHold).(holder := Some(t))
    case EnqHold(rest) =>
      if rest == [] then Goto(s, t, Done(0, [], [], false)).(holder := None)
      else if Full(s.ring) then Goto(s, t, EnqWait(rest)).(holder := None)
      else
        Goto(s, t, EnqStored(rest[1..], Empty(s.ring))).(
          ring := Put(s.ring, rest[0]), put := s.put + [rest[0]], owners := s.owners + [t])
    case EnqStored(rest, wasEmpty) =>
      s.(pcs := (if wasEmpty then Broadcast(s.pcs, WakeEmpty) else s.pcs)[t := EnqHold(rest)])
    case DeqHold(sz, timed) =>
      if Empty(s.ring) then Goto(s, t, DeqWait(sz, timed)).(holder := None)
      else Goto(s, t, DeqTake(sz, [], Contents(s.ring), Full(s.ring)))
    case DeqTake(sz, got, seen, wasFull) =>
      if !Empty(s.ring) && |got| < sz then
        var x := s.ring.buf[s.ring.start];
        Goto(s, t, DeqTake(sz, got + [x], seen, wasFull)).(ring := Take(s.ring), taken := s.taken + [x])
      else
        var pcs := if wasFull then Broadcast(s.pcs, WakeFull) else s.pcs;
        s.(pcs := pcs[t := Done(sz, got, seen, false)], holder := None, results := s.results + [got])
    case OutHold => Goto(s, t, Done(0, [], [], true)).(holder := None)
  }
}
