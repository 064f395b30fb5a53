/** Ring buffers with two indices, as `queue.c` and `rballoc.c` keep them: one slot stays free, so
    that equal indices mean an empty ring. */
module Rings {
  type Item = int

  /** What a slot holds after its item was taken. */
  const NIL: Item := 0

  datatype Ring = Ring(buf: seq<Item>, start: nat, end: nat)

  ghost predicate RingOk(r: Ring) {
    r.start < |r.buf| && r.end < |r.buf|
  }

  predicate Empty(r: Ring) {
    r.start == r.end
  }

  predicate Full(r: Ring) {
    var e := r.end + 1;
    r.start == if e >= |r.buf| then 0 else e
  }

  function Bump(i: nat, n: nat): nat {
    if i + 1 >= n then 0 else i + 1
  }

  function Put(r: Ring, x: Item): (r': Ring)
    requires r.end < |r.buf|
  {
    Ring(r.buf[r.end := x], r.start, Bump(r.end, |r.buf|))
  }

  function Take(r: Ring): (r': Ring)
    requires r.start < |r.buf|
  {
    Ring(r.buf[r.start := NIL], Bump(r.start, |r.buf|), r.end)
  }

  /** The queued items, oldest first. */
  ghost function Contents(r: Ring): seq<Item>
    requires RingOk(r)
  {
    if r.start <= r.end then r.buf[r.start..r.end] else r.buf[r.start..] + r.buf[..r.end]
  }

  lemma EmptyIff(r: Ring)
    requires RingOk(r)
    ensures Empty(r) <==> Contents(r) == []
  {
  }

  /** One slot always stays free. */
  lemma FullIff(r: Ring)
    requires RingOk(r)
    ensures Full(r) <==> |Contents(r)| == |r.buf| - 1
  {
  }

  lemma PutAppends(r: Ring, x: Item)
    requires RingOk(r) && !Full(r)
    ensures RingOk(Put(r, x)) && Contents(Put(r, x)) == Contents(r) + [x]
  {
  }

  /** An item put into a full ring makes the ring look empty. */
  lemma PutOnFull(r: Ring, x: Item)
    requires RingOk(r) && Full(r)
    ensures RingOk(Put(r, x)) && Contents(Put(r, x)) == []
  {
  }

  lemma TakeRemoves(r: Ring)
    requires RingOk(r) && !Empty(r)
    ensures RingOk(Take(r)) && Contents(r) == [r.buf[r.start]] + Contents(Take(r))
  {
  }

  /** The ring in memory. */
  class RingBuffer {
    const buf: array<Item>
    var start: nat
    var end: nat

    ghost function View(): Ring
      reads this, buf
    {
      Ring(buf[..], start, end)
    }

    constructor (bufsiz: nat)
      requires bufsiz >= 1
      ensures fresh(buf) && RingOk(View()) && Contents(View()) == []
    {
      buf := new Item[bufsiz];
      start, end := 0, 0;
    }

    method IsEmpty() returns (b: bool)
      ensures b == Empty(View())
    {
      b := start == end;
    }

    method IsFull() returns (b: bool)
      ensures b == Full(View())
    {
      var e := end + 1;
      if e >= buf.Length {
        e := 0;
      }
      b := start == e;
    }

    /** Appends, unless the ring is full: then it looks empty afterwards. */
    method Append(x: Item)
      requires RingOk(View())
      modifies this`end, buf
      ensures View() == Put(old(View()), x)
      ensures RingOk(View()) && Contents(View()) == if old(Full(View())) then [] else old(Contents(View())) + [x]
    {
      if Full(View()) {
        PutOnFull(View(), x);
      } else {
        PutAppends(View(), x);
      }
      buf[end] := x;
      end := end + 1;
      if end >= buf.Length {
        end := 0;
      }
    }

    method Remove() returns (x: Item)
      requires RingOk(View()) && !Empty(View())
      modifies this`start, buf
      ensures View() == Take(old(View()))
      ensures RingOk(View()) && old(Contents(View())) == [x] + Contents(View())
    {
      TakeRemoves(View());
      x := buf[start];
      buf[start] := NIL;
      start := start + 1;
      if start >= buf.Length {
        start := 0;
      }
    }
  }
}
