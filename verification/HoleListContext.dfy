/** `ipreass.c`: reassembly with a sorted hole list whose nodes live inside the received
    packets. The intrusive lists are the fields `packets` and `holes`; `owner[i]` is the
    packet whose embedded node carries hole `i`, or CTX for the context's own node. */
module HoleListContext {
  import opened Fragments
  import opened Holes

  const CTX := -1

  ghost predicate Distinct(s: seq<int>) {
    forall i, j :: 0 <= i < j < |s| ==> s[i] != s[j]
  }

  /** `s` with its element `k` replaced by the elements `r`: unlinking, updating and
      splitting a node. */
  function Splice<T>(s: seq<T>, k: nat, r: seq<T>): seq<T>
    requires k < |s|
  {
    s[..k] + r + s[k + 1..]
  }

  lemma SpliceAt<T>(a: seq<T>, b: seq<T>, r: seq<T>)
    requires b != []
    ensures Splice(a + b, |a|, r) == a + r + b[1..]
    ensures |Splice(a + b, |a|, r)| == |a| + |b| - 1 + |r|
  {
  }

  lemma HoleNonEmpty(hs: seq<Hole>, k: nat)
    requires Ascending(hs) && k < |hs|
    ensures hs[k].first <= hs[k].last
  {
  }

  /** Node owners: one per hole, no node linked twice, none of a packet still to come. */
  ghost predicate Owners(owner: seq<int>, n: int, bound: int) {
    && |owner| == n
    && Distinct(owner)
    && forall i :: 0 <= i < |owner| ==> CTX <= owner[i] < bound
  }

  lemma OwnerUnlinked(owner: seq<int>, n: int, bound: int, k: nat)
    requires Owners(owner, n, bound) && k < n
    ensures |owner| == n && Owners(Splice(owner, k, []), n - 1, bound)
    ensures forall x :: x in Splice(owner, k, []) ==> x in owner
  {
    var s := Splice(owner, k, []);
    assert forall i :: 0 <= i < |s| ==> s[i] == owner[if i < k then i else i + 1];
  }

  lemma OwnerLinked(owner: seq<int>, n: int, bound: int, k: nat, self: int)
    requires Owners(owner, n, bound) && k < n && self !in owner && CTX <= self < bound
    ensures Owners(Splice(owner, k, [self, owner[k]]), n + 1, bound)
  {
    var s := Splice(owner, k, [self, owner[k]]);
    assert forall i :: 0 <= i < |s| ==> s[i] == if i < k then owner[i] else if i == k then self else owner[i - 1];
  }

  /** The hole list after one packet, said without walking it. */
  function HolesAfter(hs: seq<Hole>, m: int, p: Packet): seq<Hole> {
    if !Accepted(p) then hs
    else Cut(if Restricts(p, m) then Clip(hs, Last(p)) else hs, p.fragOff, Last(p))
  }

  /** The holes are the missing bytes of a history. */
  ghost predicate HolesMatch(hs: seq<Hole>, h: seq<Packet>) {
    && Ascending(hs)
    && forall x :: InHoles(hs, x) <==> Missing(h, x)
  }

  /** One packet keeps the hole list equal to the missing set. */
  lemma HolesAfterMatch(hs: seq<Hole>, h: seq<Packet>, p: Packet)
    requires HolesMatch(hs, h)
    ensures HolesMatch(HolesAfter(hs, Limit(h), p), h + [p])
  {
    LimitSnoc(h, p);
    var m := Limit(h);
    var after := HolesAfter(hs, m, p);
    forall x ensures InHoles(after, x) <==> Missing(h + [p], x) {
      CoveredSnoc(h, p, x);
      if Accepted(p) {
        var clipped := if Restricts(p, m) then Clip(hs, Last(p)) else hs;
        ClipMeaning(hs, Last(p), x);
        CutMeaning(clipped, p.fragOff, Last(p), x);
        assert InHoles(hs, x) <==> Missing(h, x);
      } else {
        assert InHoles(hs, x) <==> Missing(h, x);
      }
    }
    if Accepted(p) {
      ClipKeepsOrder(hs, Last(p));
      CutKeepsOrder(if Restricts(p, m) then Clip(hs, Last(p)) else hs, p.fragOff, Last(p));
    }
  }

  /** No hole is left exactly when every byte up to the limit has come. */
  lemma EmptyIffComplete(hs: seq<Hole>, h: seq<Packet>)
    requires HolesMatch(hs, h)
    ensures hs == [] <==> Complete(h)
  {
    if hs != [] {
      assert InHole(hs[0], hs[0].first);
      assert InHoles(hs, hs[0].first);
    } else {
      forall x | 0 <= x <= Limit(h) ensures Covered(h, x) {
        assert !InHoles(hs, x);
      }
    }
  }

  // ---- reassembly

  /** How many of the packet's bytes reassembly copies: first + len - 1 > limit cuts the tail. */
  function CopyLen(p: Packet, m: int): int {
    var len := p.totalLen - p.hdrLen;
    if p.fragOff + len - 1 > m then 1 + m - p.fragOff else len
  }

  /** The copy loop stays inside the packet and inside the new buffer. The source relies on it without a
      check: the subtraction in CopyLen is unsigned there. */
  ghost predicate Copyable(p: Packet, m: int) {
    0 <= CopyLen(p, m) <= |p.payload| && p.fragOff + CopyLen(p, m) <= m + 1
  }

  /** Nothing is copied from a packet that failed validation, which is in the list all the same. */
  ghost predicate Clean(p: Packet, m: int) {
    Accepted(p) || CopyLen(p, m) == 0
  }

  /** Byte `x` of the reassembled payload: that of the last packet of the list that has it. */
  function Copied(packets: seq<Packet>, m: nat, fill: nat -> Byte, x: nat): Byte
    requires forall i :: 0 <= i < |packets| ==> Copyable(packets[i], m)
  {
    if packets == [] then fill(x)
    else
      var p := packets[|packets| - 1];
      assert Copyable(p, m);
      if p.fragOff <= x < p.fragOff + CopyLen(p, m) then p.payload[x - p.fragOff]
      else Copied(packets[..|packets| - 1], m, fill, x)
  }

  /** If no packet that failed validation is copied, what was carried is there. */
  lemma {:induction false} CopiedIsDelivered(packets: seq<Packet>, m: nat, fill: nat -> Byte, x: nat)
    requires forall i :: 0 <= i < |packets| ==> Copyable(packets[i], m) && Clean(packets[i], m)
    requires x <= m && Covered(packets, x)
    ensures Delivered(packets, x, Copied(packets, m, fill, x))
  {
    var g, p := packets[..|packets| - 1], packets[|packets| - 1];
    assert packets == g + [p];
    CoveredSnoc(g, p, x);
    DeliveredSnoc(g, p, x, Copied(packets, m, fill, x));
    if !(p.fragOff <= x < p.fragOff + CopyLen(p, m)) {
      CopiedIsDelivered(g, m, fill, x);
    }
  }

  /** The copy loop of the reassemble functions: every packet of the list, in arrival order, over a
      new buffer. `fill` stands for the buffer's uninitialised contents. */
  method CopyPackets(packets: seq<Packet>, m: nat, fill: nat -> Byte) returns (pay: seq<Byte>)
    requires forall i :: 0 <= i < |packets| ==> Copyable(packets[i], m)
    ensures |pay| == m + 1 && forall x :: 0 <= x < |pay| ==> pay[x] == Copied(packets, m, fill, x)
    ensures (forall i :: 0 <= i < |packets| ==> Clean(packets[i], m)) ==>
      forall x :: 0 <= x < |pay| && Covered(packets, x) ==> Delivered(packets, x, pay[x])
  {
    hide Covered, Delivered, Clean;
    pay := seq<Byte>(m + 1, (x: nat) => fill(x));
    assert packets[..0] == [];
    for i := 0 to |packets|
      invariant |pay| == m + 1
      invariant forall x :: 0 <= x < |pay| ==> pay[x] == Copied(packets[..i], m, fill, x)
    {
      var p := packets[i];
      pay := Overwrite(pay, p.fragOff, p.payload[..CopyLen(p, m)]);
      assert packets[..i + 1][..i] == packets[..i];
    }
    assert packets[..|packets|] == packets;
    if forall i :: 0 <= i < |packets| ==> Clean(packets[i], m) {
      forall x | 0 <= x < |pay| && Covered(packets, x) ensures Delivered(packets, x, pay[x]) {
        CopiedIsDelivered(packets, m, fill, x);
      }
    }
  }

  class HoleList {
    var packets: seq<Packet>
    var holes: seq<Hole>
    var owner: seq<int>
    var mostRestrictingLast: int

    ghost predicate Valid()
      reads this
    {
      && mostRestrictingLast == Limit(packets)
      && HolesMatch(holes, packets)
      && Owners(owner, |holes|, |packets|)
    }

    constructor ()
      ensures Valid() && packets == [] && holes == [Hole(0, MAX16)] && owner == [CTX]
    {
      packets := [];
      holes := [Hole(0, MAX16)];
      owner := [CTX];
      mostRestrictingLast := MAX16;
      new;
      assert InHole(holes[0], holes[0].first);
      forall x ensures InHoles(holes, x) <==> Missing([], x) {
        assert InHole(holes[0], x) ==> InHoles(holes, x);
      }
    }

    method IsComplete() returns (complete: bool)
      requires Valid()
      ensures complete <==> Complete(packets)
    {
      EmptyIffComplete(holes, packets);
      complete := holes == [];
    }

    method Add(p: Packet)
      requires Valid()
      modifies this
      ensures Valid()
      ensures packets == old(packets) + [p]
      ensures holes == HolesAfter(old(holes), old(mostRestrictingLast), p)
    {
      LimitSnoc(packets, p);
      HolesAfterMatch(holes, packets, p);
      packets := packets + [p];
      if !Accepted(p) {
        return;
      }
      if !p.moreFrags && mostRestrictingLast > Last(p) {
        mostRestrictingLast := Last(p);
        ClipKeepsOrder(holes, mostRestrictingLast);
        ClipHoles();
      }
      CutHoles(p.fragOff, Last(p), |packets| - 1);
    }

    /** The first walk: drop or shorten the holes past the new limit. */
    method ClipHoles()
      requires Ascending(holes) && Owners(owner, |holes|, |packets|)
      modifies this`holes, this`owner
      ensures holes == Clip(old(holes), mostRestrictingLast)
      ensures Owners(owner, |holes|, |packets|) && forall x :: x in owner ==> x in old(owner)
    {
      hide Clip, Owners, Ascending, Splice;
      var m := mostRestrictingLast;
      ghost var hs, done, a, b := holes, 0, [], holes;
      ClipNone(hs, m);
      var k := 0;
      while k < |holes|
        invariant ClipWalk(hs, done, a, b, m) && holes == a + b && k == |a|
        invariant Owners(owner, |holes|, |packets|) && forall x :: x in owner ==> x in old(owner)
        decreases |hs| - done
      {
        var hole := holes[k];
        assert hole == b[0];
        var rest := if hole.first > m then [] else if hole.last > m then [Hole(hole.first, m)] else [hole];
        SpliceAt(a, b, rest);
        ClipWalkStep(hs, done, a, b, m);
        if rest == [] {
          OwnerUnlinked(owner, |holes|, |packets|, k);
          owner := Splice(owner, k, []);
        }
        holes := Splice(holes, k, rest);
        a, b, k, done := a + rest, b[1..], k + |rest|, done + 1;
      }
      ClipAll(hs, done, a, b, m);
    }

    /** The second walk: take the bytes f..l out of the holes. `self` is the packet that
        lends its node when a hole is split. */
    method CutHoles(f: int, l: int, self: int)
      requires Ascending(holes) && Owners(owner, |holes|, |packets|)
      requires 0 <= f <= l
      requires CTX < self < |packets| && self !in owner
      modifies this`holes, this`owner
      ensures holes == Cut(old(holes), f, l) && Owners(owner, |holes|, |packets|)
    {
      hide Cut, CutOne, Owners, Ascending, Splice;
      ghost var hs, done, a, b := holes, 0, [], holes;
      CutNone(hs, f, l);
      var k, stop := 0, false;
      while k < |holes| && !stop
        invariant holes == a + b
        invariant !stop ==> CutWalk(hs, done, a, b, f, l) && k == |a| && self !in owner
        invariant stop ==> a + b == Cut(hs, f, l)
        invariant Owners(owner, |holes|, |packets|)
        decreases |hs| - done, !stop
      {
        assert holes[k] == b[0] == hs[done];
        HoleNonEmpty(hs, done);
        var rest;
        rest, stop := CutNode(holes[k], f, l);
        SpliceAt(a, b, rest);
        CutWalkStep(hs, done, a, b, a + rest, b[1..], stop, f, l);
        Relink(k, rest, self);
        a, b, k, done := a + rest, b[1..], k + |rest|, done + 1;
      }
      if !stop {
        CutAll(hs, done, a, b, f, l);
      }
    }

    /** The case analysis of the walk: what is left of one hole, and whether the walk ends. */
    static method CutNode(hole: Hole, f: int, l: int) returns (rest: seq<Hole>, stop: bool)
      requires hole.first <= hole.last && f <= l
      ensures rest == CutOne(hole, f, l) && |rest| <= 2
      ensures |rest| == 2 ==> stop
      ensures stop <==> l <= hole.last
    {
      rest, stop := [hole], l <= hole.last;
      if l == hole.last {
        rest := if f <= hole.first then [] else [Hole(hole.first, f - 1)];
      } else if l < hole.last {
        if f > hole.first {
          rest := [Hole(hole.first, f - 1), Hole(l + 1, hole.last)];
        } else if l + 1 > hole.first {
          rest := [Hole(l + 1, hole.last)];
        }
      } else if f <= hole.first {
        rest := [];
      } else if hole.last > f - 1 {
        rest := [Hole(hole.first, f - 1)];
      }
    }

    /** Replaces hole `k` by what is left of it: unlinks its node, updates it in place, or
        links the packet's own node before it. */
    method Relink(k: nat, rest: seq<Hole>, self: int)
      requires k < |holes| && |rest| <= 2
      requires Owners(owner, |holes|, |packets|)
      requires CTX < self < |packets| && self !in owner
      modifies this`holes, this`owner
      ensures holes == Splice(old(holes), k, rest)
      ensures Owners(owner, |holes|, |packets|)
      ensures |rest| < 2 ==> forall x :: x in owner ==> x in old(owner)
    {
      if rest == [] {
        OwnerUnlinked(owner, |holes|, |packets|, k);
        owner := Splice(owner, k, []);
      } else if |rest| == 2 {
        OwnerLinked(owner, |holes|, |packets|, k, self);
        owner := Splice(owner, k, [self, owner[k]]);
      }
      holes := Splice(holes, k, rest);
    }

    /** The payload of the reassembled datagram. */
    method Reassemble(fill: nat -> Byte) returns (pay: seq<Byte>)
      requires Valid() && packets != []
      requires forall i :: 0 <= i < |packets| ==> Copyable(packets[i], mostRestrictingLast)
      ensures |pay| == mostRestrictingLast + 1
      ensures forall x :: 0 <= x < |pay| ==> pay[x] == Copied(packets, mostRestrictingLast, fill, x)
      ensures (forall i :: 0 <= i < |packets| ==> Clean(packets[i], mostRestrictingLast)) ==>
        forall x :: 0 <= x < |pay| && Covered(packets, x) ==> Delivered(packets, x, pay[x])
    {
      pay := CopyPackets(packets, mostRestrictingLast, fill);
    }
  }
}
