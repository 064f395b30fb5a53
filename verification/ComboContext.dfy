/** `combo.c`: a context that starts with the hole list and, once a datagram has taken more
    packets than a well-behaved sender would use, replays them into an in-buffer context and
    goes on with that. */
module ComboContext {
  import opened Fragments
  import L = HoleListContext
  import B = InBufferContext

  /** Packets after which the context is promoted. */
  const PROMOTE_AFTER := 65535 / 1514

  /** Fragments that are not final end on a multiple of 8 (section 3.2 of RFC 791). */
  ghost predicate OctetsOf8(h: seq<Packet>) {
    forall i :: 0 <= i < |h| && Accepted(h[i]) && h[i].moreFrags ==> (Last(h[i]) + 1) % 8 == 0
  }

  ghost predicate AllInReach(h: seq<Packet>) {
    forall i :: 0 <= i < |h| ==> B.InReach(h[i])
  }

  /** The packet that set the limit also brought the last, partial block. */
  lemma {:induction false} TailBlockCovered(h: seq<Packet>, x: int)
    requires Limit(h) < MAX16 && Limit(h) / 8 * 8 <= x <= Limit(h)
    ensures B.BufferCovered(h, x)
  {
    var g, p := h[..|h| - 1], h[|h| - 1];
    assert h == g + [p];
    LimitSnoc(g, p);
    B.BufferCoveredSnoc(g, p, x);
    if !(Accepted(p) && Restricts(p, Limit(g))) {
      TailBlockCovered(g, x);
    }
  }

  /** The in-buffer context never takes a byte that did not come. */
  lemma {:induction false} BufferSound(h: seq<Packet>, x: int)
    requires B.BufferCovered(h, x)
    ensures Covered(h, x)
  {
    if h != [] {
      var g, p := h[..|h| - 1], h[|h| - 1];
      assert h == g + [p];
      B.BufferCoveredSnoc(g, p, x);
      CoveredSnoc(g, p, x);
      if B.BufferCovered(g, x) {
        BufferSound(g, x);
      }
    }
  }

  /** `p` brings the whole 8-byte block of `x`, as far as the block reaches into a datagram that
      ends at `m`. */
  predicate CarriesBlock(p: Packet, x: int, m: int) {
    Accepted(p) && p.fragOff <= x && (x / 8 * 8 + 7 <= Last(p) || m <= Last(p))
  }

  ghost predicate BlockCovered(h: seq<Packet>, x: int, m: int) {
    exists i :: 0 <= i < |h| && CarriesBlock(h[i], x, m)
  }

  lemma BlockCoveredSnoc(h: seq<Packet>, p: Packet, x: int, m: int)
    ensures BlockCovered(h + [p], x, m) <==> BlockCovered(h, x, m) || CarriesBlock(p, x, m)
  {
    if BlockCovered(h, x, m) {
      var i :| 0 <= i < |h| && CarriesBlock(h[i], x, m);
      assert (h + [p])[i] == h[i];
    }
    if CarriesBlock(p, x, m) {
      assert (h + [p])[|h|] == p;
    }
  }

  /** What the in-buffer context has of a history, said without its order: it takes a byte exactly
      when one packet brought the byte's whole block, although it rounds the ends of packets down to
      a multiple of 8 as long as they do not lower the limit. */
  lemma {:induction false} BufferCoverage(h: seq<Packet>, x: int)
    requires 0 <= x <= Limit(h)
    ensures B.BufferCovered(h, x) <==> BlockCovered(h, x, Limit(h))
  {
    hide B.BufferCovered, BlockCovered, Limit;
    if h == [] {
      NothingCovered(x);
    } else {
      var g, p := h[..|h| - 1], h[|h| - 1];
      assert h == g + [p];
      LimitSnoc(g, p);
      B.BufferCoveredSnoc(g, p, x);
      BlockCoveredSnoc(g, p, x, Limit(h));
      BufferCoverage(g, x);
      if Accepted(p) {
        if Restricts(p, Limit(g)) {
          LowerLimit(g, p, x, Limit(g));
        } else {
          RoundedBlock(g, p, x);
        }
      }
    }
  }

  lemma NothingCovered(x: int)
    ensures !B.BufferCovered([], x) && !BlockCovered([], x, Limit([]))
  {
  }

  /** A packet that lowers the limit to its own end brings the block that it cuts short. */
  lemma LowerLimit(g: seq<Packet>, p: Packet, x: int, m: int)
    requires Accepted(p) && 0 <= x <= Last(p) < m
    ensures CarriesBlock(p, x, Last(p)) <==> p.fragOff <= x
    ensures BlockCovered(g, x, m) ==> BlockCovered(g, x, Last(p))
    ensures BlockCovered(g, x, Last(p)) ==> BlockCovered(g, x, m) || p.fragOff <= x
  {
    if BlockCovered(g, x, m) {
      var i :| 0 <= i < |g| && CarriesBlock(g[i], x, m);
      assert CarriesBlock(g[i], x, Last(p));
    }
    if BlockCovered(g, x, Last(p)) && x < p.fragOff {
      var i :| 0 <= i < |g| && CarriesBlock(g[i], x, Last(p));
      assert CarriesBlock(g[i], x, m);
    }
  }

  /** What rounding loses lies in the block that holds the limit, which is there already. */
  lemma RoundedBlock(g: seq<Packet>, p: Packet, x: int)
    requires Accepted(p) && !Restricts(p, Limit(g)) && 0 <= x <= Limit(g)
    ensures p.fragOff <= x <= B.RoundedLast(p, Limit(g)) ==> CarriesBlock(p, x, Limit(g))
    ensures CarriesBlock(p, x, Limit(g)) ==> p.fragOff <= x <= B.RoundedLast(p, Limit(g)) || B.BufferCovered(g, x)
  {
    hide Limit, B.BufferCovered;
    if CarriesBlock(p, x, Limit(g)) && B.RoundedLast(p, Limit(g)) < x {
      TailBlockCovered(g, x);
    }
  }

  /** The two kinds of context differ on a byte exactly when it came, but no packet brought its block
      whole. */
  lemma CoverageDiffers(h: seq<Packet>, x: int)
    requires 0 <= x <= Limit(h)
    ensures B.BufferCovered(h, x) ==> Covered(h, x)
    ensures (B.BufferCovered(h, x) <==> Covered(h, x)) <==> (Covered(h, x) ==> BlockCovered(h, x, Limit(h)))
  {
    BufferCoverage(h, x);
    if B.BufferCovered(h, x) {
      BufferSound(h, x);
    }
  }

  ghost predicate BlocksComplete(h: seq<Packet>) {
    forall x :: 0 <= x <= Limit(h) ==> BlockCovered(h, x, Limit(h))
  }

  /** The in-buffer context is complete exactly when every block was brought whole by one packet. */
  lemma BufferCompleteIff(h: seq<Packet>)
    ensures B.BufferComplete(h) <==> BlocksComplete(h)
    ensures (B.BufferComplete(h) <==> Complete(h)) <==> (Complete(h) ==> BlocksComplete(h))
  {
    hide B.BufferCovered, Covered, BlockCovered, Limit;
    forall x | 0 <= x <= Limit(h)
      ensures B.BufferCovered(h, x) <==> BlockCovered(h, x, Limit(h))
      ensures B.BufferCovered(h, x) ==> Covered(h, x)
    {
      BufferCoverage(h, x);
      CoverageDiffers(h, x);
    }
  }

  /** With fragments that end on multiples of 8 unless they are final, the two kinds of context agree
      on every byte of the datagram. */
  lemma SameCoverage(h: seq<Packet>, x: int)
    requires OctetsOf8(h) && 0 <= x <= Limit(h)
    ensures B.BufferCovered(h, x) <==> Covered(h, x)
  {
    hide B.BufferCovered, Limit, CarriesBlock;
    CoverageDiffers(h, x);
    if Covered(h, x) {
      var i :| 0 <= i < |h| && Carries(h[i], x);
      if !h[i].moreFrags {
        LimitBelow(h, i);
      }
      OctetsCarry(h[i], x, Limit(h));
    }
  }

  lemma OctetsCarry(p: Packet, x: int, m: int)
    requires Carries(p, x) && if p.moreFrags then (Last(p) + 1) % 8 == 0 else m <= Last(p)
    ensures CarriesBlock(p, x, m)
  {
  }

  /** The limit is at or below the end of every final packet. */
  lemma {:induction false} LimitBelow(h: seq<Packet>, i: nat)
    requires i < |h| && Accepted(h[i]) && !h[i].moreFrags
    ensures Limit(h) <= Last(h[i])
  {
    if i < |h| - 1 {
      LimitBelow(h[..|h| - 1], i);
    }
  }

  lemma SameCompleteness(h: seq<Packet>)
    requires OctetsOf8(h)
    ensures B.BufferComplete(h) <==> Complete(h)
  {
    forall x | 0 <= x <= Limit(h) ensures B.BufferCovered(h, x) <==> Covered(h, x) {
      SameCoverage(h, x);
    }
  }

  /** Without that rule the two contexts differ: three bytes that are not final are data to
      the hole list and nothing to the buffer. */
  lemma RoundingLosesShortTail() returns (h: seq<Packet>)
    ensures AllInReach(h) && !OctetsOf8(h)
    ensures Covered(h, 0) && 0 <= Limit(h) && !B.BufferCovered(h, 0)
  {
    var p: Packet := RawPacket(37, 20, 23, 0, true, [1, 2, 3]);
    h := [p];
    assert Carries(h[0], 0);
    assert h[..0] == [];
  }

  lemma BufferCompleteSound(h: seq<Packet>)
    requires AllInReach(h) && B.BufferComplete(h)
    ensures Complete(h) && Limit(h) < MAX16
  {
    hide Covered, Limit;
    forall x | 0 <= x <= Limit(h) ensures Covered(h, x) && x <= 65526 {
      BufferSound(h, x);
      CoveredInReach(h, x);
    }
    LimitIsNonNegative(h);
    assert Covered(h, Limit(h));
  }

  lemma LimitIsNonNegative(h: seq<Packet>)
    ensures 0 <= Limit(h)
  {
  }

  lemma CoveredInReach(h: seq<Packet>, x: int)
    requires AllInReach(h) && Covered(h, x)
    ensures x <= 65526
  {
    var i :| 0 <= i < |h| && Carries(h[i], x);
    assert B.InReach(h[i]);
  }

  /** Fragments of one datagram stay inside the buffer and copy cleanly. */
  lemma DatagramFits(h: seq<Packet>, d: seq<Byte>)
    requires IsDatagram(d) && AllOf(h, d)
    ensures AllInReach(h)
    ensures forall i :: 0 <= i < |h| ==> L.Copyable(h[i], |d| - 1) && L.Clean(h[i], |d| - 1)
  {
    forall i | 0 <= i < |h| ensures B.InReach(h[i]) && L.Copyable(h[i], |d| - 1) && L.Clean(h[i], |d| - 1) {
      assert FragmentOf(h[i], d);
    }
  }

  class Combo {
    var rfcActive: bool
    var packetCount: int
    var list: L.HoleList
    var buffer: B.InBuffer?
    ghost var history: seq<Packet>

    ghost predicate Valid()
      reads this, list, buffer, if buffer == null then {} else {buffer.pkt}
    {
      && AllInReach(history)
      && packetCount == |history|
      && if rfcActive then buffer != null && buffer.Valid() && buffer.history == history
         else list.Valid() && list.packets == history
    }

    lemma Counted()
      requires Valid()
      ensures packetCount == |history|
    {
    }

    constructor ()
      ensures Valid() && history == [] && !rfcActive && buffer == null && fresh(list)
    {
      rfcActive, packetCount, buffer, history := false, 0, null, [];
      list := new L.HoleList();
    }

    /** Replays the packet list into a new in-buffer context, unless memory runs out. */
    method Promote(memory: bool)
      requires Valid()
      modifies this`rfcActive, this`buffer
      ensures Valid()
      ensures rfcActive == (old(rfcActive) || memory)
      ensures buffer == old(buffer) || (buffer != null && fresh(buffer) && fresh(buffer.pkt))
    {
      hide B.Holds, B.HolesMatch, B.DataPresent, L.HolesMatch, L.Owners, L.Splice, Covered, Complete,
           B.BufferComplete, B.BufferCovered, Limit;
      if rfcActive || !memory {
        return;
      }
      var b := new B.InBuffer();
      for i := 0 to |list.packets|
        invariant b.Valid() && fresh(b) && fresh(b.pkt)
        invariant b.history == list.packets[..i]
      {
        assert B.InReach(history[i]);
        b.Add(list.packets[i]);
        assert list.packets[..i + 1] == list.packets[..i] + [list.packets[i]];
      }
      assert list.packets[..|list.packets|] == list.packets;
      buffer, rfcActive := b, true;
    }

    method Add(p: Packet, memory: bool)
      requires Valid() && B.InReach(p)
      modifies this, list, buffer, if buffer == null then {} else {buffer.pkt}
      ensures Valid() && history == old(history) + [p] && list == old(list)
      ensures buffer == old(buffer) || (buffer != null && fresh(buffer) && fresh(buffer.pkt))
      ensures rfcActive <==> old(rfcActive) || (memory && old(packetCount) > 43)
    {
      hide B.Holds, B.HolesMatch, B.DataPresent, L.HolesMatch, L.Owners, L.Splice, Covered, Complete,
           B.BufferComplete, B.BufferCovered, Limit;
      if !rfcActive && packetCount > PROMOTE_AFTER {
        Promote(memory);
      }
      packetCount := packetCount + 1;
      if rfcActive {
        buffer.Add(p);
      } else {
        list.Add(p);
      }
      history := history + [p];
    }

    /** With whole blocks the answer does not depend on whether the context was promoted, nor when. */
    method IsComplete() returns (complete: bool)
      requires Valid()
      ensures complete <==> if rfcActive then BlocksComplete(history) else Complete(history)
      ensures complete ==> Complete(history)
      ensures OctetsOf8(history) ==> (complete <==> Complete(history))
    {
      hide B.Holds, B.HolesMatch, B.DataPresent, L.HolesMatch, L.Owners, L.Splice, Covered, Complete,
           B.BufferComplete, B.BufferCovered, Limit;
      if rfcActive {
        complete := buffer.IsComplete();
        BufferCompleteIff(history);
        if complete {
          BufferCompleteSound(history);
        }
        if OctetsOf8(history) {
          SameCompleteness(history);
        }
      } else {
        complete := list.IsComplete();
      }
    }

    /** Whatever became of the context, fragments of `d` reassemble to `d`. */
    method Reassemble(fill: nat -> Byte, ghost d: seq<Byte>) returns (complete: bool, pay: seq<Byte>)
      requires Valid() && IsDatagram(d) && AllOf(history, d)
      ensures complete <==> if rfcActive then BlocksComplete(history) else Complete(history)
      ensures complete ==> pay == d && Complete(history)
      ensures OctetsOf8(history) ==> (complete <==> Complete(history))
    {
      hide B.Holds, B.HolesMatch, B.DataPresent, L.HolesMatch, L.Owners, L.Splice, B.BufferComplete, B.BufferCovered;
      hide BlocksComplete, Limit;
      pay := [];
      complete := IsComplete();
      if !complete {
        return;
      }
      CompleteKnowsLength(history, d);
      DatagramFits(history, d);
      if rfcActive {
        BufferCompleteIff(history);
        pay := buffer.Reassemble();
      } else {
        assert Covered(history, 0);
        pay := list.Reassemble(fill);
      }
      PayloadIsDatagram(history, d, pay);
    }
  }
}
