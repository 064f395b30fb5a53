/** `linux.c`: reassembly with a sorted list of trimmed fragments and a running byte count,
    `meat`. Nothing is ever searched for gaps: the datagram is taken to be complete when the
    count reaches the length. */
module FragmentQueue {
  import opened Fragments

  /** A queued packet with its `positive` record: the offset it now starts at and how many
      bytes of the packet lie before that. */
  datatype Item = Item(pkt: Packet, off: int, pulled: int) {
    function Len(): int { pkt.sz - pulled }
    function End(): int { off + Len() }
  }

  /** Headers and trimmed bytes are exactly what was pulled, and something is left. */
  ghost predicate ItemOk(it: Item) {
    && it.pkt.sz >= ETHER_HDR_LEN + it.pkt.hdrLen
    && it.pulled == ETHER_HDR_LEN + it.pkt.hdrLen + it.off - it.pkt.fragOff
    && it.pkt.fragOff <= it.off < it.End()
  }

  /** Sorted, disjoint, and ending by `len`. */
  ghost predicate Chain(s: seq<Item>, lo: int, len: int) {
    if s == [] then lo <= len
    else ItemOk(s[0]) && lo <= s[0].off && Chain(s[1..], s[0].End(), len)
  }

  ghost predicate Holds(s: seq<Item>, x: int) {
    exists i :: 0 <= i < |s| && s[i].off <= x < s[i].End()
  }

  function Meat(s: seq<Item>): int {
    if s == [] then 0 else s[0].Len() + Meat(s[1..])
  }

  lemma HoldsFirst(s: seq<Item>, x: int)
    requires s != []
    ensures Holds(s, x) <==> s[0].off <= x < s[0].End() || Holds(s[1..], x)
  {
    if Holds(s, x) {
      var i :| 0 <= i < |s| && s[i].off <= x < s[i].End();
      if i > 0 { assert s[1..][i - 1] == s[i]; }
    }
    if Holds(s[1..], x) {
      var i :| 0 <= i < |s[1..]| && s[1..][i].off <= x < s[1..][i].End();
      assert s[i + 1] == s[1..][i];
    }
  }

  lemma {:induction false} HoldsConcat(a: seq<Item>, b: seq<Item>, x: int)
    ensures Holds(a + b, x) <==> Holds(a, x) || Holds(b, x)
  {
    if a == [] {
      assert a + b == b;
    } else {
      assert (a + b)[1..] == a[1..] + b;
      HoldsConcat(a[1..], b, x);
      HoldsFirst(a, x);
      HoldsFirst(a + b, x);
    }
  }

  lemma {:induction false} MeatConcat(a: seq<Item>, b: seq<Item>)
    ensures Meat(a + b) == Meat(a) + Meat(b)
  {
    if a == [] {
      assert a + b == b;
    } else {
      assert (a + b)[1..] == a[1..] + b;
      MeatConcat(a[1..], b);
    }
  }

  /** Where a chain ends. */
  function Tip(s: seq<Item>, lo: int): int {
    if s == [] then lo else s[|s| - 1].End()
  }

  lemma {:induction false} ChainConcat(a: seq<Item>, b: seq<Item>, lo: int, len: int)
    ensures Chain(a + b, lo, len) <==> Chain(a, lo, Tip(a, lo)) && Chain(b, Tip(a, lo), len)
  {
    if a == [] {
      assert a + b == b;
    } else {
      assert (a + b)[1..] == a[1..] + b;
      ChainConcat(a[1..], b, a[0].End(), len);
    }
  }

  lemma {:induction false} ChainBounds(s: seq<Item>, lo: int, len: int, i: int)
    requires Chain(s, lo, len) && 0 <= i < |s|
    ensures ItemOk(s[i]) && lo <= s[i].off && s[i].End() <= len
    ensures i > 0 ==> s[i - 1].End() <= s[i].off
  {
    ChainLen(s, lo, len);
    if i > 0 {
      ChainBounds(s[1..], s[0].End(), len, i - 1);
    } else {
      ChainLen(s[1..], s[0].End(), len);
    }
  }

  lemma {:induction false} ChainLen(s: seq<Item>, lo: int, len: int)
    requires Chain(s, lo, len)
    ensures lo <= len
  {
    if s != [] { ChainLen(s[1..], s[0].End(), len); }
  }

  /** The counting argument: disjoint fragments inside lo..len-1 add up to no more than that
      range, and to exactly that only when they leave no gap. */
  lemma {:induction false} Counting(s: seq<Item>, lo: int, len: int)
    requires Chain(s, lo, len)
    ensures Meat(s) <= len - lo
    ensures Meat(s) == len - lo <==> forall x :: lo <= x < len ==> Holds(s, x)
  {
    if s != [] {
      ChainLen(s, lo, len);
      var t, e := s[1..], s[0].End();
      Counting(t, e, len);
      ChainLen(t, e, len);
      forall x { HoldsFirst(s, x); }
      if Meat(s) == len - lo {
        forall x | lo <= x < len ensures Holds(s, x) { HoldsFirst(s, x); }
      } else if s[0].off > lo {
        NotBefore(t, e, len, lo);
        assert !Holds(s, lo);
      } else {
        var x :| e <= x < len && !Holds(t, x);
        assert !Holds(s, x);
      }
    } else if lo < len {
      assert !Holds(s, lo);
    }
  }

  lemma {:induction false} NotBefore(s: seq<Item>, lo: int, len: int, x: int)
    requires Chain(s, lo, len) && x < lo
    ensures !Holds(s, x)
  {
    if s != [] {
      HoldsFirst(s, x);
      NotBefore(s[1..], s[0].End(), len, x);
    }
  }

  // ---- making room for a new fragment

  /** `s` without what lies before `end`: whole items are dropped, one may lose its head. */
  function Eat(s: seq<Item>, end: int): seq<Item> {
    if s == [] || s[0].off >= end then s
    else if end < s[0].End() then
      [Item(s[0].pkt, end, s[0].pulled + end - s[0].off)] + s[1..]
    else Eat(s[1..], end)
  }

  /** One step of the loop that makes room. */
  lemma EatStep(a: seq<Item>, t: seq<Item>, end: int)
    requires t != [] && t[0].off < end
    ensures end < t[0].End() ==>
      var trimmed := Item(t[0].pkt, end, t[0].pulled + end - t[0].off);
      && Eat(t, end) == [trimmed] + t[1..]
      && Meat(a + ([trimmed] + t[1..])) == Meat(a + t) - (end - t[0].off)
    ensures end >= t[0].End() ==> Eat(t, end) == Eat(t[1..], end) && Meat(a + t[1..]) == Meat(a + t) - t[0].Len()
  {
    var trimmed := Item(t[0].pkt, end, t[0].pulled + end - t[0].off);
    assert ([trimmed] + t[1..])[1..] == t[1..];
    MeatConcat(a, t);
    MeatConcat(a, t[1..]);
    MeatConcat(a, [trimmed] + t[1..]);
  }

  lemma EatDone(t: seq<Item>, end: int)
    requires t == [] || t[0].off >= end
    ensures Eat(t, end) == t
  {
  }

  lemma {:induction false} EatKeeps(s: seq<Item>, lo: int, len: int, end: int)
    requires Chain(s, lo, len) && end <= len
    ensures Chain(Eat(s, end), end, len)
    ensures forall x :: Holds(Eat(s, end), x) <==> Holds(s, x) && end <= x
  {
    if s == [] {
    } else if s[0].off >= end {
      forall x | x < end ensures !Holds(s, x) { NotBefore(s, s[0].off, len, x); }
    } else if end < s[0].End() {
      var t := [Item(s[0].pkt, end, s[0].pulled + end - s[0].off)] + s[1..];
      assert t[1..] == s[1..];
      forall x ensures Holds(t, x) <==> Holds(s, x) && end <= x {
        HoldsFirst(t, x);
        HoldsFirst(s, x);
        if x < end { NotBefore(s[1..], s[0].End(), len, x); }
      }
    } else {
      EatKeeps(s[1..], s[0].End(), len, end);
      forall x { HoldsFirst(s, x); }
    }
  }

  /** The queue after a fragment that occupies off..end-1 went in after the items `a`. */
  lemma InsertKeeps(a: seq<Item>, n: Item, b: seq<Item>, len: int)
    requires ItemOk(n) && 0 <= n.off && Tip(a, 0) <= n.off && n.End() <= len
    requires Chain(a + b, 0, len)
    ensures Chain(a + [n] + Eat(b, n.End()), 0, len)
    ensures Meat(a + [n] + Eat(b, n.End())) == Meat(a) + n.Len() + Meat(Eat(b, n.End()))
  {
    ChainConcat(a, b, 0, len);
    EatKeeps(b, Tip(a, 0), len, n.End());
    var c := Eat(b, n.End());
    ChainConcat(a, [n] + c, 0, len);
    assert ([n] + c)[1..] == c;
    assert a + [n] + c == a + ([n] + c);
    MeatConcat(a, [n] + c);
  }

  /** The items before position `k` start before `off`, the others at or after it. */
  ghost predicate Position(s: seq<Item>, k: nat, off: int) {
    && k <= |s|
    && (forall i :: 0 <= i < k ==> s[i].off < off)
    && (k < |s| ==> off <= s[k].off)
  }

  /** When the item before reaches past `off`, everything up to its end is already there. */
  lemma PrefixHolds(s: seq<Item>, k: nat, off: int, len: int, x: int)
    requires Chain(s, 0, len) && Position(s, k, off) && 0 <= off <= x < Tip(s[..k], 0)
    ensures Holds(s[..k], x)
  {
    assert s[..k][k - 1] == s[k - 1];
  }

  lemma InsertMeaning(s: seq<Item>, k: nat, off: int, n: Item, len: int, x: int)
    requires Chain(s, 0, len) && Position(s, k, off) && 0 <= off && ItemOk(n) && n.End() <= len
    requires n.off == if Tip(s[..k], 0) > off then Tip(s[..k], 0) else off
    ensures Holds(s[..k] + [n] + Eat(s[k..], n.End()), x) <==> Holds(s, x) || off <= x < n.End()
  {
    var a, b := s[..k], s[k..];
    assert s == a + b;
    ChainConcat(a, b, 0, len);
    EatKeeps(b, Tip(a, 0), len, n.End());
    HoldsConcat(a, b, x);
    HoldsConcat(a + [n], Eat(b, n.End()), x);
    HoldsConcat(a, [n], x);
    assert Holds([n], x) <==> n.off <= x < n.End() by { HoldsFirst([n], x); }
    if off <= x < n.off {
      PrefixHolds(s, k, off, len, x);
    }
    if Holds(b, x) {
      assert b[0] == s[k];
      if x < b[0].off { NotBefore(b, b[0].off, len, x); }
      if x < Tip(a, 0) { NotBefore(b, Tip(a, 0), len, x); }
    }
  }

  /** Every item of `s` carries `p` or a packet of `t`. */
  ghost predicate PacketsFrom(s: seq<Item>, t: seq<Item>, p: Packet) {
    forall i :: 0 <= i < |s| ==> s[i].pkt == p || exists j :: 0 <= j < |t| && t[j].pkt == s[i].pkt
  }

  lemma {:induction false} EatPackets(s: seq<Item>, end: int)
    ensures forall i :: 0 <= i < |Eat(s, end)| ==> exists j :: 0 <= j < |s| && s[j].pkt == Eat(s, end)[i].pkt
  {
    if s != [] {
      EatPackets(s[1..], end);
      forall i | 0 <= i < |Eat(s, end)| ensures exists j :: 0 <= j < |s| && s[j].pkt == Eat(s, end)[i].pkt {
        if s[0].off >= end || end < s[0].End() {
          assert s[i].pkt == Eat(s, end)[i].pkt;
        } else {
          var j :| 0 <= j < |s[1..]| && s[1..][j].pkt == Eat(s[1..], end)[i].pkt;
          assert s[j + 1] == s[1..][j];
        }
      }
    }
  }

  lemma {:induction false} WidenChain(s: seq<Item>, lo: int, len: int, len': int)
    requires Chain(s, lo, len) && len <= len'
    ensures Chain(s, lo, len')
  {
    if s != [] { WidenChain(s[1..], s[0].End(), len, len'); }
  }

  lemma FirstAtZero(s: seq<Item>, len: int)
    requires Chain(s, 0, len) && Holds(s, 0)
    ensures s != [] && s[0].off == 0
  {
    HoldsFirst(s, 0);
    if s[0].off > 0 { NotBefore(s, s[0].off, len, 0); }
  }

  /** `t` holds what `s` holds and the bytes off..end-1. */
  ghost predicate Grown(t: seq<Item>, s: seq<Item>, off: int, end: int) {
    forall x :: Holds(t, x) <==> Holds(s, x) || off <= x < end
  }

  /** Everything an insertion keeps. */
  lemma InsertAll(s: seq<Item>, k: nat, off: int, n: Item, len: int)
    requires Chain(s, 0, len) && Position(s, k, off) && 0 <= off && ItemOk(n) && n.End() <= len
    requires n.off == if k > 0 && s[k - 1].End() > off then s[k - 1].End() else off
    ensures var t := s[..k] + [n] + Eat(s[k..], n.End());
      && Chain(t, 0, len)
      && Meat(t) == Meat(s[..k] + Eat(s[k..], n.End())) + n.Len()
      && Grown(t, s, off, n.End())
      && PacketsFrom(t, s, n.pkt)
      && (t[0].off == 0 <==> n.off == 0 || (s != [] && s[0].off == 0))
  {
    var a, b := s[..k], s[k..];
    assert s == a + b;
    assert Tip(a, 0) == if k > 0 then s[k - 1].End() else 0;
    InsertKeeps(a, n, b, len);
    MeatConcat(a, Eat(b, n.End()));
    forall x { InsertMeaning(s, k, off, n, len, x); }
    InsertPackets(s, k, n);
    if k > 0 { ChainBounds(s, 0, len, k - 1); }
    if s != [] { ChainBounds(s, 0, len, 0); }
  }

  lemma InsertPackets(s: seq<Item>, k: nat, n: Item)
    requires k <= |s|
    ensures PacketsFrom(s[..k] + [n] + Eat(s[k..], n.End()), s, n.pkt)
  {
    var e := Eat(s[k..], n.End());
    var t := s[..k] + [n] + e;
    EatPackets(s[k..], n.End());
    forall i | 0 <= i < |t| ensures t[i].pkt == n.pkt || exists j :: 0 <= j < |s| && s[j].pkt == t[i].pkt {
      if i < k {
        assert s[i].pkt == t[i].pkt;
      } else if i > k {
        assert t[i] == e[i - k - 1];
        var j :| 0 <= j < |s[k..]| && s[k..][j].pkt == e[i - k - 1].pkt;
        assert s[k + j].pkt == t[i].pkt;
      }
    }
  }

  lemma SameIsGrown(s: seq<Item>, p: Packet, off: int, end: int)
    requires forall x :: off <= x < end ==> Holds(s, x)
    ensures Grown(s, s, off, end) && PacketsFrom(s, s, p)
  {
  }

  lemma Swallowed(s: seq<Item>, i: int, p: Packet, end: int)
    requires 0 <= i < |s| && s[i].off <= p.fragOff && end <= s[i].End()
    ensures Grown(s, s, p.fragOff, end) && PacketsFrom(s, s, p)
  {
    forall x | p.fragOff <= x < end ensures Holds(s, x) {
      assert s[i].off <= x < s[i].End();
    }
  }

  /** The count says whether the queue is full. */
  lemma CountTells(s: seq<Item>, len: int)
    requires Chain(s, 0, len) && 0 < len
    ensures Meat(s) == len <==> forall x :: 0 <= x < len ==> Holds(s, x)
    ensures Meat(s) == len ==> s != [] && s[0].off == 0
  {
    Counting(s, 0, len);
    if Meat(s) == len {
      assert Holds(s, 0);
      FirstAtZero(s, len);
    }
  }

  ghost predicate Same(s: seq<Item>, h: seq<Packet>) {
    forall x :: Holds(s, x) <==> Covered(h, x)
  }

  lemma SameAfter(s: seq<Item>, t: seq<Item>, h: seq<Packet>, p: Packet, d: seq<Byte>)
    requires Same(s, h) && IsDatagram(d) && FragmentOf(p, d) && Unpadded(p)
    requires Grown(t, s, p.fragOff, p.fragOff + |p.payload|)
    ensures Same(t, h + [p])
  {
    hide Holds, Covered;
    forall x ensures Holds(t, x) <==> Covered(h + [p], x) {
      CoveredSnoc(h, p, x);
      CarriesOfDatagram(p, d, x);
    }
  }

  lemma PacketsOfDatagram(t: seq<Item>, s: seq<Item>, p: Packet, d: seq<Byte>)
    requires PacketsFrom(t, s, p) && FragmentOf(p, d) && Unpadded(p)
    requires forall i :: 0 <= i < |s| ==> FragmentOf(s[i].pkt, d) && Unpadded(s[i].pkt)
    ensures forall i :: 0 <= i < |t| ==> FragmentOf(t[i].pkt, d) && Unpadded(t[i].pkt)
  {
    hide FragmentOf;
  }

  lemma LastSeen(h: seq<Packet>, p: Packet, d: seq<Byte>)
    requires IsDatagram(d) && FragmentOf(p, d) && Unpadded(p)
    ensures Covered(h + [p], |d| - 1) ==> Covered(h, |d| - 1) || !p.moreFrags
  {
    CoveredSnoc(h, p, |d| - 1);
    CarriesOfDatagram(p, d, |d| - 1);
  }

  /** A datagram of `n` bytes is consistent with the ends of the packets: final ones end with it, and no
      other goes further. */
  ghost predicate EndsAt(h: seq<Packet>, n: int) {
    forall i :: 0 <= i < |h| ==> if h[i].moreFrags then EndOf(h[i]) <= n else EndOf(h[i]) == n
  }

  /** One past the last byte of a packet, padding included. */
  function EndOf(p: Packet): int {
    p.fragOff + |p.payload|
  }

  lemma EndsAtSnoc(h: seq<Packet>, p: Packet, n: int)
    ensures EndsAt(h + [p], n) <==> EndsAt(h, n) && if p.moreFrags then EndOf(p) <= n else EndOf(p) == n
  {
    if EndsAt(h + [p], n) {
      forall i | 0 <= i < |h| ensures if h[i].moreFrags then EndOf(h[i]) <= n else EndOf(h[i]) == n {
        assert (h + [p])[i] == h[i];
      }
      assert (h + [p])[|h|] == p;
    }
  }

  /** What the ends seen so far allow, before and after one more packet: it is to be refused exactly when
      no length is left. */
  lemma RefusedIff(h: seq<Packet>, p: Packet, len: nat, lastIn: bool)
    requires forall n: nat :: EndsAt(h, n) <==> if lastIn then n == len else len <= n
    ensures (exists n: nat :: EndsAt(h + [p], n)) <==>
      !(if p.moreFrags then EndOf(p) > len && lastIn else EndOf(p) < len || (lastIn && EndOf(p) != len))
    ensures (exists n: nat :: EndsAt(h + [p], n)) ==>
      forall n: nat :: EndsAt(h + [p], n) <==>
        if lastIn || !p.moreFrags then n == Max(len, EndOf(p)) else Max(len, EndOf(p)) <= n
  {
    hide EndsAt;
    forall n: nat
      ensures EndsAt(h + [p], n) <==> EndsAt(h, n) && if p.moreFrags then EndOf(p) <= n else EndOf(p) == n
    {
      EndsAtSnoc(h, p, n);
    }
    var n := Max(len, EndOf(p));
    assert EndsAt(h, n) <==> if lastIn then n == len else len <= n;
  }

  function Max(a: int, b: int): int {
    if a < b then b else a
  }

  datatype Code = Done | InProgress | Error

  class Queue {
    var frags: seq<Item>
    var meat: int
    var len: int
    var firstIn: bool
    var lastIn: bool
    ghost var history: seq<Packet>
    /** The packets that were not refused. */
    ghost var taken: seq<Packet>

    ghost predicate Valid()
      reads this
    {
      && Chain(frags, 0, len)
      && meat == Meat(frags)
      && (firstIn <==> frags != [] && frags[0].off == 0)
      && 0 <= len && forall n: nat :: EndsAt(taken, n) <==> if lastIn then n == len else len <= n
    }

    constructor ()
      ensures Valid() && frags == [] && len == 0 && !lastIn && history == [] && taken == []
    {
      frags, meat, len, firstIn, lastIn, history, taken := [], 0, 0, false, false, [], [];
    }

    /** The end is known and every byte before it is queued. */
    ghost predicate Full()
      reads this
    {
      lastIn && forall x :: 0 <= x < len ==> Holds(frags, x)
    }

    /** The queue of fragments of datagram `d`: what is queued is what has come. */
    ghost predicate ValidFor(d: seq<Byte>)
      reads this
    {
      && Valid() && IsDatagram(d) && AllOf(history, d)
      && Same(frags, history)
      && len <= |d| && (lastIn ==> len == |d|) && (Covered(history, |d| - 1) ==> lastIn)
      && forall i :: 0 <= i < |frags| ==> FragmentOf(frags[i].pkt, d) && Unpadded(frags[i].pkt)
    }

    /** Is the fragment at odds with the ends seen before? */
    predicate Contradicts(p: Packet, end: int)
      reads this
    {
      if p.moreFrags then end > len && lastIn
      else end < len || (lastIn && end != len)
    }

    /** Where the fragment goes: looks at the tail first, then scans from the front. */
    method Find(off: int) returns (k: nat)
      requires Chain(frags, 0, len)
      ensures Position(frags, k, off)
    {
      if frags == [] || frags[|frags| - 1].off < off {
        forall i | 0 <= i < |frags| ensures frags[i].off < off { Sorted(frags, 0, len, i, |frags| - 1); }
        return |frags|;
      }
      k := 0;
      while k < |frags| && frags[k].off < off
        invariant k <= |frags|
        invariant forall i :: 0 <= i < k ==> frags[i].off < off
      {
        k := k + 1;
      }
    }

    /** Drops or trims the items from position `k` that lie before `end`. */
    method MakeRoom(k: nat, end: int)
      requires Valid() && k <= |frags|
      modifies this`frags, this`meat
      ensures frags == old(frags)[..k] + Eat(old(frags)[k..], end)
      ensures meat == Meat(frags)
    {
      hide Eat, Meat, Chain;
      ghost var a, b := frags[..k], frags[k..];
      assert frags == a + b;
      ghost var t := b;
      while k < |frags| && frags[k].off < end
        invariant frags == a + t && |a| == k && Eat(t, end) == Eat(b, end)
        invariant meat == Meat(frags)
        decreases |t|
      {
        var n := frags[k];
        assert n == t[0];
        var i := end - n.off;
        EatStep(a, t, end);
        if i < n.Len() {
          var trimmed := Item(n.pkt, n.off + i, n.pulled + i);
          frags := frags[k := trimmed];
          meat := meat - i;
          assert frags == a + ([trimmed] + t[1..]);
          return;
        }
        frags := frags[..k] + frags[k + 1..];
        meat := meat - n.Len();
        t := t[1..];
      }
      EatDone(t, end);
    }

    /** Puts item `n` at position `k`; `off` is where its packet starts. */
    method Insert(off: int, k: nat, n: Item)
      requires Valid() && Position(frags, k, off) && 0 <= off && ItemOk(n) && n.End() <= len
      requires n.off == if k > 0 && frags[k - 1].End() > off then frags[k - 1].End() else off
      modifies this`frags, this`meat, this`firstIn
      ensures Valid()
      ensures Grown(frags, old(frags), off, n.End())
      ensures PacketsFrom(frags, old(frags), n.pkt)
      ensures frags != [] && 0 < len
    {
      hide Chain, Meat, Eat, Grown, PacketsFrom;
      ghost var s := frags;
      InsertAll(s, k, off, n, len);
      MakeRoom(k, n.End());
      frags := frags[..k] + [n] + frags[k..];
      assert frags == s[..k] + [n] + Eat(s[k..], n.End());
      meat := meat + n.Len();
      if n.off == 0 {
        firstIn := true;
      }
    }

    method Enqueue(p: Packet) returns (code: Code)
      requires Valid() && p.sz >= ETHER_HDR_LEN + p.hdrLen
      modifies this
      ensures Valid() && history == old(history) + [p]
      ensures code == Error <==> !exists n: nat :: EndsAt(old(taken) + [p], n)
      ensures taken == if code == Error then old(taken) else old(taken) + [p]
      ensures code == Error <==> old(Contradicts(p, p.fragOff + |p.payload|))
      ensures code == Error ==> frags == old(frags) && len == old(len) && lastIn == old(lastIn)
      ensures code != Error ==> lastIn == (old(lastIn) || !p.moreFrags)
      ensures code != Error ==> len == if p.fragOff + |p.payload| > old(len) then p.fragOff + |p.payload| else old(len)
      ensures code != Error ==> Grown(frags, old(frags), p.fragOff, p.fragOff + |p.payload|)
      ensures code == Done ==> Full()
      ensures code == InProgress ==> !Full() || frags == old(frags)
      ensures PacketsFrom(frags, old(frags), p)
    {
      hide Chain, Meat, Grown, PacketsFrom, Holds, EndsAt;
      history := history + [p];
      RefusedIff(taken, p, len, lastIn);
      var off, end := p.fragOff, p.fragOff + p.sz - ETHER_HDR_LEN - p.hdrLen;
      if Contradicts(p, end) {
        SameIsGrown(frags, p, 0, 0);
        return Error;
      }
      taken := taken + [p];
      if !p.moreFrags {
        lastIn, len := true, end;
      } else if end > len {
        len := end;
      }
      WidenChain(frags, 0, old(len), len);
      if end == off {
        SameIsGrown(frags, p, off, end);
        return InProgress;
      }
      code := Place(p, end);
    }

    /** Within one datagram no fragment is refused, and the call that completes the coverage
        is the one that says so. */
    method EnqueueOf(p: Packet, ghost d: seq<Byte>) returns (code: Code)
      requires ValidFor(d) && FragmentOf(p, d) && Unpadded(p)
      modifies this
      ensures ValidFor(d) && history == old(history) + [p]
      ensures code != Error
      ensures code == Done ==> Complete(history)
      ensures Complete(history) && !Complete(old(history)) ==> code == Done
    {
      hide Chain, Grown, PacketsFrom, Same, Covered, Complete;
      LastSeen(history, p, d);
      code := Enqueue(p);
      assert AllOf(history, d);
      SameAfter(old(frags), frags, old(history), p, d);
      PacketsOfDatagram(frags, old(frags), p, d);
      FullIsComplete(frags, len, lastIn, history, d);
      if frags == old(frags) {
        SameCoverage(frags, old(history), history, d);
      }
    }

    /** The second half: finds the place, trims against the neighbours, links and counts. */
    method Place(p: Packet, end: int) returns (code: Code)
      requires Valid() && p.sz >= ETHER_HDR_LEN + p.hdrLen
      requires p.fragOff < end == p.fragOff + |p.payload| <= len
      modifies this`frags, this`meat, this`firstIn
      ensures Valid() && code != Error
      ensures Grown(frags, old(frags), p.fragOff, end)
      ensures code == Done ==> Full()
      ensures code == InProgress ==> !Full() || frags == old(frags)
      ensures PacketsFrom(frags, old(frags), p)
    {
      hide Chain, Meat, Grown, PacketsFrom, Holds;
      var off := p.fragOff;
      var k := Find(off);
      if k > 0 {
        var i := frags[k - 1].End() - off;
        if i > 0 {
          off := off + i;
          if end <= off {
            Swallowed(frags, k - 1, p, end);
            return InProgress;
          }
        }
      }
      var n := Item(p, off, ETHER_HDR_LEN + p.hdrLen + off - p.fragOff);
      Insert(p.fragOff, k, n);
      CountTells(frags, len);
      code := if firstIn && lastIn && meat == len then Done else InProgress;
    }

    /** Copies every item to its place in a new buffer; `fill` stands for the buffer's
        uninitialised contents. */
    method Reassemble(fill: nat -> Byte) returns (pay: seq<Byte>)
      requires Valid()
      ensures |pay| == len
      ensures Filled(pay, frags, |frags|)
    {
      ChainLen(frags, 0, len);
      pay := seq<Byte>(len, fill);
      for i := 0 to |frags|
        invariant |pay| == len && Filled(pay, frags, i)
      {
        var it := frags[i];
        ChainBounds(frags, 0, len, i);
        var within := it.off - it.pkt.fragOff;
        ghost var before := pay;
        pay := Overwrite(pay, it.off, it.pkt.payload[within..within + it.Len()]);
        FilledStep(before, pay, frags, len, i);
      }
    }
  }

  /** Byte `x` of item `it` is in place. */
  ghost predicate InPlace(pay: seq<Byte>, it: Item, x: int) {
    0 <= x < |pay| && 0 <= x - it.pkt.fragOff < |it.pkt.payload| && pay[x] == it.pkt.payload[x - it.pkt.fragOff]
  }

  /** The first `n` items' bytes are in place. */
  ghost predicate Filled(pay: seq<Byte>, s: seq<Item>, n: int)
    requires 0 <= n <= |s|
  {
    forall i, x :: 0 <= i < n && s[i].off <= x < s[i].End() ==> InPlace(pay, s[i], x)
  }

  lemma FilledStep(before: seq<Byte>, pay: seq<Byte>, s: seq<Item>, len: int, n: int)
    requires Chain(s, 0, len) && 0 <= n < |s| && |before| == |pay| == len && Filled(before, s, n)
    requires ItemOk(s[n]) && 0 <= s[n].off && s[n].End() <= len
    requires forall x :: 0 <= x < len ==>
      pay[x] == if s[n].off <= x < s[n].End() then s[n].pkt.payload[x - s[n].pkt.fragOff] else before[x]
    ensures Filled(pay, s, n + 1)
  {
    forall i, x | 0 <= i < n + 1 && s[i].off <= x < s[i].End() ensures InPlace(pay, s[i], x) {
      if i < n {
        Disjoint(s, 0, len, i, n);
        assert InPlace(before, s[i], x);
      }
    }
  }

  lemma {:induction false} Disjoint(s: seq<Item>, lo: int, len: int, i: int, j: int)
    requires Chain(s, lo, len) && 0 <= i < j < |s|
    ensures s[i].End() <= s[j].off
    decreases j - i
  {
    ChainBounds(s, lo, len, j);
    if i < j - 1 {
      ChainBounds(s, lo, len, j - 1);
      Disjoint(s, lo, len, i, j - 1);
    }
  }

  /** A full queue of fragments of `d` reassembles to `d`. */
  lemma FilledIsDatagram(pay: seq<Byte>, s: seq<Item>, d: seq<Byte>)
    requires |pay| == |d| && Filled(pay, s, |s|)
    requires forall i :: 0 <= i < |s| ==> FragmentOf(s[i].pkt, d) && Unpadded(s[i].pkt)
    requires forall x :: 0 <= x < |d| ==> Holds(s, x)
    ensures pay == d
  {
    forall x | 0 <= x < |d| ensures pay[x] == d[x] {
      assert Holds(s, x);
      var i :| 0 <= i < |s| && s[i].off <= x < s[i].End();
      assert FragmentOf(s[i].pkt, d) && Unpadded(s[i].pkt) && InPlace(pay, s[i], x);
    }
  }

  lemma EmptyQueue(d: seq<Byte>)
    ensures Same([], []) && !Covered([], |d| - 1)
    ensures IsDatagram(d) ==> !Complete([])
  {
    if IsDatagram(d) {
      CompleteOfDatagram([], d);
      assert !Covered([], 0);
    }
  }

  lemma FullIsComplete(s: seq<Item>, len: int, lastIn: bool, h: seq<Packet>, d: seq<Byte>)
    requires IsDatagram(d) && AllOf(h, d) && Same(s, h)
    requires len <= |d| && (lastIn ==> len == |d|) && (Covered(h, |d| - 1) ==> lastIn)
    ensures (lastIn && forall x :: 0 <= x < len ==> Holds(s, x)) <==> Complete(h)
  {
    hide Holds, Covered;
    CompleteOfDatagram(h, d);
    assert Holds(s, |d| - 1) <==> Covered(h, |d| - 1);
    if Complete(h) {
      assert Covered(h, |d| - 1);
    }
  }

  lemma SameCoverage(s: seq<Item>, h: seq<Packet>, h': seq<Packet>, d: seq<Byte>)
    requires IsDatagram(d) && AllOf(h, d) && AllOf(h', d) && Same(s, h) && Same(s, h')
    ensures Complete(h) <==> Complete(h')
  {
    hide Covered;
    CompleteOfDatagram(h, d);
    CompleteOfDatagram(h', d);
    forall x ensures Covered(h, x) <==> Covered(h', x) {
      assert Holds(s, x) <==> Covered(h, x);
    }
  }

  lemma {:induction false} Sorted(s: seq<Item>, lo: int, len: int, i: int, j: int)
    requires Chain(s, lo, len) && 0 <= i <= j < |s|
    ensures s[i].off <= s[j].off
    decreases j - i
  {
    if i < j {
      ChainBounds(s, lo, len, j);
      ChainBounds(s, lo, len, j - 1);
      Sorted(s, lo, len, i, j - 1);
    }
  }
}
