/** Cut, deliver in any order with any losses, repetitions and overlaps, reassemble: every
    context returns the original payload once it reports completion. */
module RoundTrip {
  import opened Fragments
  import opened Fragmenter
  import L = HoleListContext
  import B = InBufferContext
  import Q = FragmentQueue
  import C = ComboContext
  import T = HoleTreeContext
  import IntrusiveTree
  import Holes

  /** What can be sent: a non-empty datagram with pieces that `Fragment4` accepts, and an
      order of delivery that names pieces. */
  ghost predicate Sendable(o: Original, pieces: seq<Piece>, order: seq<nat>) {
    && Fragmenter.Decoded(o) && Cuttable(o) && 0 < |o.payload|
    && (forall i :: 0 <= i < |pieces| ==> PieceOf(pieces[i], |o.payload|))
    && (forall i :: 0 <= i < |order| ==> order[i] < |pieces|)
  }

  /** Byte `x` was delivered with one of the pieces. */
  ghost predicate Reached(pieces: seq<Piece>, order: seq<nat>, x: int) {
    exists i :: 0 <= i < |order| && order[i] < |pieces| &&
      pieces[order[i]].start <= x < pieces[order[i]].start + pieces[order[i]].len
  }

  ghost predicate AllReached(n: int, pieces: seq<Piece>, order: seq<nat>) {
    forall x :: 0 <= x < n ==> Reached(pieces, order, x)
  }

  /** One delivered piece has the whole 8-byte block of byte `x`, as far as the datagram of `n` bytes
      reaches. */
  ghost predicate BlockReached(n: int, pieces: seq<Piece>, order: seq<nat>, x: int) {
    exists i :: 0 <= i < |order| && order[i] < |pieces| && HasBlock(pieces[order[i]], n, x)
  }

  predicate HasBlock(c: Piece, n: int, x: int) {
    c.start <= x && (x / 8 * 8 + 8 <= c.start + c.len || n <= c.start + c.len)
  }

  ghost predicate AllBlocksReached(n: int, pieces: seq<Piece>, order: seq<nat>) {
    forall x :: 0 <= x < n ==> BlockReached(n, pieces, order, x)
  }

  /** Pieces that do not reach the end have lengths that are multiples of 8. */
  ghost predicate OctetPieces(n: int, pieces: seq<Piece>) {
    forall i :: 0 <= i < |pieces| && pieces[i].start + pieces[i].len < n ==> pieces[i].len % 8 == 0
  }

  /** `p` with the padding `z` behind its data. */
  function Padded(p: Packet, z: seq<Byte>): Packet
    requires ETHER_HDR_LEN + p.hdrLen <= p.sz
  {
    p.(sz := p.sz + |z|, payload := p.payload + z)
  }

  lemma PaddedFragment(p: Packet, z: seq<Byte>, d: seq<Byte>)
    requires FragmentOf(p, d)
    ensures FragmentOf(Padded(p, z), d)
  {
    assert (p.payload + z)[..Size(p)] == p.payload[..Size(p)];
  }

  /** The packets that arrive; `pad` is what the link adds to them. */
  function Arriving(frags: seq<Packet>, order: seq<nat>, pad: nat -> seq<Byte>): (h: seq<Packet>)
    requires forall i :: 0 <= i < |frags| ==> ETHER_HDR_LEN + frags[i].hdrLen <= frags[i].sz
    requires forall i :: 0 <= i < |order| ==> order[i] < |frags|
    ensures |h| == |order| && forall i :: 0 <= i < |order| ==> h[i] == Padded(frags[order[i]], pad(i))
  {
    seq<Packet>(|order|, i requires 0 <= i < |order| => Padded(frags[order[i]], pad(i)))
  }

  ghost predicate CutFrom(frags: seq<Packet>, d: seq<Byte>, pieces: seq<Piece>) {
    && |frags| == |pieces| && AllOf(frags, d)
    && forall i :: 0 <= i < |pieces| ==> PieceIs(frags[i], pieces[i])
  }

  /** Packet `p` is for piece `c`. */
  predicate PieceIs(p: Packet, c: Piece) {
    p.fragOff == c.start && Size(p) == c.len && ETHER_HDR_LEN + p.hdrLen <= p.sz
  }

  lemma ArrivingCovers(frags: seq<Packet>, d: seq<Byte>, pieces: seq<Piece>, order: seq<nat>, pad: nat -> seq<Byte>,
                       x: int)
    requires IsDatagram(d) && CutFrom(frags, d, pieces)
    requires forall i :: 0 <= i < |order| ==> order[i] < |pieces|
    ensures AllOf(Arriving(frags, order, pad), d)
    ensures Covered(Arriving(frags, order, pad), x) <==> Reached(pieces, order, x)
  {
    var h := Arriving(frags, order, pad);
    forall i | 0 <= i < |order|
      ensures FragmentOf(h[i], d)
      ensures Carries(h[i], x) <==> pieces[order[i]].start <= x < pieces[order[i]].start + pieces[order[i]].len
    {
      PaddedFragment(frags[order[i]], pad(i), d);
      CarriesOfDatagram(h[i], d, x);
    }
  }

  /** The arriving packets are complete exactly when every byte was reached. */
  lemma CompleteIffReached(frags: seq<Packet>, d: seq<Byte>, pieces: seq<Piece>, order: seq<nat>, pad: nat -> seq<Byte>)
    requires IsDatagram(d) && CutFrom(frags, d, pieces)
    requires forall i :: 0 <= i < |order| ==> order[i] < |pieces|
    ensures AllOf(Arriving(frags, order, pad), d)
    ensures Complete(Arriving(frags, order, pad)) <==> AllReached(|d|, pieces, order)
  {
    hide Covered, Complete, Reached;
    ArrivingCovers(frags, d, pieces, order, pad, 0);
    CompleteOfDatagram(Arriving(frags, order, pad), d);
    forall x { ArrivingCovers(frags, d, pieces, order, pad, x); }
  }

  /** A piece that has a block is a packet that carries it. */
  lemma PieceCarriesBlock(p: Packet, c: Piece, d: seq<Byte>, x: int)
    requires IsDatagram(d) && FragmentOf(p, d) && PieceIs(p, c) && 0 <= x < |d|
    ensures C.CarriesBlock(p, x, |d| - 1) <==> HasBlock(c, |d|, x)
  {
  }

  /** The arriving packets are complete for the in-buffer context exactly when each block was delivered
      whole by one piece. */
  lemma BlocksIffReached(frags: seq<Packet>, d: seq<Byte>, pieces: seq<Piece>, order: seq<nat>, pad: nat -> seq<Byte>)
    requires IsDatagram(d) && CutFrom(frags, d, pieces)
    requires forall i :: 0 <= i < |order| ==> order[i] < |pieces|
    ensures C.BlocksComplete(Arriving(frags, order, pad)) <==> AllBlocksReached(|d|, pieces, order)
  {
    hide Covered, C.BlockCovered, BlockReached, Limit, C.CarriesBlock;
    var h, n := Arriving(frags, order, pad), |d|;
    ArrivingCovers(frags, d, pieces, order, pad, n - 1);
    LimitOfDatagram(h, d);
    forall x | 0 <= x < n ensures C.BlockCovered(h, x, n - 1) <==> BlockReached(n, pieces, order, x) {
      ArrivingHasBlock(frags, d, pieces, order, pad, x);
    }
    if Limit(h) == MAX16 {
      NoLastBlock(h, d);
      assert !C.BlocksComplete(h) by { assert !C.BlockCovered(h, MAX16, Limit(h)); }
      if BlockReached(n, pieces, order, n - 1) {
        LastBlockReached(pieces, order, frags, d);
        assert false;
      }
    } else {
      assert forall x :: 0 <= x <= Limit(h) ==> (C.BlockCovered(h, x, Limit(h)) <==> BlockReached(n, pieces, order, x));
    }
  }

  lemma ArrivingHasBlock(frags: seq<Packet>, d: seq<Byte>, pieces: seq<Piece>, order: seq<nat>, pad: nat -> seq<Byte>,
                         x: int)
    requires IsDatagram(d) && CutFrom(frags, d, pieces) && 0 <= x < |d|
    requires forall i :: 0 <= i < |order| ==> order[i] < |pieces|
    ensures C.BlockCovered(Arriving(frags, order, pad), x, |d| - 1) <==> BlockReached(|d|, pieces, order, x)
  {
    hide C.CarriesBlock, HasBlock;
    var h := Arriving(frags, order, pad);
    forall i | 0 <= i < |order|
      ensures C.CarriesBlock(h[i], x, |d| - 1) <==> HasBlock(pieces[order[i]], |d|, x)
    {
      PaddedFragment(frags[order[i]], pad(i), d);
      PieceCarriesBlock(h[i], pieces[order[i]], d, x);
    }
  }

  lemma NoLastBlock(h: seq<Packet>, d: seq<Byte>)
    requires IsDatagram(d) && AllOf(h, d)
    ensures !C.BlockCovered(h, MAX16, MAX16)
  {
    forall i | 0 <= i < |h| ensures !C.CarriesBlock(h[i], MAX16, MAX16) {
      assert FragmentOf(h[i], d);
    }
  }

  /** A piece with the last block has the last byte. */
  lemma LastBlockReached(pieces: seq<Piece>, order: seq<nat>, frags: seq<Packet>, d: seq<Byte>)
    requires CutFrom(frags, d, pieces) && 0 < |d| && BlockReached(|d|, pieces, order, |d| - 1)
    ensures Reached(pieces, order, |d| - 1)
  {
    var i :| 0 <= i < |order| && order[i] < |pieces| && HasBlock(pieces[order[i]], |d|, |d| - 1);
    assert FragmentOf(frags[order[i]], d);
  }

  lemma PieceBlocks(c: Piece, n: int, x: int)
    requires PieceOf(c, n) && 0 <= x < n
    ensures HasBlock(c, n, x) ==> c.start <= x < c.start + c.len
    ensures (c.start + c.len < n ==> c.len % 8 == 0) && c.start <= x < c.start + c.len ==> HasBlock(c, n, x)
  {
  }

  /** Whole blocks are all bytes; the converse holds if pieces that do not reach the end have lengths
      that are multiples of 8. */
  lemma BlocksAreBytes(n: int, pieces: seq<Piece>, order: seq<nat>)
    requires forall i :: 0 <= i < |pieces| ==> PieceOf(pieces[i], n)
    ensures AllBlocksReached(n, pieces, order) ==> AllReached(n, pieces, order)
    ensures OctetPieces(n, pieces) && AllReached(n, pieces, order) ==> AllBlocksReached(n, pieces, order)
  {
    hide HasBlock, PieceOf;
    forall x | 0 <= x < n
      ensures BlockReached(n, pieces, order, x) ==> Reached(pieces, order, x)
      ensures OctetPieces(n, pieces) && Reached(pieces, order, x) ==> BlockReached(n, pieces, order, x)
    {
      if BlockReached(n, pieces, order, x) {
        var i :| 0 <= i < |order| && order[i] < |pieces| && HasBlock(pieces[order[i]], n, x);
        PieceBlocks(pieces[order[i]], n, x);
      }
      if OctetPieces(n, pieces) && Reached(pieces, order, x) {
        var i :| 0 <= i < |order| && order[i] < |pieces| &&
          pieces[order[i]].start <= x < pieces[order[i]].start + pieces[order[i]].len;
        PieceBlocks(pieces[order[i]], n, x);
      }
    }
  }

  method DeliverToList(h: seq<Packet>) returns (ctx: L.HoleList)
    ensures ctx.Valid() && fresh(ctx) && ctx.packets == h
  {
    hide L.HolesMatch, L.Owners;
    ctx := new L.HoleList();
    for i := 0 to |h|
      invariant ctx.Valid() && fresh(ctx) && ctx.packets == h[..i]
    {
      ctx.Add(h[i]);
      assert h[..i + 1] == h[..i] + [h[i]];
    }
    assert h[..|h|] == h;
  }

  method ThroughHoleList(o: Original, pieces: seq<Piece>, order: seq<nat>, pad: nat -> seq<Byte>, fill: nat -> Byte)
    returns (complete: bool, pay: seq<Byte>)
    requires Sendable(o, pieces, order)
    ensures complete <==> AllReached(|o.payload|, pieces, order)
    ensures complete ==> pay == o.payload
  {
    hide L.HolesMatch, L.Owners, Covered, AllReached, FragmentOf, L.Copyable, L.Clean, Limit;
    var r := Fragment4(o, pieces);
    ghost var d := o.payload;
    var h := Arriving(r.frags, order, pad);
    CompleteIffReached(r.frags, d, pieces, order, pad);
    var ctx := DeliverToList(h);
    complete, pay := false, [];
    complete := ctx.IsComplete();
    if complete {
      CompleteKnowsLength(h, d);
      C.DatagramFits(h, d);
      NotEmpty(h);
      pay := ctx.Reassemble(fill);
      PayloadIsDatagram(h, d, pay);
    }
  }

  lemma NotEmpty(h: seq<Packet>)
    requires Complete(h)
    ensures h != []
  {
    assert Covered(h, 0);
  }

  method ThroughBuffer(o: Original, pieces: seq<Piece>, order: seq<nat>, pad: nat -> seq<Byte>)
    returns (complete: bool, pay: seq<Byte>)
    requires Sendable(o, pieces, order)
    ensures complete <==> AllBlocksReached(|o.payload|, pieces, order)
    ensures complete ==> AllReached(|o.payload|, pieces, order) && pay == o.payload
    ensures OctetPieces(|o.payload|, pieces) ==> (complete <==> AllReached(|o.payload|, pieces, order))
  {
    hide B.Holds, B.HolesMatch, B.DataPresent, Covered, Complete, B.BufferComplete;
    var r := Fragment4(o, pieces);
    ghost var d := o.payload;
    var h := Arriving(r.frags, order, pad);
    CompleteIffReached(r.frags, d, pieces, order, pad);
    C.DatagramFits(h, d);
    var ctx := new B.InBuffer();
    for i := 0 to |h|
      invariant ctx.Valid() && fresh(ctx) && fresh(ctx.pkt) && ctx.history == h[..i]
    {
      assert B.InReach(h[i]);
      ctx.Add(h[i]);
      assert h[..i + 1] == h[..i] + [h[i]];
    }
    assert h[..|h|] == h;
    pay := [];
    complete := ctx.IsComplete();
    C.BufferCompleteIff(h);
    BlocksIffReached(r.frags, d, pieces, order, pad);
    BlocksAreBytes(|d|, pieces, order);
    if complete {
      C.BufferCompleteSound(h);
      pay := ctx.Reassemble();
      PayloadIsDatagram(h, d, pay);
    }
  }

  /** Memory was there for the promotion when one of the first `n` packets asked for it. */
  predicate Promoted(n: nat, memory: nat -> bool) {
    exists i: nat :: 43 < i < n && memory(i)
  }

  lemma PromotedNext(n: nat, memory: nat -> bool)
    ensures Promoted(n + 1, memory) <==> Promoted(n, memory) || (43 < n && memory(n))
  {
  }

  method DeliverToCombo(h: seq<Packet>, memory: nat -> bool) returns (ctx: C.Combo)
    requires C.AllInReach(h)
    ensures ctx.Valid() && fresh(ctx) && fresh(ctx.list) && ctx.history == h
    ensures ctx.buffer != null ==> fresh(ctx.buffer) && fresh(ctx.buffer.pkt)
    ensures ctx.rfcActive <==> Promoted(|h|, memory)
  {
    hide B.Holds, B.HolesMatch, B.DataPresent, L.HolesMatch, L.Owners, Promoted, C.Combo.Valid;
    ctx := new C.Combo();
    assert !Promoted(0, memory) by { NotPromoted(memory); }
    for i := 0 to |h|
      invariant ctx.Valid() && fresh(ctx) && fresh(ctx.list) && ctx.history == h[..i]
      invariant ctx.buffer != null ==> fresh(ctx.buffer) && fresh(ctx.buffer.pkt)
      invariant ctx.rfcActive <==> Promoted(i, memory)
    {
      assert B.InReach(h[i]);
      PromotedNext(i, memory);
      ctx.Counted();
      ctx.Add(h[i], memory(i));
      assert h[..i + 1] == h[..i] + [h[i]];
    }
    assert h[..|h|] == h;
  }

  lemma NotPromoted(memory: nat -> bool)
    ensures !Promoted(0, memory)
  {
  }

  /** The combined context, whatever the allocator answers when it wants to promote. */
  method ThroughCombo(o: Original, pieces: seq<Piece>, order: seq<nat>, pad: nat -> seq<Byte>,
                      fill: nat -> Byte, memory: nat -> bool)
    returns (complete: bool, pay: seq<Byte>)
    requires Sendable(o, pieces, order)
    ensures complete <==> if Promoted(|order|, memory) then AllBlocksReached(|o.payload|, pieces, order)
                          else AllReached(|o.payload|, pieces, order)
    ensures complete ==> AllReached(|o.payload|, pieces, order) && pay == o.payload
    ensures OctetPieces(|o.payload|, pieces) ==> (complete <==> AllReached(|o.payload|, pieces, order))
  {
    hide B.Holds, B.HolesMatch, B.DataPresent, L.HolesMatch, L.Owners, Covered, Complete, B.BufferComplete;
    hide C.BlocksComplete, AllBlocksReached, AllReached, Promoted, OctetPieces;
    var r := Fragment4(o, pieces);
    ghost var d := o.payload;
    var h := Arriving(r.frags, order, pad);
    CompleteIffReached(r.frags, d, pieces, order, pad);
    BlocksIffReached(r.frags, d, pieces, order, pad);
    BlocksAreBytes(|d|, pieces, order);
    C.DatagramFits(h, d);
    var ctx := DeliverToCombo(h, memory);
    complete, pay := ctx.Reassemble(fill, d);
  }

  /** Without padding the fragments arrive as they were cut. */
  lemma NoPadding(frags: seq<Packet>, order: seq<nat>)
    requires forall i :: 0 <= i < |frags| ==> ETHER_HDR_LEN + frags[i].hdrLen <= frags[i].sz && Unpadded(frags[i])
    requires forall i :: 0 <= i < |order| ==> order[i] < |frags|
    ensures var h := Arriving(frags, order, (i: nat) => []);
      forall i :: 0 <= i < |h| ==> Unpadded(h[i])
  {
  }

  /** The fragment queue, whose caller reassembles on the first call that says so. */
  method ThroughQueue(o: Original, pieces: seq<Piece>, order: seq<nat>, fill: nat -> Byte)
    returns (complete: bool, pay: seq<Byte>)
    requires Sendable(o, pieces, order)
    ensures complete <==> AllReached(|o.payload|, pieces, order)
    ensures complete ==> pay == o.payload
  {
    hide Q.Chain, Q.Meat, Covered, Complete, Q.Filled;
    var r := Fragment4(o, pieces);
    ghost var d := o.payload;
    var pad := (i: nat) => [];
    var h := Arriving(r.frags, order, pad);
    NoPadding(r.frags, order);
    CompleteIffReached(r.frags, d, pieces, order, pad);
    var q := new Q.Queue();
    Q.EmptyQueue(d);
    var i := 0;
    complete, pay := false, [];
    while i < |h|
      invariant i <= |h| && q.ValidFor(d) && fresh(q) && q.history == h[..i]
      invariant !complete && !Complete(h[..i])
    {
      var code := q.EnqueueOf(h[i], d);
      assert h[..i + 1] == h[..i] + [h[i]];
      i := i + 1;
      if code == Q.Done {
        complete := true;
        Q.FullIsComplete(q.frags, q.len, q.lastIn, q.history, d);
        pay := q.Reassemble(fill);
        Q.FilledIsDatagram(pay, q.frags, d);
        MoreIsComplete(h, i, d);
        return;
      }
    }
    assert h[..i] == h;
  }

  /** A prefix that is complete stays complete. */
  lemma MoreIsComplete(h: seq<Packet>, n: nat, d: seq<Byte>)
    requires IsDatagram(d) && AllOf(h, d) && n <= |h| && Complete(h[..n])
    ensures Complete(h)
  {
    CompleteOfDatagram(h[..n], d);
    CompleteOfDatagram(h, d);
    forall x | 0 <= x < |d| ensures Covered(h, x) {
      assert Covered(h[..n], x);
      var i :| 0 <= i < n && Carries(h[..n][i], x);
      assert Carries(h[i], x);
    }
  }

  /** The piece delivered at step `i` has a byte that an earlier step delivered. */
  ghost predicate Clashes(pieces: seq<Piece>, order: seq<nat>, i: nat) {
    i < |order| && order[i] < |pieces| &&
    exists x :: pieces[order[i]].start <= x < pieces[order[i]].start + pieces[order[i]].len
      && Reached(pieces, order[..i], x)
  }

  /** The state of the tree context after the packets `h` of the datagram `d`. */
  ghost predicate InStep(hs: seq<Holes.Hole>, m: int, h: seq<Packet>, packets: seq<Packet>, d: seq<Byte>) {
    T.Tracks(hs, m, h) && T.Tracks(hs, m, packets) && AllOf(h, d) && AllOf(packets, d)
  }

  ghost predicate Overlaps(p: Packet, h: seq<Packet>) {
    exists x :: Carries(p, x) && Covered(h, x)
  }

  /** Among fragments of one datagram, the tree reports an overlap exactly when a byte comes twice. */
  lemma OverlapMeans(hs: seq<Holes.Hole>, m: int, h: seq<Packet>, p: Packet, d: seq<Byte>)
    requires IsDatagram(d) && T.Tracks(hs, m, h) && AllOf(h, d) && FragmentOf(p, d) && Accepted(p)
    ensures T.Repeats(T.Clipped(hs, m, p), p.fragOff, Last(p)) <==> Overlaps(p, h)
  {
    hide Covered, T.Tracks, T.Clipped, Holes.InHoles;
    LimitOfDatagram(h + [p], d);
    forall x | p.fragOff <= x <= Last(p) ensures Holes.InHoles(T.Clipped(hs, m, p), x) <==> !Covered(h, x) {
      T.ClippedTracks(hs, m, h, p, x);
    }
    assert forall x :: Carries(p, x) <==> p.fragOff <= x <= Last(p);
  }

  method TreeStep(ctx: T.HoleTree, p: Packet, self: IntrusiveTree.Node, ghost h: seq<Packet>, ghost d: seq<Byte>)
    returns (overlap: bool)
    requires ctx.Valid() && self !in ctx.Owned()
    requires IsDatagram(d) && FragmentOf(p, d) && InStep(ctx.Holes(), ctx.mostRestrictingLast, h, ctx.packets, d)
    modifies ctx, ctx.tree, ctx.tree.mem.Keys, self
    ensures ctx.Valid() && ctx.tree.mem.Keys <= old(ctx.tree.mem.Keys) + {self}
    ensures overlap <==> ctx.ipv6 && Overlaps(p, h)
    ensures !overlap ==> InStep(ctx.Holes(), ctx.mostRestrictingLast, h + [p], ctx.packets, d)
  {
    hide IntrusiveTree.Root.Sync, T.HoldsTree, T.GoodHoles, IntrusiveTree.Nodes, IntrusiveTree.InOrder, T.Spell,
         T.Tracks, FragmentOf, Covered, T.Clipped, T.Repeats, L.HolesAfter, T.Kept;
    ghost var hs, m := ctx.Holes(), ctx.mostRestrictingLast;
    T.TracksAfter(hs, m, h, p);
    T.KeptTracks(hs, m, ctx.packets, p);
    if Accepted(p) {
      OverlapMeans(hs, m, h, p, d);
    } else {
      assert !Overlaps(p, h);
    }
    overlap := ctx.Add(p, self);
  }

  lemma ClashMeans(frags: seq<Packet>, d: seq<Byte>, pieces: seq<Piece>, order: seq<nat>, pad: nat -> seq<Byte>, i: nat)
    requires IsDatagram(d) && CutFrom(frags, d, pieces) && i < |order|
    requires forall i :: 0 <= i < |order| ==> order[i] < |pieces|
    ensures Overlaps(Arriving(frags, order, pad)[i], Arriving(frags, order, pad)[..i]) <==> Clashes(pieces, order, i)
  {
    hide Covered, Reached;
    var h := Arriving(frags, order, pad);
    assert h[..i] == Arriving(frags, order[..i], pad);
    forall x
      ensures Carries(h[i], x) <==> pieces[order[i]].start <= x < pieces[order[i]].start + pieces[order[i]].len
      ensures Covered(h[..i], x) <==> Reached(pieces, order[..i], x)
    {
      ArrivingCovers(frags, d, pieces, order[..i], pad, x);
      PaddedFragment(frags[order[i]], pad(i), d);
      CarriesOfDatagram(h[i], d, x);
    }
  }

  /** Adds the packets to a new tree context, up to the first overlap under IPv6. */
  method DeliverToTree(h: seq<Packet>, v6: bool, ghost d: seq<Byte>) returns (ctx: T.HoleTree, clash: bool)
    requires IsDatagram(d) && AllOf(h, d)
    ensures clash <==> v6 && exists i :: 0 <= i < |h| && Overlaps(h[i], h[..i])
    ensures !clash ==> ctx.Valid() && InStep(ctx.Holes(), ctx.mostRestrictingLast, h, ctx.packets, d)
  {
    hide IntrusiveTree.Root.Sync, T.HoldsTree, T.GoodHoles, IntrusiveTree.Nodes, IntrusiveTree.InOrder, T.Spell,
         T.Tracks, FragmentOf, Covered, Overlaps;
    clash := false;
    ctx := new T.HoleTree(v6);
    for i := 0 to |h|
      invariant ctx.Valid() && fresh(ctx) && fresh(ctx.tree) && fresh(ctx.tree.mem.Keys) && ctx.ipv6 == v6
      invariant InStep(ctx.Holes(), ctx.mostRestrictingLast, h[..i], ctx.packets, d)
      invariant !clash && forall j :: 0 <= j < i ==> !(v6 && Overlaps(h[j], h[..j]))
    {
      var self := new IntrusiveTree.Node();
      clash := TreeStep(ctx, h[i], self, h[..i], d);
      if clash {
        return;
      }
      assert h[..i + 1] == h[..i] + [h[i]];
    }
    assert h[..|h|] == h;
  }

  /** What a tree context that tracks the packets `h` of `d` gives. */
  method FinishTree(ctx: T.HoleTree, fill: nat -> Byte, ghost h: seq<Packet>, ghost d: seq<Byte>)
    returns (complete: bool, pay: seq<Byte>)
    requires IsDatagram(d) && ctx.Valid() && InStep(ctx.Holes(), ctx.mostRestrictingLast, h, ctx.packets, d)
    ensures complete <==> Complete(h)
    ensures complete ==> pay == d
  {
    hide IntrusiveTree.Root.Sync, T.HoldsTree, T.GoodHoles, IntrusiveTree.Nodes, IntrusiveTree.InOrder, T.Spell,
         T.Tracks, FragmentOf, Covered, Complete, L.Copyable, L.Clean;
    pay := [];
    complete := ctx.IsComplete();
    if complete {
      CompletePackets(ctx.Holes(), ctx.mostRestrictingLast, ctx.packets, d);
      pay := ctx.Reassemble(fill);
      PayloadIsDatagram(ctx.packets, d, pay);
    }
  }

  /** The tree context; under IPv6 the caller gives up at the first overlap. */
  method ThroughTree(o: Original, pieces: seq<Piece>, order: seq<nat>, pad: nat -> seq<Byte>,
                     v6: bool, fill: nat -> Byte)
    returns (complete: bool, clash: bool, pay: seq<Byte>)
    requires Sendable(o, pieces, order)
    ensures clash <==> v6 && exists i :: 0 <= i < |order| && Clashes(pieces, order, i)
    ensures !clash ==> (complete <==> AllReached(|o.payload|, pieces, order)) && (complete ==> pay == o.payload)
  {
    hide InStep, FragmentOf, Covered, Complete, Clashes, Overlaps, AllReached, T.HoleTree.Valid;
    var r := Fragment4(o, pieces);
    ghost var d := o.payload;
    var h := Arriving(r.frags, order, pad);
    CompleteIffReached(r.frags, d, pieces, order, pad);
    forall i | 0 <= i < |h| ensures Overlaps(h[i], h[..i]) <==> Clashes(pieces, order, i) {
      ClashMeans(r.frags, d, pieces, order, pad, i);
    }
    complete, pay := false, [];
    var ctx;
    ctx, clash := DeliverToTree(h, v6, d);
    if !clash {
      complete, pay := FinishTree(ctx, fill, h, d);
    }
  }

  lemma CompletePackets(hs: seq<Holes.Hole>, m: int, packets: seq<Packet>, d: seq<Byte>)
    requires IsDatagram(d) && AllOf(packets, d) && T.Tracks(hs, m, packets) && hs == []
    ensures Complete(packets) && packets != [] && m == Limit(packets) == |d| - 1
    ensures forall i :: 0 <= i < |packets| ==> L.Copyable(packets[i], m) && L.Clean(packets[i], m)
    ensures forall x :: 0 <= x <= m ==> Covered(packets, x)
  {
    L.EmptyIffComplete(hs, packets);
    CompleteKnowsLength(packets, d);
    C.DatagramFits(packets, d);
    assert Covered(packets, 0);
  }
}
