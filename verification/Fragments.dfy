/** Received IPv4 fragments after header decoding, and the specification that every
    reassembly context in `ipfrag/` is measured against: which bytes of the datagram are
    still missing after a history of packets. */
module Fragments {

  type Byte = b: int | 0 <= b < 256

  /** The largest value of the 16-bit offsets; it also stands for "no limit known yet". */
  const MAX16 := 65535

  const ETHER_HDR_LEN := 14

  datatype RawPacket = RawPacket(
    sz: nat,              // bytes on the wire, Ethernet header included
    hdrLen: nat,          // ip_hdr_len
    totalLen: nat,        // ip_total_len
    fragOff: nat,         // ip_frag_off, in bytes
    moreFrags: bool,      // ip_more_frags
    payload: seq<Byte>)   // what follows the IP header, padding included

  /** What the field widths of the IPv4 header allow. */
  ghost predicate Decoded(p: RawPacket) {
    && p.hdrLen <= 60 && p.hdrLen % 4 == 0
    && p.totalLen <= MAX16
    && p.fragOff <= 65528 && p.fragOff % 8 == 0
    && |p.payload| == if p.sz >= ETHER_HDR_LEN + p.hdrLen then p.sz - ETHER_HDR_LEN - p.hdrLen else 0
  }

  type Packet = p: RawPacket | Decoded(p) witness RawPacket(0, 0, 0, 0, false, [])

  /** The validation that opens every context's add function. */
  predicate Accepted(p: Packet) {
    && p.sz >= 34
    && p.totalLen > p.hdrLen
    && p.totalLen + ETHER_HDR_LEN <= p.sz
    && p.totalLen - (p.hdrLen + 1) + p.fragOff <= MAX16
  }

  /** The last byte of the datagram that an accepted packet carries. */
  function Last(p: Packet): int
    requires Accepted(p)
  {
    p.totalLen - (p.hdrLen + 1) + p.fragOff
  }

  /** The fragment's own bytes, without Ethernet padding. */
  function Data(p: Packet): (d: seq<Byte>)
    requires Accepted(p)
    ensures |d| == Last(p) + 1 - p.fragOff > 0
  {
    p.payload[..p.totalLen - p.hdrLen]
  }

  /** True when packet `p` is a final fragment that ends before the limit `m`. */
  predicate Restricts(p: Packet, m: int)
    requires Accepted(p)
  {
    !p.moreFrags && Last(p) < m
  }

  /** The datagram's last byte as far as the history tells: the smallest end of an
      accepted final fragment. */
  function Limit(h: seq<Packet>): (m: int)
    ensures 0 <= m <= MAX16
  {
    if h == [] then MAX16
    else
      var m := Limit(h[..|h| - 1]);
      var p := h[|h| - 1];
      if Accepted(p) && Restricts(p, m) then Last(p) else m
  }

  predicate Carries(p: Packet, x: int) {
    Accepted(p) && p.fragOff <= x <= Last(p)
  }

  ghost predicate Covered(h: seq<Packet>, x: int) {
    exists i :: 0 <= i < |h| && Carries(h[i], x)
  }

  ghost predicate Missing(h: seq<Packet>, x: int) {
    0 <= x <= Limit(h) && !Covered(h, x)
  }

  ghost predicate Complete(h: seq<Packet>) {
    forall x :: 0 <= x <= Limit(h) ==> Covered(h, x)
  }

  /** Byte `b` at offset `x` came out of some packet of the history. */
  ghost predicate Delivered(h: seq<Packet>, x: int, b: Byte) {
    exists i :: 0 <= i < |h| && Carries(h[i], x) && Data(h[i])[x - h[i].fragOff] == b
  }

  lemma LimitSnoc(h: seq<Packet>, p: Packet)
    ensures Limit(h + [p]) == if Accepted(p) && Restricts(p, Limit(h)) then Last(p) else Limit(h)
  {
    assert (h + [p])[..|h|] == h;
  }

  lemma CoveredSnoc(h: seq<Packet>, p: Packet, x: int)
    ensures Covered(h + [p], x) <==> Covered(h, x) || Carries(p, x)
  {
    if Covered(h, x) {
      var i :| 0 <= i < |h| && Carries(h[i], x);
      assert (h + [p])[i] == h[i];
    }
    if Carries(p, x) {
      assert (h + [p])[|h|] == p;
    }
  }

  lemma DeliveredSnoc(h: seq<Packet>, p: Packet, x: int, b: Byte)
    ensures Delivered(h, x, b) ==> Delivered(h + [p], x, b)
    ensures Carries(p, x) && Data(p)[x - p.fragOff] == b ==> Delivered(h + [p], x, b)
  {
    if Delivered(h, x, b) {
      var i :| 0 <= i < |h| && Carries(h[i], x) && Data(h[i])[x - h[i].fragOff] == b;
      assert (h + [p])[i] == h[i];
    }
    if Carries(p, x) && Data(p)[x - p.fragOff] == b {
      assert (h + [p])[|h|] == p;
    }
  }

  /** `buf` with the bytes of `d` written from offset `at`. */
  function Overwrite(buf: seq<Byte>, at: nat, d: seq<Byte>): (r: seq<Byte>)
    requires at + |d| <= |buf|
    ensures |r| == |buf|
    ensures forall x :: 0 <= x < |buf| ==> r[x] == if at <= x < at + |d| then d[x - at] else buf[x]
  {
    buf[..at] + d + buf[at + |d|..]
  }

  // ---- fragments of one datagram

  /** `p` is a fragment of the datagram payload `d`: its data are the bytes of `d` at its offset, and it
      is final exactly when it reaches the end of `d`. Any padding may follow the data in the frame, as
      Ethernet adds to short ones. An empty fragment is allowed: the contexts do not take it. */
  ghost predicate FragmentOf(p: Packet, d: seq<Byte>) {
    && 20 <= p.hdrLen <= p.totalLen && 14 + p.totalLen <= p.sz
    && p.fragOff + Size(p) <= |d|
    && p.payload[..Size(p)] == d[p.fragOff..p.fragOff + Size(p)]
    && (p.moreFrags <==> p.fragOff + Size(p) < |d|)
  }

  /** The length of the data that the header announces. */
  function Size(p: Packet): int {
    p.totalLen - p.hdrLen
  }

  ghost predicate Unpadded(p: Packet) {
    p.sz == 14 + p.totalLen
  }

  /** What is accepted: a frame with an Ethernet and a minimal IPv4 header, and data, all of them in the
      frame, that end at a position of 16 bits. */
  lemma AcceptedMeans(p: Packet)
    ensures Accepted(p) <==> p.sz >= 34 && 0 < Size(p) <= |p.payload| && p.fragOff + Size(p) <= 65536
  {
  }

  /** The datagram fits IPv4's 16-bit total length with the smallest header
      (section 3.1 of RFC 791). */
  ghost predicate IsDatagram(d: seq<Byte>) {
    0 < |d| <= MAX16 - 20
  }

  ghost predicate AllOf(h: seq<Packet>, d: seq<Byte>) {
    forall i :: 0 <= i < |h| ==> FragmentOf(h[i], d)
  }

  /** Within one datagram the limit is either unknown or the datagram's end, and it is
      known exactly when a final fragment with data has come. */
  lemma {:induction false} LimitOfDatagram(h: seq<Packet>, d: seq<Byte>)
    requires IsDatagram(d) && AllOf(h, d)
    ensures Limit(h) == MAX16 || Limit(h) == |d| - 1
    ensures Limit(h) == |d| - 1 <==> Covered(h, |d| - 1)
  {
    if h != [] {
      var g, p := h[..|h| - 1], h[|h| - 1];
      assert AllOf(g, d);
      LimitOfDatagram(g, d);
      assert h == g + [p];
      assert FragmentOf(p, d);
      LimitSnoc(g, p);
      CoveredSnoc(g, p, |d| - 1);
    }
  }

  /** Within one datagram a fragment carries exactly the range that its header announces, with the bytes
      of the datagram. */
  lemma CarriesOfDatagram(p: Packet, d: seq<Byte>, x: int)
    requires IsDatagram(d) && FragmentOf(p, d)
    ensures Carries(p, x) <==> p.fragOff <= x < p.fragOff + p.totalLen - p.hdrLen
    ensures p.hdrLen < p.totalLen ==>
      Accepted(p) && Data(p) == d[p.fragOff..p.fragOff + p.totalLen - p.hdrLen]
  {
  }

  /** Complete means that every byte of the datagram has come. */
  lemma CompleteOfDatagram(h: seq<Packet>, d: seq<Byte>)
    requires IsDatagram(d) && AllOf(h, d)
    ensures Complete(h) <==> forall x :: 0 <= x < |d| ==> Covered(h, x)
  {
    LimitOfDatagram(h, d);
    if Limit(h) == MAX16 {
      assert !Covered(h, |d| - 1);
    }
  }

  /** Bytes delivered by fragments of `d` that fill the whole range are `d`. */
  lemma PayloadIsDatagram(h: seq<Packet>, d: seq<Byte>, pay: seq<Byte>)
    requires IsDatagram(d) && AllOf(h, d) && Complete(h)
    requires |pay| == Limit(h) + 1
    requires forall x :: 0 <= x < |pay| ==> Delivered(h, x, pay[x])
    ensures pay == d
  {
    CompleteKnowsLength(h, d);
    forall x | 0 <= x < |pay| ensures pay[x] == d[x] {
      DeliveredOfDatagram(h, d, x, pay[x]);
    }
  }

  /** A complete history of one datagram knows the datagram's length. */
  lemma CompleteKnowsLength(h: seq<Packet>, d: seq<Byte>)
    requires IsDatagram(d) && AllOf(h, d) && Complete(h)
    ensures Limit(h) == |d| - 1
  {
    LimitOfDatagram(h, d);
    assert Covered(h, |d| - 1);
  }

  lemma DeliveredOfDatagram(h: seq<Packet>, d: seq<Byte>, x: int, b: Byte)
    requires AllOf(h, d) && Delivered(h, x, b)
    ensures 0 <= x < |d| && b == d[x]
  {
    var i :| 0 <= i < |h| && Carries(h[i], x) && Data(h[i])[x - h[i].fragOff] == b;
    assert FragmentOf(h[i], d);
  }
}
