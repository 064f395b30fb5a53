/** `ipfrag.c`: cutting one IPv4 datagram into the requested fragments. */
module Fragmenter {
  import opened Fragments

  /** A packet to be cut, after header decoding. */
  datatype Original = Original(
    isIp: bool,           // ether_type is ETHER_TYPE_IP
    version: nat,
    hdrLen: nat,
    sz: nat,              // bytes on the wire
    dontFrag: bool,
    moreFrags: bool,
    fragOff: nat,
    cksumOk: bool,        // ip_hdr_cksum_calc is 0
    payload: seq<Byte>)

  /** struct fragment: the piece start..start+len-1 of the payload, and whether it has a packet already. */
  datatype Piece = Piece(start: nat, len: nat, taken: bool)

  datatype Result = Ok(frags: seq<Packet>) | Aborted

  /** The checks that open the function; each failure aborts the program. */
  predicate Cuttable(o: Original) {
    && o.isIp && o.version == 4
    && 20 <= o.hdrLen && ETHER_HDR_LEN + o.hdrLen <= o.sz
    && !o.dontFrag && !o.moreFrags && o.fragOff == 0 && o.cksumOk
  }

  predicate PieceOf(c: Piece, n: int) {
    c.start % 8 == 0 && c.start <= n && c.start + c.len <= n && !c.taken
  }

  /** The field widths: a 4-bit count of words, a 16-bit size. */
  ghost predicate Decoded(o: Original) {
    && o.hdrLen <= 60 && o.hdrLen % 4 == 0 && o.sz <= MAX16
    && |o.payload| == if o.sz >= ETHER_HDR_LEN + o.hdrLen then o.sz - ETHER_HDR_LEN - o.hdrLen else 0
  }

  /** The fragment for a piece: the offset and length asked for, the header of the original, no padding. */
  ghost predicate Carved(p: Packet, o: Original, c: Piece) {
    p.fragOff == c.start && Size(p) == |p.payload| == c.len && p.hdrLen == o.hdrLen && Unpadded(p)
  }

  method Fragment4(o: Original, pieces: seq<Piece>) returns (r: Result)
    requires Decoded(o)
    ensures r.Ok? <==> Cuttable(o) && forall i :: 0 <= i < |pieces| ==> PieceOf(pieces[i], |o.payload|)
    ensures r.Ok? ==> |r.frags| == |pieces| && AllOf(r.frags, o.payload)
    ensures r.Ok? ==> forall i :: 0 <= i < |pieces| ==> Carved(r.frags[i], o, pieces[i])
  {
    if !o.isIp || o.version != 4 {
      return Aborted;
    }
    if o.hdrLen < 20 || 14 + o.hdrLen > o.sz {
      return Aborted;
    }
    if o.dontFrag || o.moreFrags || o.fragOff != 0 || !o.cksumOk {
      return Aborted;
    }
    var datamax := o.sz - ETHER_HDR_LEN - o.hdrLen;
    for i := 0 to |pieces|
      invariant forall j :: 0 <= j < i ==> PieceOf(pieces[j], datamax)
    {
      if pieces[i].start % 8 != 0 || pieces[i].start > datamax || pieces[i].start + pieces[i].len > datamax {
        return Aborted;
      }
      if pieces[i].taken {
        return Aborted;
      }
    }
    var frags: seq<Packet> := [];
    for i := 0 to |pieces|
      invariant |frags| == i && AllOf(frags, o.payload)
      invariant forall j :: 0 <= j < i ==> Carved(frags[j], o, pieces[j])
    {
      var c := pieces[i];
      var p := RawPacket(ETHER_HDR_LEN + o.hdrLen + c.len, o.hdrLen, o.hdrLen + c.len, c.start,
                         c.start + c.len < datamax, o.payload[c.start..c.start + c.len]);
      frags := frags + [p];
    }
    r := Ok(frags);
  }
}
