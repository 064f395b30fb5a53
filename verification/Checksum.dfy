/** `ipcksum.h` and `ipcksum.c`: the Internet checksum (RFC 1071) and its incremental update
    (RFC 1624). The sum is modulo 65535 with two representations of zero. */
module Checksum {
  import opened Fragments

  const M := 65535

  // ---- residues

  ghost predicate Cong(a: int, b: int) {
    (a - b) % M == 0
  }

  lemma CongOf(a: int, b: int, k: int)
    requires a == b + M * k
    ensures Cong(a, b)
  {
  }

  lemma CongGet(a: int, b: int) returns (k: int)
    requires Cong(a, b)
    ensures a == b + M * k
  {
    k := (a - b) / M;
  }

  lemma CongSum(a: int, b: int, c: int, d: int)
    requires Cong(a, b) && Cong(c, d)
    ensures Cong(a + c, b + d) && Cong(a - c, b - d)
  {
    hide Cong;
    var j := CongGet(a, b);
    var k := CongGet(c, d);
    CongOf(a + c, b + d, j + k);
    CongOf(a - c, b - d, j - k);
  }

  lemma CongVia(a: int, b: int, c: int)
    requires Cong(a, b) && Cong(c, b)
    ensures Cong(a, c)
  {
    hide Cong;
    var j := CongGet(a, b);
    var k := CongGet(c, b);
    CongOf(a, c, j - k);
  }

  lemma CongTimes(a: int, b: int)
    requires Cong(a, b)
    ensures Cong(256 * a, 256 * b)
  {
    hide Cong;
    var k := CongGet(a, b);
    CongOf(256 * a, 256 * b, 256 * k);
  }

  /** A sum of 16 bits is determined by its residue and by whether it is zero. */
  lemma SameSum(a: int, b: int)
    requires 0 <= a <= M && 0 <= b <= M && Cong(a, b) && (a == 0 <==> b == 0)
    ensures a == b
  {
  }

  // ---- folding

  /** The carry loop of ip_cksum_postprocess and ip_update_cksum16. */
  function Fold(x: nat): (r: nat)
    ensures r <= M
    decreases x
  {
    if x / 65536 == 0 then x else Fold(x % 65536 + x / 65536)
  }

  /** Folding keeps the residue, and only zero folds to zero. */
  lemma {:induction false} FoldMeans(x: nat)
    ensures Fold(x) <= M && Cong(Fold(x), x) && (Fold(x) == 0 <==> x == 0)
    decreases x
  {
    hide Cong;
    var h, l := x / 65536, x % 65536;
    if h == 0 {
      CongOf(x, x, 0);
    } else {
      FoldMeans(l + h);
      CongOf(x, l + h, h);
      CongOf(l + h, l + h, 0);
      CongVia(Fold(l + h), l + h, l + h);
      CongSwap(x, l + h);
      CongTrans(Fold(l + h), l + h, x);
    }
  }

  lemma CongSwap(a: int, b: int)
    requires Cong(a, b)
    ensures Cong(b, a)
  {
    hide Cong;
    var k := CongGet(a, b);
    CongOf(b, a, -k);
  }

  lemma CongTrans(a: int, b: int, c: int)
    requires Cong(a, b) && Cong(b, c)
    ensures Cong(a, c)
  {
    CongSwap(b, c);
    CongVia(a, b, c);
  }

  /** One's complement of 16 bits. */
  function Not16(x: int): int {
    M - x
  }

  // ---- byte order

  /** htons and ntohs on a machine of the given byte order. */
  function Swap(x: nat, big: bool): nat {
    if big then x else x % 256 * 256 + x / 256
  }

  /** hdr_get16h: two bytes read in the machine's byte order. */
  function Word(b0: Byte, b1: Byte, big: bool): nat {
    if big then 256 * b0 + b1 else b0 + 256 * b1
  }

  /** The sum of the 16-bit words, with a zero byte after an odd last one. */
  ghost function Sum(s: seq<Byte>, big: bool): nat {
    if s == [] then 0
    else if |s| == 1 then Word(s[0], 0, big)
    else Word(s[0], s[1], big) + Sum(s[2..], big)
  }

  lemma SwapMeans(x: nat)
    requires x <= M
    ensures Swap(x, false) <= M && Cong(Swap(x, false), 256 * x) && (Swap(x, false) == 0 <==> x == 0)
    ensures Swap(Not16(x), false) == Not16(Swap(x, false))
  {
    hide Cong;
    var h, l := x / 256, x % 256;
    SwapParts(h, l);
    SwapParts(255 - h, 255 - l);
    assert x == 256 * h + l && Not16(x) == 256 * (255 - h) + (255 - l);
    hide Swap;
    CongOf(Swap(x, false), 256 * x, -h);
  }

  lemma SwapParts(h: nat, l: nat)
    requires h < 256 && l < 256
    ensures Swap(256 * h + l, false) == 256 * l + h
  {
    assert (256 * h + l) / 256 == h && (256 * h + l) % 256 == l;
  }

  /** Reading the words the other way round multiplies the sum by 256. */
  lemma {:induction false} SumOtherOrder(s: seq<Byte>)
    ensures Cong(Sum(s, true), 256 * Sum(s, false)) && (Sum(s, true) == 0 <==> Sum(s, false) == 0)
  {
    hide Cong;
    if |s| >= 2 {
      SumOtherOrder(s[2..]);
      WordOtherOrder(s[0], s[1]);
      CongSum(Word(s[0], s[1], true), 256 * Word(s[0], s[1], false), Sum(s[2..], true), 256 * Sum(s[2..], false));
    } else if |s| == 1 {
      WordOtherOrder(s[0], 0);
    } else {
      CongOf(0, 0, 0);
    }
  }

  lemma WordOtherOrder(b0: Byte, b1: Byte)
    ensures Cong(Word(b0, b1, true), 256 * Word(b0, b1, false))
  {
    hide Cong;
    var k: int := b1;
    CongOf(Word(b0, b1, true), 256 * Word(b0, b1, false), -k);
  }

  /** The folded sum, swapped to network order, does not depend on the machine. */
  lemma ByteOrder(s: seq<Byte>, big: bool)
    ensures Fold(Sum(s, big)) <= M && Swap(Fold(Sum(s, big)), big) == Fold(Sum(s, true))
  {
    hide Cong, Fold, Sum;
    FoldMeans(Sum(s, big));
    FoldMeans(Sum(s, true));
    if !big {
      var f, g := Fold(Sum(s, false)), Fold(Sum(s, true));
      SwapMeans(f);
      SumOtherOrder(s);
      CongTimes(f, Sum(s, false));
      CongTrans(Swap(f, false), 256 * f, 256 * Sum(s, false));
      CongTrans(g, Sum(s, true), 256 * Sum(s, false));
      CongVia(Swap(f, false), 256 * Sum(s, false), g);
      hide Swap;
      SameSum(Swap(f, false), g);
    }
  }

  // ---- computing the checksum

  const TWO32 := 0x1_0000_0000

  /** Addition to a 32-bit field. */
  function Add32(a: nat, b: nat): (r: nat)
    ensures a + b < TWO32 ==> r == a + b
  {
    (a + b) % TWO32
  }

  lemma {:induction false} SumBound(s: seq<Byte>, big: bool)
    ensures Sum(s, big) <= M * ((|s| + 1) / 2)
  {
    if |s| >= 2 {
      SumBound(s[2..], big);
      assert (|s| + 1) / 2 == (|s[2..]| + 1) / 2 + 1;
    }
  }

  /** The sum byte by byte: bytes at even places count 256 times, wherever the buffer ends. */
  ghost function Weights(s: seq<Byte>): nat {
    if s == [] then 0
    else
      var n: nat := |s| - 1;
      var b: nat := s[n];
      Weights(s[..n]) + if n % 2 == 0 then 256 * b else b
  }

  lemma {:induction false} SumIsWeights(s: seq<Byte>)
    ensures Sum(s, true) == Weights(s)
  {
    if |s| >= 2 {
      SumIsWeights(s[2..]);
      WeightsTail(s);
    } else if |s| == 1 {
      assert s[..0] == [];
    }
  }

  lemma {:induction false} WeightsTail(s: seq<Byte>)
    requires |s| >= 2
    ensures Weights(s) == 256 * (s[0] as int) + s[1] as int + Weights(s[2..])
  {
    var n := |s| - 1;
    if n == 1 {
      assert s[..1][..0] == [] && s[2..] == [];
    } else {
      WeightsTail(s[..n]);
      assert s[..n][2..] == s[2..][..n - 2];
    }
  }

  lemma SumNothing(big: bool)
    ensures Sum([], big) == 0
  {
  }

  lemma SumRest(s: seq<Byte>, i: nat, big: bool)
    requires i + 2 <= |s|
    ensures Sum(s[i..], big) == Word(s[i], s[i + 1], big) + Sum(s[i + 2..], big)
  {
    assert s[i..][2..] == s[i + 2..];
  }

  /** struct ip_cksum_ctx. */
  class CksumCtx {
    var sum: nat

    constructor ()
      ensures sum == 0
    {
      sum := 0;
    }

    /** ip_cksum_feed on a machine of either byte order: the 32-bit accumulator does not overflow. */
    method Feed(buf: seq<Byte>, big: bool)
      requires sum + M * ((|buf| + 1) / 2) < TWO32
      modifies this
      ensures sum == old(sum) + Sum(buf, big)
    {
      hide Sum, Word, Swap, Add32;
      SumBound(buf, big);
      SumNothing(big);
      ghost var total := sum + Sum(buf, big);
      var i := 0;
      var acc: nat := sum;
      assert buf[0..] == buf;
      while |buf| - i >= 16
        invariant 0 <= i <= |buf| && acc + Sum(buf[i..], big) == total < TWO32
      {
        acc := AddWords(acc, buf, i, big);
        i := i + 16;
      }
      while |buf| - i >= 2
        invariant 0 <= i <= |buf| && acc + Sum(buf[i..], big) == total < TWO32
      {
        SumRest(buf, i, big);
        acc := Add32(acc, Word(buf[i], buf[i + 1], big));
        i := i + 2;
      }
      if |buf| - i >= 1 {
        LastByte(buf, i, big);
        acc := Add32(acc, Swap(Word(buf[i], 0, true), big));
      } else {
        assert buf[i..] == [];
      }
      sum := acc;
    }

    /** ip_cksum_postprocess. */
    method Postprocess(big: bool) returns (ck: nat)
      ensures ck == Swap(Not16(Fold(sum)), big)
    {
      FoldMeans(sum);
      var x := sum;
      while x / 65536 != 0
        invariant Fold(x) == Fold(sum)
        decreases x
      {
        x := x % 65536 + x / 65536;
      }
      ck := Swap(Not16(x), big);
    }
  }

  /** The eight additions of one round. */
  method AddWords(sum: nat, buf: seq<Byte>, i: nat, big: bool) returns (acc: nat)
    requires i + 16 <= |buf| && sum + Sum(buf[i..], big) < TWO32
    ensures acc + Sum(buf[i + 16..], big) == sum + Sum(buf[i..], big)
  {
    hide Sum, Word, Add32;
    acc := sum;
    var k := 0;
    while k < 8
      invariant 0 <= k <= 8 && acc + Sum(buf[i + 2 * k..], big) == sum + Sum(buf[i..], big)
    {
      SumRest(buf, i + 2 * k, big);
      acc := Add32(acc, Word(buf[i + 2 * k], buf[i + 2 * k + 1], big));
      k := k + 1;
    }
  }

  /** ip_cksum_add_leftover adds what a zero byte after the last one would give. */
  lemma LastByte(buf: seq<Byte>, i: nat, big: bool)
    requires i + 1 == |buf|
    ensures Sum(buf[i..], big) == Swap(Word(buf[i], 0, true), big)
  {
    assert buf[i..] == [buf[i]];
  }

  /** The checksum of RFC 1071, section 1: the complement of the folded sum of big-endian words. */
  ghost function Checksum(s: seq<Byte>): (ck: nat)
    ensures ck <= M
  {
    Not16(Fold(Sum(s, true)))
  }

  /** ip_hdr_cksum_calc, for any buffer of up to 65535 bytes and either byte order. */
  method Calc(buf: seq<Byte>, big: bool) returns (ck: nat)
    requires |buf| <= MAX16
    ensures ck == Checksum(buf)
  {
    var ctx := new CksumCtx();
    ctx.Feed(buf, big);
    ck := ctx.Postprocess(big);
    ByteOrder(buf, big);
    SwapMeans(Fold(Sum(buf, big)));
  }

  // ---- verification

  ghost predicate Verifies(s: seq<Byte>) {
    Checksum(s) == 0
  }

  lemma VerifiesIff(s: seq<Byte>)
    ensures Verifies(s) <==> Sum(s, true) > 0 && Cong(Sum(s, true), 0)
  {
    var x := Sum(s, true);
    FoldMeans(x);
    if Verifies(s) {
      assert Fold(x) == M;
      CongSwap(Fold(x), x);
      CongOf(M, 0, 1);
      CongTrans(x, M, 0);
    } else if x > 0 && Cong(x, 0) {
      CongTrans(Fold(x), x, 0);
      CongOf(M, 0, 1);
      CongVia(Fold(x), 0, M);
      SameSum(Fold(x), M);
    }
  }

  /** `s` with the big-endian word `w` at position `i`. */
  function PutWord(s: seq<Byte>, i: nat, w: nat): (r: seq<Byte>)
    requires i + 2 <= |s| && w <= M
    ensures |r| == |s| && Word(r[i], r[i + 1], true) == w
  {
    s[i := w / 256][i + 1 := w % 256]
  }

  function GetWord(s: seq<Byte>, i: nat): (w: nat)
    requires i + 2 <= |s|
    ensures w <= M
  {
    Word(s[i], s[i + 1], true)
  }

  lemma {:induction false} SumPut(s: seq<Byte>, i: nat, w: nat)
    requires i % 2 == 0 && i + 2 <= |s| && w <= M
    ensures Sum(PutWord(s, i, w), true) == Sum(s, true) - GetWord(s, i) + w
    decreases i
  {
    var r := PutWord(s, i, w);
    if i == 0 {
      assert r[2..] == s[2..];
    } else {
      SumPut(s[2..], i - 2, w);
      assert r[2..] == PutWord(s[2..], i - 2, w);
    }
  }

  // ---- storing the checksum

  /** Where the IPv4 header has its checksum. */
  const CK := 10

  /** Storing the checksum that was computed over a zero field makes the header verify. */
  lemma StoredVerifies(s: seq<Byte>)
    requires CK + 2 <= |s| && GetWord(s, CK) == 0
    ensures Verifies(PutWord(s, CK, Checksum(s)))
  {
    hide Cong, Sum, Fold;
    var x, c := Sum(s, true), Checksum(s);
    FoldMeans(x);
    SumPut(s, CK, c);
    var k := CongGet(Fold(x), x);
    CongOf(x + c, 0, 1 - k);
    VerifiesIff(PutWord(s, CK, c));
  }

  /** ip_set_hdr_cksum_calc. The first byte is the version and the header's length in words of four
      bytes; the program aborts exactly if that is more than there is. Otherwise the header verifies if it
      has a checksum field, which is bytes 10 and 11, and nothing else changes. */
  method SetHdrCksumCalc(pkt: array<Byte>, iplen: nat, big: bool) returns (aborted: bool)
    requires 12 <= pkt.Length && iplen <= pkt.Length
    modifies pkt
    ensures forall i :: 0 <= i < pkt.Length && i != 10 && i != 11 ==> pkt[i] == old(pkt[i])
    ensures forall v: nat, ihl: nat :: ihl < 16 && pkt[0] == 16 * v + ihl ==>
      && (aborted <==> 4 * ihl > iplen)
      && (!aborted ==> 256 * (pkt[10] as int) + pkt[11] as int == Checksum(PutWord(old(pkt[..]), 10, 0)[..4 * ihl]))
      && (!aborted && 3 <= ihl ==> Verifies(pkt[..4 * ihl]))
  {
    SetWord(pkt, CK, 0);
    var n := HdrLen(pkt[..]);
    forall v: nat, ihl: nat | ihl < 16 && pkt[0] == 16 * v + ihl ensures n == 4 * ihl {
      LowNibble(v, ihl);
    }
    if n > iplen {
      return true;
    }
    aborted := false;
    var ck := Calc(pkt[..n], big);
    ghost var zeroed := pkt[..n];
    SetWord(pkt, CK, ck);
    if CK + 2 <= n {
      StoredVerifies(zeroed);
      assert pkt[..n] == PutWord(zeroed, CK, ck);
    }
  }

  lemma LowNibble(v: nat, ihl: nat)
    requires ihl < 16
    ensures (16 * v + ihl) % 16 == ihl
  {
  }

  /** ip_hdr_len. */
  function HdrLen(s: seq<Byte>): nat
    requires |s| > 0
  {
    s[0] % 16 * 4
  }

  /** hdr_set16n. */
  method SetWord(pkt: array<Byte>, i: nat, w: nat)
    requires i + 2 <= pkt.Length && w <= M
    modifies pkt
    ensures pkt[..] == PutWord(old(pkt[..]), i, w)
  {
    pkt[i] := w / 256;
    pkt[i + 1] := w % 256;
  }

  // ---- incremental update

  /** The value of ip_update_cksum16: equation 3 of RFC 1624. */
  function Update16(ck: nat, was: nat, new16: nat): (r: nat)
    requires ck <= M && was <= M && new16 <= M
    ensures r <= M
  {
    Not16(Fold(Not16(ck) + Not16(was) + new16))
  }

  method UpdateCksum16(ck: nat, was: nat, new16: nat) returns (r: nat)
    requires ck <= M && was <= M && new16 <= M
    ensures r == Update16(ck, was, new16)
  {
    var x: nat := Not16(ck);
    x := x + Not16(was);
    x := x + new16;
    while x / 65536 != 0
      invariant Fold(x) == Fold(Not16(ck) + Not16(was) + new16)
      decreases x
    {
      x := x % 65536 + x / 65536;
    }
    r := Not16(x);
  }

  /** The update moves the checksum by as much as the word, the other way. */
  lemma UpdateMoves(ck: nat, was: nat, new16: nat)
    requires ck <= M && was <= M && new16 <= M
    ensures Cong(Update16(ck, was, new16), ck + was - new16)
  {
    hide Cong, Fold;
    var x := Not16(ck) + Not16(was) + new16;
    FoldMeans(x);
    var f := Fold(x);
    var k := CongGet(f, x);
    assert Update16(ck, was, new16) == M - f;
    hide Update16, Not16;
    MovedBy(f, x, ck + was - new16, k);
  }

  lemma MovedBy(f: int, x: int, d: int, k: int)
    requires f == x + M * k && x == 2 * M - d
    ensures Cong(M - f, d)
  {
    hide Cong;
    CongOf(M - f, d, -1 - k);
  }

  /** Only clearing a word of ones under a checksum of ones gives a checksum of ones. */
  lemma UpdateOnes(ck: nat, was: nat, new16: nat)
    requires ck <= M && was <= M && new16 <= M
    ensures Update16(ck, was, new16) == M <==> ck == M && was == M && new16 == 0
  {
    hide Cong, Fold;
    FoldMeans(Not16(ck) + Not16(was) + new16);
  }

  /** A header whose checksum field moved by as much as its other words, the other way, still verifies
      unless all of it is zero. `rest` is the sum of the other words. */
  lemma MovedVerifies(s: seq<Byte>, rest: nat, c: nat)
    requires c <= M && Sum(s, true) == rest + c && Cong(rest + c, 0)
    ensures Verifies(s) <==> rest > 0 || c == M
  {
    VerifiesIff(s);
    if rest == 0 && c > 0 {
      CongOf(M, 0, 1);
      CongVia(c, 0, M);
      SameSum(c, M);
    }
  }

  /** `s` with a zero checksum field. */
  function Bare(s: seq<Byte>): (r: seq<Byte>)
    requires CK + 2 <= |s|
    ensures |r| == |s|
  {
    PutWord(s, CK, 0)
  }

  /** A header that verified keeps verifying when one of its words changes together with the checksum,
      exactly if some word of the new header besides the checksum is not zero, or the word and the
      checksum both were all ones. */
  lemma UpdateKeepsVerifying(s: seq<Byte>, i: nat, w: nat)
    requires CK + 2 <= |s| && i % 2 == 0 && i + 2 <= |s| && i != CK && w <= M && Verifies(s)
    ensures Verifies(PutWord(PutWord(s, i, w), CK, Update16(GetWord(s, CK), GetWord(s, i), w)))
      <==> Sum(Bare(PutWord(s, i, w)), true) > 0 || (GetWord(s, CK) == M && GetWord(s, i) == M)
  {
    hide Cong, Sum, Fold, PutWord, GetWord, Update16;
    var ck, was := GetWord(s, CK), GetWord(s, i);
    var c' := Update16(ck, was, w);
    var s1 := PutWord(s, i, w);
    SumPut(s, i, w);
    assert GetWord(s1, CK) == ck by { OtherWord(s, i, w); }
    SumPut(s1, CK, c');
    SumPut(s1, CK, 0);
    SumPut(Bare(s1), i, 0);
    assert GetWord(Bare(s1), i) == w by { BareWord(s, i, w); }
    VerifiesIff(s);
    UpdateMoves(ck, was, w);
    var j := CongGet(Sum(s, true), 0);
    var k := CongGet(c', ck + was - w);
    CongOf(Sum(Bare(s1), true) + c', 0, j + k);
    MovedVerifies(PutWord(s1, CK, c'), Sum(Bare(s1), true), c');
    UpdateOnes(ck, was, w);
  }

  lemma BareWord(s: seq<Byte>, i: nat, w: nat)
    requires CK + 2 <= |s| && i % 2 == 0 && i + 2 <= |s| && i != CK && w <= M
    ensures GetWord(Bare(PutWord(s, i, w)), i) == w
  {
  }

  lemma OtherWord(s: seq<Byte>, i: nat, w: nat)
    requires CK + 2 <= |s| && i % 2 == 0 && i + 2 <= |s| && i != CK && w <= M
    ensures GetWord(PutWord(s, i, w), CK) == GetWord(s, CK)
  {
  }

  /** An update that starts from a checksum below 0xffff, or does not clear a word of ones, gives the
      checksum of any sum with the right residue, exactly if that sum is not zero. */
  lemma UpdateExact(ck: nat, was: nat, new16: nat, sum: nat)
    requires ck <= M && was <= M && new16 <= M && !(ck == M && was == M && new16 == 0)
    requires Cong(sum, M - ck - was + new16)
    ensures Update16(ck, was, new16) < M
    ensures Update16(ck, was, new16) == Not16(Fold(sum)) <==> sum > 0
  {
    hide Cong, Fold;
    var x := Not16(ck) + Not16(was) + new16;
    FoldMeans(x);
    FoldMeans(sum);
    CongOf(x, M - ck - was + new16, 1);
    CongVia(x, M - ck - was + new16, sum);
    CongTrans(Fold(x), x, sum);
    CongSwap(Fold(sum), sum);
    CongTrans(Fold(x), sum, Fold(sum));
    if sum > 0 {
      SameSum(Fold(x), Fold(sum));
    }
  }

  /** If the old value was the computed checksum, the updated one is the recomputed one, exactly if some
      other word of the new header is not zero. `s` and the new header have a zero checksum field. */
  lemma UpdateIsRecomputation(s: seq<Byte>, i: nat, w: nat)
    requires CK + 2 <= |s| && i % 2 == 0 && i + 2 <= |s| && i != CK && w <= M
    ensures var s' := PutWord(s, i, w);
      Update16(Checksum(s), GetWord(s, i), w) == Checksum(s') <==> Sum(s', true) > 0
  {
    hide Cong, Sum, Fold, PutWord;
    var x, was := Sum(s, true), GetWord(s, i);
    SumPut(s, i, w);
    SumPut(s, i, 0);
    FoldMeans(x);
    var k := CongGet(Fold(x), x);
    CongOf(x - was + w, M - Checksum(s) - was + w, -k);
    UpdateExact(Checksum(s), was, w, x - was + w);
  }

  /** ip_update_cksum32: two updates in a row. */
  function Update32(ck: nat, was: nat, new32: nat): (r: nat)
    requires ck <= M && was < TWO32 && new32 < TWO32
    ensures r <= M
  {
    Update16(Update16(ck, was / 65536, new32 / 65536), was % 65536, new32 % 65536)
  }

  /** The same for two neighbouring words. */
  lemma Update32IsRecomputation(s: seq<Byte>, i: nat, w1: nat, w2: nat)
    requires CK + 2 <= |s| && i % 2 == 0 && i + 4 <= |s| && i != CK && i + 2 != CK && w1 <= M && w2 <= M
    ensures var s' := PutWord(PutWord(s, i, w1), i + 2, w2);
      Update32(Checksum(s), GetWord(s, i) * 65536 + GetWord(s, i + 2), w1 * 65536 + w2) == Checksum(s') <==>
        Sum(s', true) > 0
  {
    hide Cong, Sum, Fold, PutWord, GetWord, Update16;
    var x, a, b := Sum(s, true), GetWord(s, i), GetWord(s, i + 2);
    var s1 := PutWord(s, i, w1);
    SumPut(s, i, w1);
    SumPut(s, i, 0);
    assert GetWord(s1, i + 2) == b by { NextWord(s, i, w1); }
    SumPut(s1, i + 2, w2);
    SumPut(s1, i + 2, 0);
    Halves(a, b);
    Halves(w1, w2);
    TwoUpdates(Checksum(s), a, w1, b, w2, x);
  }

  /** The same for two neighbouring words: the 32-bit update keeps a header verifying, exactly if some
      word besides the checksum is not zero, or both words and the checksum were all ones. */
  lemma Update32KeepsVerifying(s: seq<Byte>, i: nat, w1: nat, w2: nat)
    requires CK + 2 <= |s| && i % 2 == 0 && i + 4 <= |s| && i != CK && i + 2 != CK && w1 <= M && w2 <= M
    requires Verifies(s)
    ensures var s' := PutWord(PutWord(s, i, w1), i + 2, w2);
      var c' := Update32(GetWord(s, CK), GetWord(s, i) * 65536 + GetWord(s, i + 2), w1 * 65536 + w2);
      Verifies(PutWord(s', CK, c')) <==>
        (Sum(Bare(s'), true) > 0 || (GetWord(s, CK) == M && GetWord(s, i) == M && GetWord(s, i + 2) == M))
  {
    hide Cong, Sum, Fold, PutWord, GetWord, Update16;
    var ck, a, b := GetWord(s, CK), GetWord(s, i), GetWord(s, i + 2);
    Halves(a, b);
    Halves(w1, w2);
    var c1 := Update16(ck, a, w1);
    var c2 := Update16(c1, b, w2);
    var s2 := PutWord(PutWord(s, i, w1), i + 2, w2);
    SumPutTwo(s, i, w1, w2);
    SumPut(s2, CK, c2);
    SumPut(s2, CK, 0);
    VerifiesIff(s);
    UpdateMoves(ck, a, w1);
    UpdateMoves(c1, b, w2);
    var j := CongGet(Sum(s, true), 0);
    var k := CongGet(c1, ck + a - w1);
    var l := CongGet(c2, c1 + b - w2);
    CongOf(Sum(Bare(s2), true) + c2, 0, j + k + l);
    MovedVerifies(PutWord(s2, CK, c2), Sum(Bare(s2), true), c2);
    UpdateOnes(ck, a, w1);
    UpdateOnes(c1, b, w2);
  }

  /** Two words put in a row, and what they leave for the others. */
  lemma SumPutTwo(s: seq<Byte>, i: nat, w1: nat, w2: nat)
    requires CK + 2 <= |s| && i % 2 == 0 && i + 4 <= |s| && i != CK && i + 2 != CK && w1 <= M && w2 <= M
    ensures var s' := PutWord(PutWord(s, i, w1), i + 2, w2);
      && Sum(s', true) == Sum(s, true) - GetWord(s, i) + w1 - GetWord(s, i + 2) + w2
      && GetWord(s', CK) == GetWord(s, CK) && Sum(Bare(s'), true) >= w1 + w2
  {
    hide Sum, PutWord, GetWord;
    var s1 := PutWord(s, i, w1);
    var s2 := PutWord(s1, i + 2, w2);
    SumPut(s, i, w1);
    NextWord(s, i, w1);
    SumPut(s1, i + 2, w2);
    OtherWord(s, i, w1);
    OtherWord(s1, i + 2, w2);
    BareTwo(s, i, w1, w2);
    SumPut(Bare(s2), i, 0);
    NextWord(Bare(s2), i, 0);
    SumPut(PutWord(Bare(s2), i, 0), i + 2, 0);
  }

  lemma BareTwo(s: seq<Byte>, i: nat, w1: nat, w2: nat)
    requires CK + 2 <= |s| && i % 2 == 0 && i + 4 <= |s| && i != CK && i + 2 != CK && w1 <= M && w2 <= M
    ensures var t := Bare(PutWord(PutWord(s, i, w1), i + 2, w2));
      GetWord(t, i) == w1 && GetWord(t, i + 2) == w2
  {
  }

  lemma Halves(a: nat, b: nat)
    requires a <= M && b <= M
    ensures a * 65536 + b < TWO32 && (a * 65536 + b) / 65536 == a && (a * 65536 + b) % 65536 == b
  {
  }

  lemma TwoUpdates(c: nat, a: nat, w1: nat, b: nat, w2: nat, x: nat)
    requires a <= M && b <= M && w1 <= M && w2 <= M && a <= x && 0 <= x - a + w1 - b + w2 && c == Not16(Fold(x))
    ensures Update16(Update16(c, a, w1), b, w2) == Not16(Fold(x - a + w1 - b + w2)) <==> x - a + w1 - b + w2 > 0
  {
    hide Cong, Fold, Update16;
    FoldMeans(x);
    var k := CongGet(Fold(x), x);
    CongOf(x - a + w1, M - c - a + w1, -k);
    UpdateExact(c, a, w1, x - a + w1);
    var c1 := Update16(c, a, w1);
    UpdateMoves(c, a, w1);
    var j := CongGet(c1, c + a - w1);
    hide Not16;
    CongOf(x - a + w1 - b + w2, M - c1 - b + w2, j - k);
    UpdateExact(c1, b, w2, x - a + w1 - b + w2);
  }

  lemma NextWord(s: seq<Byte>, i: nat, w: nat)
    requires i + 4 <= |s| && w <= M
    ensures GetWord(PutWord(s, i, w), i + 2) == GetWord(s, i + 2)
  {
  }

  // ---- decrementing the time to live

  /** The time to live and the protocol share a word. */
  const TTL := 8

  lemma {:induction false} SumPositive(s: seq<Byte>)
    requires s != [] && s[0] > 0
    ensures Sum(s, true) > 0
  {
  }

  lemma PrefixPut(s: seq<Byte>, n: nat, i: nat, w: nat)
    requires i + 2 <= n <= |s| && w <= M
    ensures PutWord(s, i, w)[..n] == PutWord(s[..n], i, w) && GetWord(s[..n], i) == GetWord(s, i)
  {
  }

  /** The header with one less time to live and a zero checksum field. */
  ghost function Aged(s: seq<Byte>): (r: seq<Byte>)
    requires CK + 2 <= |s| && s[TTL] > 0
    ensures |r| == |s|
  {
    Bare(PutWord(s, TTL, Word(s[TTL] - 1, s[TTL + 1], true)))
  }

  /** ip_decr_ttl_cksum_update. A header that verified still verifies, and a checksum that was the
      computed one is the recomputed one, exactly if the header is not all zero besides the checksum;
      a first byte with a version suffices. */
  method DecrTtl(pkt: array<Byte>) returns (alive: bool)
    requires pkt.Length >= 20 && pkt[8] > 0
    modifies pkt
    ensures pkt[8] == old(pkt[8]) - 1 && (alive <==> pkt[8] > 0)
    ensures forall i :: 0 <= i < pkt.Length && i != 8 && i != 10 && i != 11 ==> pkt[i] == old(pkt[i])
    ensures forall n :: 20 <= n <= pkt.Length && old(Verifies(pkt[..n])) ==>
      (Verifies(pkt[..n]) <==> old(Sum(Aged(pkt[..n]), true)) > 0)
    ensures forall n :: 20 <= n <= pkt.Length && old(Stored(pkt[..n])) ==>
      (Stored(pkt[..n]) <==> old(Sum(Aged(pkt[..n]), true)) > 0)
    ensures forall n :: 20 <= n <= pkt.Length && pkt[0] > 0 ==> old(Sum(Aged(pkt[..n]), true)) > 0
  {
    ghost var s := pkt[..];
    var ck := GetWord(pkt[..], CK);
    var ttl, proto := pkt[TTL], pkt[TTL + 1];
    var wholeOld := Word(ttl, proto, true);
    ttl := ttl - 1;
    var wholeNew := Word(ttl, proto, true);
    ck := UpdateCksum16(ck, wholeOld, wholeNew);
    SetWord(pkt, CK, ck);
    pkt[TTL] := ttl;
    alive := ttl > 0;
    assert pkt[..] == Decremented(s);
    hide Decremented, Aged, Verifies, Stored, Sum;
    forall n | 20 <= n <= pkt.Length
      ensures Verifies(s[..n]) ==> (Verifies(pkt[..n]) <==> Sum(Aged(s[..n]), true) > 0)
      ensures Stored(s[..n]) ==> (Stored(pkt[..n]) <==> Sum(Aged(s[..n]), true) > 0)
      ensures s[0] > 0 ==> Sum(Aged(s[..n]), true) > 0
    {
      assert pkt[..n] == Decremented(s)[..n];
      DecrementedKeeps(s, n);
    }
    assert forall n :: 20 <= n <= pkt.Length ==> old(pkt[..n]) == s[..n];
  }

  /** The checksum field holds the computed checksum. */
  ghost predicate Stored(s: seq<Byte>)
    requires CK + 2 <= |s|
  {
    GetWord(s, CK) == Checksum(Bare(s))
  }

  /** What ip_decr_ttl_cksum_update makes of the header. */
  ghost function Decremented(s: seq<Byte>): (r: seq<Byte>)
    requires CK + 2 <= |s| && s[TTL] > 0
    ensures |r| == |s|
  {
    var w := Word(s[TTL] - 1, s[TTL + 1], true);
    PutWord(PutWord(s, TTL, w), CK, Update16(GetWord(s, CK), GetWord(s, TTL), w))
  }

  lemma DecrementedPrefix(s: seq<Byte>, n: nat)
    requires CK + 2 <= n <= |s| && s[TTL] > 0
    ensures Decremented(s)[..n] == Decremented(s[..n])
  {
    hide Update16, PutWord, GetWord;
    var w := Word(s[TTL] - 1, s[TTL + 1], true);
    var c := Update16(GetWord(s, CK), GetWord(s, TTL), w);
    PrefixPut(s, n, TTL, w);
    PrefixPut(s, n, CK, c);
    PrefixPut(PutWord(s, TTL, w), n, CK, c);
  }

  /** The three facts for the header of `n` bytes. */
  lemma DecrementedKeeps(s: seq<Byte>, n: nat)
    requires 20 <= n <= |s| && s[TTL] > 0
    ensures Verifies(s[..n]) ==> (Verifies(Decremented(s)[..n]) <==> Sum(Aged(s[..n]), true) > 0)
    ensures Stored(s[..n]) ==> (Stored(Decremented(s)[..n]) <==> Sum(Aged(s[..n]), true) > 0)
    ensures s[0] > 0 ==> Sum(Aged(s[..n]), true) > 0
  {
    hide Decremented, Aged, Verifies, Stored, Sum;
    DecrementedPrefix(s, n);
    if Verifies(s[..n]) {
      TtlVerifies(s[..n]);
    }
    if Stored(s[..n]) {
      TtlStored(s[..n]);
    }
    if s[0] > 0 {
      AgedPositive(s[..n]);
    }
  }

  lemma TtlVerifies(s: seq<Byte>)
    requires 20 <= |s| && s[TTL] > 0 && Verifies(s)
    ensures Verifies(Decremented(s)) <==> Sum(Aged(s), true) > 0
  {
    hide Verifies, Update16, PutWord, Sum;
    var w := Word(s[TTL] - 1, s[TTL + 1], true);
    UpdateKeepsVerifying(s, TTL, w);
    if GetWord(s, TTL) == M {
      BareWord(s, TTL, w);
      SumPut(Aged(s), TTL, 0);
    }
  }

  lemma TtlStored(s: seq<Byte>)
    requires 20 <= |s| && s[TTL] > 0 && Stored(s)
    ensures Stored(Decremented(s)) <==> Sum(Aged(s), true) > 0
  {
    hide Checksum, Update16, PutWord, GetWord, Sum;
    var w := Word(s[TTL] - 1, s[TTL + 1], true);
    var c := Update16(GetWord(s, CK), GetWord(s, TTL), w);
    BareCommutes(s, w, c);
    UpdateIsRecomputation(Bare(s), TTL, w);
  }

  lemma BareCommutes(s: seq<Byte>, w: nat, c: nat)
    requires 20 <= |s| && w <= M && c <= M
    ensures Bare(PutWord(PutWord(s, TTL, w), CK, c)) == Bare(PutWord(s, TTL, w)) == PutWord(Bare(s), TTL, w)
    ensures GetWord(PutWord(PutWord(s, TTL, w), CK, c), CK) == c && GetWord(Bare(s), TTL) == GetWord(s, TTL)
  {
  }

  lemma AgedPositive(s: seq<Byte>)
    requires 20 <= |s| && s[TTL] > 0 && s[0] > 0
    ensures Sum(Aged(s), true) > 0
  {
    SumPositive(Aged(s));
  }

  /** Why the new header must not be all zero: clearing the only word that is not zero. */
  lemma AllZeroFails()
    ensures var z := seq<Byte>(20, i => 0);
      var s := PutWord(PutWord(z, TTL, 1), CK, M - 1);
      && Verifies(s) && Update16(GetWord(s, CK), GetWord(s, TTL), 0) == 0
      && !Verifies(PutWord(PutWord(s, TTL, 0), CK, 0))
  {
    var z := seq<Byte>(20, i => 0);
    var s1 := PutWord(z, TTL, 1);
    var s := PutWord(s1, CK, M - 1);
    var t := PutWord(s, TTL, 0);
    SumZero(z);
    SumPut(z, TTL, 1);
    SumPut(s1, CK, M - 1);
    SumPut(s, TTL, 0);
    SumPut(t, CK, 0);
    CongOf(M, 0, 1);
    VerifiesIff(s);
    VerifiesIff(PutWord(t, CK, 0));
  }

  lemma {:induction false} SumZero(s: seq<Byte>)
    requires forall i :: 0 <= i < |s| ==> s[i] == 0
    ensures Sum(s, true) == 0
  {
    if |s| >= 2 {
      SumZero(s[2..]);
    }
  }
}
