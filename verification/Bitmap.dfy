/** `rfc791.c`: the bitmap of received 8-byte blocks. A 64-bit word is the set of its one bits. */
module Bitmap {
  import opened Fragments

  type Word64 = w: set<nat> | forall b :: b in w ==> b < 64

  const WORDS := 128

  /** UINT64_MAX. */
  const ALL_ONES: Word64 := set b: nat | b < 64

  predicate BitAt(bits: seq<Word64>, i: nat)
    requires |bits| == WORDS && i < 64 * WORDS
  {
    i % 64 in bits[i / 64]
  }

  /** The old bits and those of a range. */
  ghost predicate Filled(was: seq<Word64>, bits: seq<Word64>, from: nat, to: nat)
    requires |was| == WORDS && |bits| == WORDS
  {
    forall i :: 0 <= i < 64 * WORDS ==> (BitAt(bits, i) <==> BitAt(was, i) || from <= i < to)
  }

  /** One bit set with |= in a loop over `from..to`: the simple form that stands beside the fast one. */
  method FillBits(bits: array<Word64>, from: nat, to: nat)
    requires bits.Length == WORDS && (to <= from || to <= 64 * WORDS)
    modifies bits
    ensures Filled(old(bits[..]), bits[..], from, to)
  {
    var i := from;
    while i < to
      invariant from <= i && (i <= to || i == from)
      invariant Filled(old(bits[..]), bits[..], from, i)
    {
      ghost var before := bits[..];
      bits[i / 64] := bits[i / 64] + {i % 64};
      OneBit(before, bits[..], i);
      i := i + 1;
    }
  }

  lemma OneBit(was: seq<Word64>, bits: seq<Word64>, i: nat)
    requires |was| == WORDS && |bits| == WORDS && i < 64 * WORDS && bits == was[i / 64 := was[i / 64] + {i % 64}]
    ensures Filled(was, bits, i, i + 1)
  {
    forall j | 0 <= j < 64 * WORDS ensures BitAt(bits, j) <==> BitAt(was, j) || i <= j < i + 1 {
      assert j == 64 * (j / 64) + j % 64 && i == 64 * (i / 64) + i % 64;
    }
  }

  /** Whole words in a loop over `from..to`. */
  method FillWords(bits: array<Word64>, from: nat, to: nat)
    requires bits.Length == WORDS && to <= WORDS
    modifies bits
    ensures Filled(old(bits[..]), bits[..], 64 * from, 64 * to)
  {
    var i := from;
    while i < to
      invariant from <= i && (i <= to || i == from)
      invariant Filled(old(bits[..]), bits[..], 64 * from, 64 * i)
    {
      ghost var before := bits[..];
      bits[i] := ALL_ONES;
      OneWord(before, bits[..], i);
      i := i + 1;
    }
  }

  lemma OneWord(was: seq<Word64>, bits: seq<Word64>, i: nat)
    requires |was| == WORDS && |bits| == WORDS && i < WORDS && bits == was[i := ALL_ONES]
    ensures Filled(was, bits, 64 * i, 64 * i + 64)
  {
    forall j | 0 <= j < 64 * WORDS ensures BitAt(bits, j) <==> BitAt(was, j) || 64 * i <= j < 64 * i + 64 {
      assert j == 64 * (j / 64) + j % 64;
    }
  }

  /** The fill of rfc791ctx_add: a partial word, whole words, a partial word. It sets the same bits as
      the simple loop over the blocks, and never leaves the 128 words. */
  method Fill(bits: array<Word64>, first: nat, last: nat)
    requires bits.Length == 128 && first <= last <= MAX16 && first % 8 == 0
    modifies bits
    ensures Filled(old(bits[..]), bits[..], first / 8, (last + 1) / 8)
  {
    var firstTotal := (first + 8 * 64 - 1) / (8 * 64);
    var onePastLastTotal := (last + 1) / (8 * 64);
    var firstMaxBit := firstTotal * 64;
    var secondMinBit := onePastLastTotal * 64;
    if firstMaxBit > (last + 1) / 8 {
      firstMaxBit := (last + 1) / 8;
    }
    if secondMinBit < first / 8 {
      secondMinBit := first / 8;
    }
    BlockBounds(first, last);
    ghost var s0 := bits[..];
    FillBits(bits, first / 8, firstMaxBit);
    ghost var s1 := bits[..];
    FillWords(bits, firstTotal, onePastLastTotal);
    ghost var s2 := bits[..];
    FillBits(bits, secondMinBit, (last + 1) / 8);
    ThreeParts(s0, s1, s2, bits[..], first / 8, (last + 1) / 8, firstMaxBit, firstTotal, onePastLastTotal,
               secondMinBit);
  }

  lemma BlockBounds(first: nat, last: nat)
    requires first <= last <= MAX16 && first % 8 == 0
    ensures (first + 8 * 64 - 1) / (8 * 64) == (first / 8 + 63) / 64
    ensures (last + 1) / (8 * 64) == (last + 1) / 8 / 64 <= WORDS
    ensures first / 8 <= (last + 1) / 8 <= 64 * WORDS
  {
  }

  lemma ThreeParts(s0: seq<Word64>, s1: seq<Word64>, s2: seq<Word64>, s3: seq<Word64>, from: nat, to: nat, max1: nat,
                   w1: nat, w2: nat, min2: nat)
    requires |s0| == WORDS && |s1| == WORDS && |s2| == WORDS && |s3| == WORDS
    requires Filled(s0, s1, from, max1) && Filled(s1, s2, 64 * w1, 64 * w2) && Filled(s2, s3, min2, to)
    requires w1 == (from + 63) / 64 && w2 == to / 64 && from <= to
    requires max1 == (if w1 * 64 > to then to else w1 * 64) && min2 == (if w2 * 64 < from then from else w2 * 64)
    ensures Filled(s0, s3, from, to)
  {
    forall i | 0 <= i < 64 * WORDS ensures BitAt(s3, i) <==> BitAt(s0, i) || from <= i < to {
      assert BitAt(s1, i) <==> BitAt(s0, i) || from <= i < max1;
      assert BitAt(s2, i) <==> BitAt(s1, i) || 64 * w1 <= i < 64 * w2;
    }
  }
}
