/** `rfc815.c`: reassembly with the hole list kept inside the buffer that is being filled.
    Each hole starts with an 8-byte descriptor holding its bounds and its two links, so every
    link update and every payload copy writes into one array of bytes. */
module InBufferContext {
  import opened Fragments
  import opened Holes

  const BUF_LEN := 65535
  /** The link that means "no hole". */
  const NIL := 65535
  const DESC_LEN := 8

  /** struct rfc815hole: four 16-bit fields. */
  datatype Desc = Desc(first: int, last: int, next: int, prev: int)

  type Memory = m: seq<Byte> | |m| == BUF_LEN witness seq(BUF_LEN, _ => 0)

  ghost predicate Is16(v: int) {
    0 <= v <= MAX16
  }

  // ---- what this context makes of a history

  /** The last byte an accepted packet delivers to this context: only a packet that lowers
      the limit keeps an end that is not a multiple of 8. */
  function RoundedLast(p: Packet, m: int): (l: int)
    requires Accepted(p)
    ensures p.fragOff <= l + 1 && l <= Last(p)
  {
    if Restricts(p, m) then Last(p) else (Last(p) + 1) / 8 * 8 - 1
  }

  /** Where the code stays inside its 65535-byte buffer: a descriptor written after the data
      must end by byte 65534. IPv4's 16-bit total length keeps every end at or below 65514
      (section 3.1 of RFC 791). */
  predicate InReach(p: Packet) {
    Accepted(p) ==> Last(p) <= 65526
  }

  ghost predicate BufferCarries(h: seq<Packet>, i: int, x: int)
    requires 0 <= i < |h|
  {
    Accepted(h[i]) && h[i].fragOff <= x <= RoundedLast(h[i], Limit(h[..i]))
  }

  ghost predicate BufferCovered(h: seq<Packet>, x: int) {
    exists i :: 0 <= i < |h| && BufferCarries(h, i, x)
  }

  lemma BufferCoveredSnoc(h: seq<Packet>, p: Packet, x: int)
    ensures BufferCovered(h + [p], x) <==>
      BufferCovered(h, x) || (Accepted(p) && p.fragOff <= x <= RoundedLast(p, Limit(h)))
  {
    var g := h + [p];
    assert g[..|h|] == h;
    forall i | 0 <= i < |h| ensures BufferCarries(g, i, x) <==> BufferCarries(h, i, x) {
      assert g[..i] == h[..i];
    }
    assert BufferCarries(g, |h|, x) <==> Accepted(p) && p.fragOff <= x <= RoundedLast(p, Limit(h));
    if BufferCovered(h, x) {
      var i :| 0 <= i < |h| && BufferCarries(h, i, x);
      assert BufferCarries(g, i, x);
    }
  }

  /** The holes are whole 8-byte blocks. */
  ghost predicate Blocks(hs: seq<Hole>) {
    forall i :: 0 <= i < |hs| ==> hs[i].first % 8 == 0 && (hs[i].last + 1) % 8 == 0
  }

  /** The hole list after one packet, said without walking it. */
  function HolesAfter(hs: seq<Hole>, m: int, p: Packet): seq<Hole> {
    if !Accepted(p) then hs
    else Cut(if Restricts(p, m) then Clip(hs, Last(p)) else hs, p.fragOff, RoundedLast(p, m))
  }

  /** The holes are the bytes up to the limit that no packet has delivered. */
  ghost predicate HolesMatch(hs: seq<Hole>, h: seq<Packet>) {
    && Ascending(hs) && Blocks(hs)
    && forall x :: InHoles(hs, x) <==> 0 <= x <= Limit(h) && !BufferCovered(h, x)
  }

  lemma {:induction false} CutBlocks(hs: seq<Hole>, f: int, l: int)
    requires Blocks(hs) && f % 8 == 0 && (l + 1) % 8 == 0
    ensures Blocks(Cut(hs, f, l))
  {
    if hs != [] {
      CutBlocks(hs[1..], f, l);
      assert Blocks(CutOne(hs[0], f, l));
    }
  }

  /** The short hole that the new limit leaves at the end is filled by the same packet. */
  lemma {:induction false} ClipCutBlocks(hs: seq<Hole>, f: int, l: int)
    requires Blocks(hs) && f % 8 == 0 && f <= l
    requires forall i :: 0 <= i < |hs| ==> hs[i].first <= hs[i].last
    ensures Blocks(Cut(Clip(hs, l), f, l))
  {
    if hs != [] {
      var one := ClipOne(hs[0], l);
      ClipCutBlocks(hs[1..], f, l);
      CutConcat(one, Clip(hs[1..], l), f, l);
      ClipCutOneBlocks(hs[0], f, l);
      BlocksConcat(Cut(one, f, l), Cut(Clip(hs[1..], l), f, l));
    }
  }

  lemma BlocksConcat(a: seq<Hole>, b: seq<Hole>)
    requires Blocks(a) && Blocks(b)
    ensures Blocks(a + b)
  {
  }

  lemma ClipCutOneBlocks(h: Hole, f: int, l: int)
    requires h.first % 8 == 0 && (h.last + 1) % 8 == 0 && f % 8 == 0 && f <= l && h.first <= h.last
    ensures Blocks(Cut(ClipOne(h, l), f, l))
  {
    var one := ClipOne(h, l);
    if one != [] {
      assert one[1..] == [] && Cut(one, f, l) == CutOne(one[0], f, l) + Cut([], f, l);
    }
  }

  lemma HolesAfterMeaning(hs: seq<Hole>, h: seq<Packet>, p: Packet, x: int)
    requires InHoles(hs, x) <==> 0 <= x <= Limit(h) && !BufferCovered(h, x)
    ensures InHoles(HolesAfter(hs, Limit(h), p), x) <==> 0 <= x <= Limit(h + [p]) && !BufferCovered(h + [p], x)
  {
    hide InHoles, BufferCovered, Limit, Clip, Cut;
    LimitSnoc(h, p);
    BufferCoveredSnoc(h, p, x);
    if Accepted(p) {
      ClipMeaning(hs, Last(p), x);
      CutMeaning(if Restricts(p, Limit(h)) then Clip(hs, Last(p)) else hs, p.fragOff, RoundedLast(p, Limit(h)), x);
    }
  }

  lemma HolesAfterShape(hs: seq<Hole>, m: int, p: Packet)
    requires Ascending(hs) && Blocks(hs) && 0 <= m
    ensures Ascending(HolesAfter(hs, m, p)) && Blocks(HolesAfter(hs, m, p))
  {
    hide Clip, Cut;
    if Accepted(p) {
      var l := RoundedLast(p, m);
      ClipKeepsOrder(hs, Last(p));
      CutKeepsOrder(if Restricts(p, m) then Clip(hs, Last(p)) else hs, p.fragOff, l);
      if Restricts(p, m) {
        ClipCutBlocks(hs, p.fragOff, l);
      } else {
        CutBlocks(hs, p.fragOff, l);
      }
    }
  }

  /** One packet keeps the hole list equal to the undelivered bytes. */
  lemma HolesAfterMatch(hs: seq<Hole>, h: seq<Packet>, p: Packet)
    requires HolesMatch(hs, h)
    ensures HolesMatch(HolesAfter(hs, Limit(h), p), h + [p])
  {
    hide HolesAfter, Ascending, Blocks, BufferCovered, Limit;
    HolesAfterShape(hs, Limit(h), p);
    forall x
      ensures InHoles(HolesAfter(hs, Limit(h), p), x) <==> 0 <= x <= Limit(h + [p]) && !BufferCovered(h + [p], x)
    {
      HolesAfterMeaning(hs, h, p, x);
    }
  }

  // ---- bytes

  function Get16(m: Memory, i: int): int
    requires 0 <= i <= BUF_LEN - 2
  {
    (m[i] as int) + 256 * (m[i + 1] as int)
  }

  function Read(m: Memory, at: int): Desc
    requires 0 <= at <= BUF_LEN - DESC_LEN
  {
    Desc(Get16(m, at), Get16(m, at + 2), Get16(m, at + 4), Get16(m, at + 6))
  }

  /** `m'` differs from `m` at most within lo..hi-1. */
  ghost predicate Agree(m: Memory, m': Memory, lo: int, hi: int) {
    forall x :: 0 <= x < BUF_LEN && !(lo <= x < hi) ==> m'[x] == m[x]
  }

  lemma ReadKept(m: Memory, m': Memory, lo: int, hi: int, at: int)
    requires Agree(m, m', lo, hi) && 0 <= at <= BUF_LEN - DESC_LEN
    requires at + DESC_LEN <= lo || hi <= at
    ensures Read(m', at) == Read(m, at)
  {
  }

  /** What holenonptr_set_next does to the buffer; link NIL is the list head, kept outside. */
  ghost predicate NextSet(m: Memory, m': Memory, idx: int, next: int)
    requires idx == NIL || 0 <= idx <= BUF_LEN - DESC_LEN
  {
    if idx == NIL then m' == m
    else Agree(m, m', idx, idx + DESC_LEN) && Read(m', idx) == Read(m, idx).(next := next)
  }

  /** What holenonptr_set_prev does to the buffer. */
  ghost predicate PrevSet(m: Memory, m': Memory, idx: int, prev: int)
    requires idx == NIL || 0 <= idx <= BUF_LEN - DESC_LEN
  {
    if idx == NIL then m' == m
    else Agree(m, m', idx, idx + DESC_LEN) && Read(m', idx) == Read(m, idx).(prev := prev)
  }

  // ---- the list as positions. A walk splits it into the holes behind it and those ahead.

  function FirstOf(hs: seq<Hole>): int {
    if hs == [] then NIL else hs[0].first
  }

  function LastOf(hs: seq<Hole>): int {
    if hs == [] then NIL else hs[|hs| - 1].first
  }

  ghost predicate Before(a: Hole, b: Hole) {
    a.last < b.first && a.first + DESC_LEN <= b.first
  }

  ghost predicate Fitting(h: Hole) {
    0 <= h.first <= BUF_LEN - DESC_LEN && h.first <= h.last <= MAX16
  }

  /** Descriptors lie inside the buffer and do not overlap each other. */
  ghost predicate Placed(hs: seq<Hole>) {
    && (forall i :: 0 <= i < |hs| ==> Fitting(hs[i]))
    && (forall i, j :: 0 <= i < j < |hs| ==> Before(hs[i], hs[j]))
  }

  ghost predicate AllBefore(a: seq<Hole>, b: seq<Hole>) {
    forall i, j :: 0 <= i < |a| && 0 <= j < |b| ==> Before(a[i], b[j])
  }

  /** The descriptor of hole `i` when the list before `hs` ends at `prev` and the list
      after it starts at `next`. */
  function DescOf(hs: seq<Hole>, i: int, prev: int, next: int): Desc
    requires 0 <= i < |hs|
  {
    Desc(hs[i].first, hs[i].last,
         if i + 1 < |hs| then hs[i + 1].first else next,
         if i > 0 then hs[i - 1].first else prev)
  }

  /** The bytes of the buffer spell the list segment `hs`. */
  ghost predicate Segment(m: Memory, hs: seq<Hole>, prev: int, next: int)
    requires Placed(hs)
  {
    forall i :: 0 <= i < |hs| ==> Read(m, hs[i].first) == DescOf(hs, i, prev, next)
  }

  /** The buffer holds a well-formed doubly linked list, `a` followed by `b`. */
  ghost predicate Spells(m: Memory, firstHole: int, lastHole: int, a: seq<Hole>, b: seq<Hole>) {
    && Placed(a) && Placed(b) && AllBefore(a, b)
    && firstHole == FirstOf(if a == [] then b else a)
    && lastHole == LastOf(if b == [] then a else b)
    && Segment(m, a, NIL, FirstOf(b))
    && Segment(m, b, LastOf(a), NIL)
  }

  // ---- segments under writes

  /** A write that misses every descriptor of a segment keeps it. */
  lemma SegmentKept(m: Memory, m': Memory, lo: int, hi: int, hs: seq<Hole>, prev: int, next: int)
    requires Placed(hs) && Segment(m, hs, prev, next) && Agree(m, m', lo, hi)
    requires forall i :: 0 <= i < |hs| ==> hs[i].first + DESC_LEN <= lo || hi <= hs[i].first
    ensures Segment(m', hs, prev, next)
  {
    forall i | 0 <= i < |hs| ensures Read(m', hs[i].first) == DescOf(hs, i, prev, next) {
      ReadKept(m, m', lo, hi, hs[i].first);
    }
  }

  lemma SegmentSetNext(m: Memory, m': Memory, hs: seq<Hole>, prev: int, next: int, next': int)
    requires Placed(hs) && Segment(m, hs, prev, next)
    requires NextSet(m, m', LastOf(hs), next')
    ensures Segment(m', hs, prev, next')
  {
    hide Read, Agree;
    forall i | 0 <= i < |hs| ensures Read(m', hs[i].first) == DescOf(hs, i, prev, next') {
      assert Fitting(hs[i]);
      if i < |hs| - 1 {
        assert Before(hs[i], hs[|hs| - 1]);
        ReadKept(m, m', LastOf(hs), LastOf(hs) + DESC_LEN, hs[i].first);
      }
    }
  }

  lemma SegmentSetPrev(m: Memory, m': Memory, hs: seq<Hole>, prev: int, next: int, prev': int)
    requires Placed(hs) && Segment(m, hs, prev, next)
    requires PrevSet(m, m', FirstOf(hs), prev')
    ensures Segment(m', hs, prev', next)
  {
    hide Read, Agree;
    forall i | 0 <= i < |hs| ensures Read(m', hs[i].first) == DescOf(hs, i, prev', next) {
      assert Fitting(hs[i]);
      if i > 0 {
        assert Before(hs[0], hs[i]);
        ReadKept(m, m', FirstOf(hs), FirstOf(hs) + DESC_LEN, hs[i].first);
      }
    }
  }

  lemma PlacedTail(a: seq<Hole>, b: seq<Hole>)
    requires b != [] && Placed(b) && AllBefore(a, b)
    ensures Placed(b[1..]) && AllBefore(a, b[1..]) && AllBefore([b[0]], b[1..])
    ensures FirstOf(b[1..]) == if |b| > 1 then b[1].first else NIL
    ensures b[1..] != [] ==> LastOf(b[1..]) == LastOf(b)
  {
    var c := b[1..];
    forall i, j | 0 <= i < j < |c| ensures Before(c[i], c[j]) {
      assert Before(b[i + 1], b[j + 1]);
    }
    forall j | 0 <= j < |c| ensures Before(b[0], c[j]) {
      assert Before(b[0], b[j + 1]);
    }
  }

  lemma SegmentTail(m: Memory, hs: seq<Hole>, prev: int, next: int)
    requires hs != [] && Placed(hs) && Placed(hs[1..]) && Segment(m, hs, prev, next)
    ensures Read(m, hs[0].first) == Desc(hs[0].first, hs[0].last, if |hs| > 1 then hs[1].first else next, prev)
    ensures Segment(m, hs[1..], hs[0].first, next)
  {
    hide Read;
    var c := hs[1..];
    forall i | 0 <= i < |c| ensures Read(m, c[i].first) == DescOf(c, i, hs[0].first, next) {
      assert Read(m, hs[i + 1].first) == DescOf(hs, i + 1, prev, next);
    }
  }

  lemma PlacedCons(a: seq<Hole>, h: Hole, c: seq<Hole>)
    requires Placed(c) && AllBefore(a, c) && Fitting(h)
    requires forall i :: 0 <= i < |a| ==> Before(a[i], h)
    requires forall i :: 0 <= i < |c| ==> Before(h, c[i])
    ensures Placed([h] + c) && AllBefore(a, [h] + c)
  {
    var b := [h] + c;
    forall i, j | 0 <= i < j < |b| ensures Before(b[i], b[j]) {
      assert b[j] == c[j - 1];
      if i > 0 { assert b[i] == c[i - 1]; }
    }
  }

  lemma PlacedSnoc(a: seq<Hole>, h: Hole, c: seq<Hole>)
    requires Placed(a) && AllBefore(a, c) && Fitting(h)
    requires forall i :: 0 <= i < |a| ==> Before(a[i], h)
    requires forall i :: 0 <= i < |c| ==> Before(h, c[i])
    ensures Placed(a + [h]) && AllBefore(a + [h], c)
  {
  }

  lemma SegmentCons(m: Memory, h: Hole, c: seq<Hole>, prev: int, next: int)
    requires Placed(c) && Placed([h] + c) && Segment(m, c, h.first, next)
    requires Fitting(h) && Read(m, h.first) == Desc(h.first, h.last, if c == [] then next else c[0].first, prev)
    ensures Segment(m, [h] + c, prev, next)
  {
    hide Read;
    var b := [h] + c;
    forall i | 0 <= i < |b| ensures Read(m, b[i].first) == DescOf(b, i, prev, next) {
      if i > 0 {
        assert Read(m, c[i - 1].first) == DescOf(c, i - 1, h.first, next);
        assert b[i] == c[i - 1] && DescOf(b, i, prev, next) == DescOf(c, i - 1, h.first, next);
      } else {
        assert b[i] == h;
      }
    }
  }

  lemma SegmentSnoc(m: Memory, a: seq<Hole>, h: Hole, prev: int, next: int)
    requires Placed(a) && Placed(a + [h]) && Segment(m, a, prev, h.first)
    requires Fitting(h) && Read(m, h.first) == Desc(h.first, h.last, next, if a == [] then prev else a[|a| - 1].first)
    ensures Segment(m, a + [h], prev, next)
  {
    hide Read;
    var b := a + [h];
    forall i | 0 <= i < |b| ensures Read(m, b[i].first) == DescOf(b, i, prev, next) {
      if i < |a| {
        assert Read(m, a[i].first) == DescOf(a, i, prev, h.first);
        assert b[i] == a[i] && DescOf(b, i, prev, next) == DescOf(a, i, prev, h.first);
      } else {
        assert b[i] == h;
      }
    }
  }

  /** Writing a link outside `hs`, into a hole that lies before or after it. */
  lemma LinkOutside(m: Memory, m': Memory, idx: int, hs: seq<Hole>, prev: int, next: int)
    requires Placed(hs) && Segment(m, hs, prev, next)
    requires idx == NIL || 0 <= idx <= BUF_LEN - DESC_LEN
    requires if idx == NIL then m' == m else Agree(m, m', idx, idx + DESC_LEN)
    requires idx != NIL ==> forall i :: 0 <= i < |hs| ==> hs[i].first + DESC_LEN <= idx || idx + DESC_LEN <= hs[i].first
    ensures Segment(m', hs, prev, next)
  {
    if idx != NIL {
      SegmentKept(m, m', idx, idx + DESC_LEN, hs, prev, next);
    }
  }

  // ---- the edits of the list, at the place where a walk stands

  /** Unlinking the hole ahead. */
  lemma UnlinkSpells(m0: Memory, m1: Memory, m2: Memory, fh: int, lh: int, a: seq<Hole>, b: seq<Hole>)
    requires b != [] && Spells(m0, fh, lh, a, b)
    requires var hole := Read(m0, b[0].first);
      && hole.prev == LastOf(a) && hole.next == FirstOf(b[1..])
      && NextSet(m0, m1, LastOf(a), FirstOf(b[1..]))
    requires PrevSet(m1, m2, FirstOf(b[1..]), LastOf(a))
    ensures Spells(m2, if a == [] then FirstOf(b[1..]) else fh, if b[1..] == [] then LastOf(a) else lh, a, b[1..])
  {
    hide Read, Segment;
    var c := b[1..];
    PlacedTail(a, b);
    SegmentTail(m0, b, LastOf(a), NIL);
    SegmentSetNext(m0, m1, a, NIL, FirstOf(b), FirstOf(c));
    LinkOutside(m0, m1, LastOf(a), c, b[0].first, NIL);
    SegmentSetPrev(m1, m2, c, b[0].first, NIL, LastOf(a));
    LinkOutside(m1, m2, FirstOf(c), a, NIL, FirstOf(c));
  }

  /** Putting hole `h` between `a` and `c`, whose ends already point at it. */
  lemma InsertSpells(m: Memory, a: seq<Hole>, h: Hole, c: seq<Hole>)
    requires Placed(a) && Placed(c) && AllBefore(a, c) && Fitting(h)
    requires forall i :: 0 <= i < |a| ==> Before(a[i], h)
    requires forall i :: 0 <= i < |c| ==> Before(h, c[i])
    requires Segment(m, a, NIL, h.first) && Segment(m, c, h.first, NIL)
    requires Read(m, h.first) == Desc(h.first, h.last, FirstOf(c), LastOf(a))
    ensures Spells(m, if a == [] then h.first else a[0].first, if c == [] then h.first else LastOf(c), a, [h] + c)
    ensures Spells(m, if a == [] then h.first else a[0].first, if c == [] then h.first else LastOf(c), a + [h], c)
  {
    hide Read, Segment, Placed, AllBefore, Before;
    PlacedCons(a, h, c);
    PlacedSnoc(a, h, c);
    SegmentCons(m, h, c, LastOf(a), NIL);
    SegmentSnoc(m, a, h, NIL, FirstOf(c));
    assert FirstOf([h] + c) == h.first && LastOf(a + [h]) == h.first;
    assert c != [] ==> LastOf([h] + c) == LastOf(c);
  }

  /** The hole ahead, taken apart from its neighbours. */
  lemma SpellsAhead(m: Memory, fh: int, lh: int, a: seq<Hole>, b: seq<Hole>)
    requires b != [] && Spells(m, fh, lh, a, b)
    ensures Placed(b[1..]) && AllBefore(a, b[1..])
    ensures Read(m, b[0].first) == Desc(b[0].first, b[0].last, FirstOf(b[1..]), LastOf(a))
    ensures Segment(m, a, NIL, b[0].first) && Segment(m, b[1..], b[0].first, NIL)
    ensures fh == (if a == [] then b[0].first else a[0].first)
    ensures lh == (if b[1..] == [] then b[0].first else LastOf(b[1..]))
    ensures forall i :: 0 <= i < |a| ==> Before(a[i], b[0])
    ensures forall i :: 0 <= i < |b[1..]| ==> Before(b[0], b[1..][i])
    ensures b == [b[0]] + b[1..]
  {
    hide Read;
    PlacedTail(a, b);
    SegmentTail(m, b, LastOf(a), NIL);
    forall i | 0 <= i < |b[1..]| ensures Before(b[0], b[1..][i]) {
      assert Before([b[0]][0], b[1..][i]);
    }
  }

  /** Moving on to the next hole writes nothing. */
  lemma AdvanceSpells(m: Memory, fh: int, lh: int, a: seq<Hole>, b: seq<Hole>)
    requires b != [] && Spells(m, fh, lh, a, b)
    ensures Spells(m, fh, lh, a + [b[0]], b[1..])
  {
    SpellsAhead(m, fh, lh, a, b);
    InsertSpells(m, a, b[0], b[1..]);
  }

  /** Rewriting the end of the hole ahead. */
  lemma ShortenSpells(m0: Memory, m1: Memory, fh: int, lh: int, a: seq<Hole>, b: seq<Hole>, last: int)
    requires b != [] && Spells(m0, fh, lh, a, b) && b[0].first <= last <= b[0].last
    requires Agree(m0, m1, b[0].first, b[0].first + DESC_LEN)
    requires Read(m1, b[0].first) == Read(m0, b[0].first).(last := last)
    ensures Spells(m1, fh, lh, a + [Hole(b[0].first, last)], b[1..])
  {
    hide Read, Segment;
    var h, c := Hole(b[0].first, last), b[1..];
    SpellsAhead(m0, fh, lh, a, b);
    SegmentKept(m0, m1, h.first, h.first + DESC_LEN, a, NIL, h.first);
    SegmentKept(m0, m1, h.first, h.first + DESC_LEN, c, h.first, NIL);
    InsertSpells(m1, a, h, c);
  }

  /** Moving the start of the hole ahead, and with it the descriptor, up to `first`. */
  lemma MoveSpells(m0: Memory, m1: Memory, m2: Memory, m3: Memory, fh: int, lh: int,
                   a: seq<Hole>, b: seq<Hole>, first: int)
    requires b != [] && Spells(m0, fh, lh, a, b)
    requires b[0].first + DESC_LEN <= first && first + DESC_LEN - 1 <= b[0].last && first <= BUF_LEN - DESC_LEN
    requires NextSet(m0, m1, LastOf(a), first)
    requires PrevSet(m1, m2, FirstOf(b[1..]), first)
    requires Agree(m2, m3, first, first + DESC_LEN)
    requires Read(m3, first) == Read(m0, b[0].first).(first := first)
    ensures Spells(m3, if a == [] then first else fh, if b[1..] == [] then first else lh,
                   a, [Hole(first, b[0].last)] + b[1..])
  {
    hide Read, Segment;
    var h, c := Hole(first, b[0].last), b[1..];
    SpellsAhead(m0, fh, lh, a, b);
    MoveNeighbours(m0, m1, m2, a, b[0].first, c, first);
    SegmentKept(m2, m3, first, first + DESC_LEN, a, NIL, first);
    SegmentKept(m2, m3, first, first + DESC_LEN, c, first, NIL);
    forall i | 0 <= i < |c| ensures Before(h, c[i]) {
      assert Before(b[0], c[i]);
    }
    InsertSpells(m3, a, h, c);
  }

  lemma MoveNeighbours(m0: Memory, m1: Memory, m2: Memory, a: seq<Hole>, g: int, c: seq<Hole>, first: int)
    requires Placed(a) && Placed(c) && AllBefore(a, c)
    requires Segment(m0, a, NIL, g) && Segment(m0, c, g, NIL)
    requires NextSet(m0, m1, LastOf(a), first)
    requires PrevSet(m1, m2, FirstOf(c), first)
    ensures Segment(m2, a, NIL, first) && Segment(m2, c, first, NIL)
  {
    hide Read, Segment;
    SegmentSetNext(m0, m1, a, NIL, g, first);
    LinkOutside(m0, m1, LastOf(a), c, g, NIL);
    SegmentSetPrev(m1, m2, c, g, NIL, first);
    LinkOutside(m1, m2, FirstOf(c), a, NIL, first);
  }

  /** Splitting the hole ahead into the part up to `last` and the part from `first`. */
  lemma SplitSpells(m0: Memory, m1: Memory, m2: Memory, m3: Memory, fh: int, lh: int,
                    a: seq<Hole>, b: seq<Hole>, last: int, first: int)
    requires b != [] && Spells(m0, fh, lh, a, b)
    requires b[0].first + DESC_LEN - 1 <= last < first && first + DESC_LEN - 1 <= b[0].last
    requires first <= BUF_LEN - DESC_LEN
    requires PrevSet(m0, m1, FirstOf(b[1..]), first)
    requires Agree(m1, m2, b[0].first, b[0].first + DESC_LEN)
    requires Read(m2, b[0].first) == Read(m0, b[0].first).(last := last, next := first)
    requires Agree(m2, m3, first, first + DESC_LEN)
    requires Read(m3, first) == Desc(first, b[0].last, FirstOf(b[1..]), b[0].first)
    ensures Spells(m3, fh, if b[1..] == [] then first else lh,
                   a + [Hole(b[0].first, last)], [Hole(first, b[0].last)] + b[1..])
  {
    hide Read, Segment;
    var g, h, c := Hole(b[0].first, last), Hole(first, b[0].last), b[1..];
    SpellsAhead(m0, fh, lh, a, b);
    SplitNeighbours(m0, m1, m2, a, g.first, c, first);
    SegmentKept(m2, m3, first, first + DESC_LEN, a, NIL, g.first);
    SegmentKept(m2, m3, first, first + DESC_LEN, c, first, NIL);
    ReadKept(m2, m3, first, first + DESC_LEN, g.first);
    InsertTwo(m3, a, g, h, c);
  }

  lemma SplitNeighbours(m0: Memory, m1: Memory, m2: Memory, a: seq<Hole>, g: int, c: seq<Hole>, first: int)
    requires Placed(a) && Placed(c) && AllBefore(a, c) && 0 <= g <= BUF_LEN - DESC_LEN
    requires forall i :: 0 <= i < |a| ==> a[i].first + DESC_LEN <= g
    requires forall i :: 0 <= i < |c| ==> g + DESC_LEN <= c[i].first
    requires Segment(m0, a, NIL, g) && Segment(m0, c, g, NIL)
    requires PrevSet(m0, m1, FirstOf(c), first)
    requires Agree(m1, m2, g, g + DESC_LEN)
    ensures Segment(m2, a, NIL, g) && Segment(m2, c, first, NIL)
  {
    hide Read;
    SegmentSetPrev(m0, m1, c, g, NIL, first);
    LinkOutside(m0, m1, FirstOf(c), a, NIL, g);
    SegmentKept(m1, m2, g, g + DESC_LEN, a, NIL, g);
    SegmentKept(m1, m2, g, g + DESC_LEN, c, first, NIL);
  }

  lemma InsertTwo(m: Memory, a: seq<Hole>, g: Hole, h: Hole, c: seq<Hole>)
    requires Placed(a) && Placed(c) && AllBefore(a, c) && Fitting(g) && Fitting(h) && Before(g, h)
    requires forall i :: 0 <= i < |a| ==> Before(a[i], g)
    requires forall i :: 0 <= i < |c| ==> Before(h, c[i])
    requires Segment(m, a, NIL, g.first) && Segment(m, c, h.first, NIL)
    requires Read(m, g.first) == Desc(g.first, g.last, h.first, LastOf(a))
    requires Read(m, h.first) == Desc(h.first, h.last, FirstOf(c), g.first)
    ensures Spells(m, if a == [] then g.first else a[0].first, if c == [] then h.first else LastOf(c), a + [g], [h] + c)
  {
    hide Read;
    PlacedSnoc(a, g, c);
    SegmentSnoc(m, a, g, NIL, h.first);
    InsertSpells(m, a + [g], h, c);
  }

  lemma RetreatSpells(m: Memory, fh: int, lh: int, z: seq<Hole>, h: Hole, b: seq<Hole>)
    requires Spells(m, fh, lh, z + [h], b)
    ensures Spells(m, fh, lh, z, [h] + b)
  {
    hide Read;
    RetreatParts(m, z, h, FirstOf(b));
    assert (z + [h])[|z|] == h;
    assert AllBefore(z, b) && forall i :: 0 <= i < |b| ==> Before(h, b[i]) by {
      forall i, j | 0 <= i < |z| && 0 <= j < |b| ensures Before(z[i], b[j]) {
        assert Before((z + [h])[i], b[j]);
      }
    }
    InsertSpells(m, z, h, b);
  }

  lemma RetreatParts(m: Memory, z: seq<Hole>, h: Hole, next: int)
    requires Placed(z + [h]) && Segment(m, z + [h], NIL, next)
    ensures Placed(z) && Fitting(h) && forall i :: 0 <= i < |z| ==> Before(z[i], h)
    ensures Segment(m, z, NIL, h.first)
    ensures Read(m, h.first) == Desc(h.first, h.last, next, LastOf(z))
  {
    hide Read;
    var a := z + [h];
    assert a[|z|] == h;
    forall i | 0 <= i < |z| ensures Before(z[i], h) && Fitting(z[i]) {
      assert Before(a[i], a[|z|]) && Fitting(a[i]);
    }
    forall i, j | 0 <= i < j < |z| ensures Before(z[i], z[j]) {
      assert Before(a[i], a[j]);
    }
    forall i | 0 <= i < |z| ensures Read(m, z[i].first) == DescOf(z, i, NIL, h.first) {
      assert Read(m, a[i].first) == DescOf(a, i, NIL, next);
    }
    assert Read(m, a[|z|].first) == DescOf(a, |z|, NIL, next);
  }

  /** A finished walk leaves one list. */
  lemma {:induction false} JoinSpells(m: Memory, fh: int, lh: int, a: seq<Hole>, b: seq<Hole>)
    requires Spells(m, fh, lh, a, b)
    ensures Spells(m, fh, lh, [], a + b)
    decreases |a|
  {
    hide Spells;
    if a == [] {
      assert a + b == b;
    } else {
      assert a == a[..|a| - 1] + [a[|a| - 1]];
      RetreatSpells(m, fh, lh, a[..|a| - 1], a[|a| - 1], b);
      JoinSpells(m, fh, lh, a[..|a| - 1], [a[|a| - 1]] + b);
      assert a[..|a| - 1] + ([a[|a| - 1]] + b) == a + b;
    }
  }

  // ---- delivered data under writes

  /** Every descriptor fits in its hole, or runs past the datagram's end. */
  ghost predicate Fits(hs: seq<Hole>, limit: int) {
    forall i :: 0 <= i < |hs| ==> hs[i].first + DESC_LEN - 1 <= hs[i].last || limit <= hs[i].last
  }

  /** No byte of the datagram outside the holes `a` and `b` was overwritten. */
  ghost predicate DataKept(m: Memory, m': Memory, limit: int, a: seq<Hole>, b: seq<Hole>) {
    forall x :: 0 <= x < BUF_LEN && x <= limit && !InHoles(a, x) && !InHoles(b, x) ==> m'[x] == m[x]
  }

  lemma DataKeptSame(m: Memory, limit: int, a: seq<Hole>, b: seq<Hole>)
    ensures DataKept(m, m, limit, a, b)
  {
  }

  /** A descriptor written into hole `h` touches no delivered byte. */
  lemma WriteInHole(m: Memory, m': Memory, limit: int, a: seq<Hole>, b: seq<Hole>, hs: seq<Hole>, i: int, at: int)
    requires hs == a || hs == b
    requires 0 <= i < |hs| && hs[i].first <= at
    requires at + DESC_LEN - 1 <= hs[i].last || limit <= hs[i].last
    requires Agree(m, m', at, at + DESC_LEN)
    ensures DataKept(m, m', limit, a, b)
  {
    forall x | 0 <= x < BUF_LEN && x <= limit && !InHoles(a, x) && !InHoles(b, x) ensures m'[x] == m[x] {
      assert !InHole(hs[i], x);
    }
  }

  lemma LinkKeepsData(m: Memory, m': Memory, limit: int, a: seq<Hole>, b: seq<Hole>, first: bool, k: int)
    requires Placed(a) && Placed(b) && Fits(a, limit) && Fits(b, limit)
    requires 0 <= k
    requires var idx := if first then (if k < |b| then b[k].first else NIL) else LastOf(a);
      if idx == NIL then m' == m else Agree(m, m', idx, idx + DESC_LEN)
    ensures DataKept(m, m', limit, a, b)
  {
    if first && k < |b| {
      WriteInHole(m, m', limit, a, b, b, k, b[k].first);
    } else if !first && a != [] {
      WriteInHole(m, m', limit, a, b, a, |a| - 1, LastOf(a));
    }
  }

  /** The buffer spells the holes `a` and `b`, and no descriptor covers data up to `limit`. */
  ghost predicate Holds(m: Memory, fh: int, lh: int, limit: int, a: seq<Hole>, b: seq<Hole>) {
    Spells(m, fh, lh, a, b) && Fits(a, limit) && Fits(b, limit)
  }

  ghost predicate IsLink(idx: int) {
    idx == NIL || 0 <= idx <= BUF_LEN - DESC_LEN
  }

  /** What reading the descriptor ahead tells. */
  lemma HoldsAhead(m: Memory, fh: int, lh: int, limit: int, a: seq<Hole>, b: seq<Hole>)
    requires b != [] && Holds(m, fh, lh, limit, a, b)
    ensures Fitting(b[0])
    ensures Read(m, b[0].first) == Desc(b[0].first, b[0].last, FirstOf(b[1..]), LastOf(a))
    ensures IsLink(FirstOf(b[1..])) && (FirstOf(b[1..]) == NIL <==> b[1..] == [])
    ensures IsLink(LastOf(a)) && (LastOf(a) == NIL <==> a == [])
  {
    hide Read;
    SpellsAhead(m, fh, lh, a, b);
  }

  lemma AdvanceHolds(m: Memory, fh: int, lh: int, limit: int, a: seq<Hole>, b: seq<Hole>)
    requires b != [] && Holds(m, fh, lh, limit, a, b)
    ensures Holds(m, fh, lh, limit, a + [b[0]], b[1..])
  {
    hide Spells;
    AdvanceSpells(m, fh, lh, a, b);
  }

  lemma UnlinkHolds(m0: Memory, m1: Memory, m2: Memory, fh: int, lh: int, limit: int, a: seq<Hole>, b: seq<Hole>)
    requires b != [] && Holds(m0, fh, lh, limit, a, b)
    requires IsLink(LastOf(a)) && NextSet(m0, m1, LastOf(a), FirstOf(b[1..]))
    requires IsLink(FirstOf(b[1..])) && PrevSet(m1, m2, FirstOf(b[1..]), LastOf(a))
    ensures Holds(m2, if a == [] then FirstOf(b[1..]) else fh, if b[1..] == [] then LastOf(a) else lh, limit, a, b[1..])
    ensures DataKept(m0, m2, limit, a, b)
  {
    hide Read, Segment;
    SpellsAhead(m0, fh, lh, a, b);
    UnlinkSpells(m0, m1, m2, fh, lh, a, b);
    LinkKeepsData(m0, m1, limit, a, b, false, 0);
    LinkKeepsData(m1, m2, limit, a, b, true, 1);
  }

  lemma ShortenHolds(m0: Memory, m1: Memory, fh: int, lh: int, limit: int, a: seq<Hole>, b: seq<Hole>, last: int)
    requires b != [] && Holds(m0, fh, lh, limit, a, b) && Fitting(b[0]) && b[0].first <= last <= b[0].last
    requires b[0].first + DESC_LEN - 1 <= last || limit <= last
    requires Agree(m0, m1, b[0].first, b[0].first + DESC_LEN)
    requires Read(m1, b[0].first) == Read(m0, b[0].first).(last := last)
    ensures Holds(m1, fh, lh, limit, a + [Hole(b[0].first, last)], b[1..])
    ensures DataKept(m0, m1, limit, a, b)
  {
    hide Read, Spells;
    ShortenSpells(m0, m1, fh, lh, a, b, last);
    WriteInHole(m0, m1, limit, a, b, b, 0, b[0].first);
  }

  lemma MoveHolds(m0: Memory, m1: Memory, m2: Memory, m3: Memory, fh: int, lh: int, limit: int,
                  a: seq<Hole>, b: seq<Hole>, first: int)
    requires b != [] && Holds(m0, fh, lh, limit, a, b) && Fitting(b[0])
    requires b[0].first + DESC_LEN <= first && first + DESC_LEN - 1 <= b[0].last && first <= BUF_LEN - DESC_LEN
    requires IsLink(LastOf(a)) && NextSet(m0, m1, LastOf(a), first)
    requires IsLink(FirstOf(b[1..])) && PrevSet(m1, m2, FirstOf(b[1..]), first)
    requires Agree(m2, m3, first, first + DESC_LEN)
    requires Read(m3, first) == Read(m0, b[0].first).(first := first)
    ensures Holds(m3, if a == [] then first else fh, if b[1..] == [] then first else lh,
                  limit, a, [Hole(first, b[0].last)] + b[1..])
    ensures DataKept(m0, m3, limit, a, b)
  {
    hide Read, Segment;
    MoveSpells(m0, m1, m2, m3, fh, lh, a, b, first);
    LinkKeepsData(m0, m1, limit, a, b, false, 0);
    LinkKeepsData(m1, m2, limit, a, b, true, 1);
    WriteInHole(m2, m3, limit, a, b, b, 0, first);
  }

  lemma SplitHolds(m0: Memory, m1: Memory, m2: Memory, m3: Memory, fh: int, lh: int, limit: int,
                   a: seq<Hole>, b: seq<Hole>, last: int, first: int)
    requires b != [] && Holds(m0, fh, lh, limit, a, b) && Fitting(b[0])
    requires b[0].first + DESC_LEN - 1 <= last < first && first + DESC_LEN - 1 <= b[0].last
    requires first <= BUF_LEN - DESC_LEN
    requires IsLink(FirstOf(b[1..])) && PrevSet(m0, m1, FirstOf(b[1..]), first)
    requires Agree(m1, m2, b[0].first, b[0].first + DESC_LEN)
    requires Read(m2, b[0].first) == Read(m0, b[0].first).(last := last, next := first)
    requires Agree(m2, m3, first, first + DESC_LEN)
    requires Read(m3, first) == Desc(first, b[0].last, FirstOf(b[1..]), b[0].first)
    ensures Holds(m3, fh, if b[1..] == [] then first else lh,
                  limit, a + [Hole(b[0].first, last)], [Hole(first, b[0].last)] + b[1..])
    ensures DataKept(m0, m3, limit, a, b)
  {
    hide Read, Spells, Agree, PrevSet, DataKept;
    assert Spells(m0, fh, lh, a, b);
    SplitSpells(m0, m1, m2, m3, fh, lh, a, b, last, first);
    SplitKeepsData(m0, m1, m2, m3, fh, lh, limit, a, b, first);
  }

  lemma SplitKeepsData(m0: Memory, m1: Memory, m2: Memory, m3: Memory, fh: int, lh: int, limit: int,
                       a: seq<Hole>, b: seq<Hole>, first: int)
    requires b != [] && Holds(m0, fh, lh, limit, a, b) && Fitting(b[0])
    requires b[0].first + DESC_LEN <= first && first + DESC_LEN - 1 <= b[0].last
    requires IsLink(FirstOf(b[1..])) && PrevSet(m0, m1, FirstOf(b[1..]), first)
    requires Agree(m1, m2, b[0].first, b[0].first + DESC_LEN) && Agree(m2, m3, first, first + DESC_LEN)
    ensures DataKept(m0, m3, limit, a, b)
  {
    hide Read, Segment;
    LinkKeepsData(m0, m1, limit, a, b, true, 1);
    WriteInHole(m1, m2, limit, a, b, b, 0, b[0].first);
    WriteInHole(m2, m3, limit, a, b, b, 0, first);
  }

  lemma JoinHolds(m: Memory, fh: int, lh: int, limit: int, a: seq<Hole>, b: seq<Hole>)
    requires Holds(m, fh, lh, limit, a, b)
    ensures Holds(m, fh, lh, limit, [], a + b)
  {
    hide Spells;
    JoinSpells(m, fh, lh, a, b);
  }

  lemma DataKeptStart(m: Memory, limit: int, hs: seq<Hole>)
    ensures DataKept(m, m, limit, [], hs)
  {
  }

  /** Writes inside what is left of `hs` keep the data outside `hs`. */
  lemma DataKeptStep(m0: Memory, m1: Memory, m2: Memory, limit: int, hs: seq<Hole>, a: seq<Hole>, b: seq<Hole>)
    requires DataKept(m0, m1, limit, [], hs) && DataKept(m1, m2, limit, a, b)
    requires forall x :: InHoles(a, x) || InHoles(b, x) ==> InHoles(hs, x)
    ensures DataKept(m0, m2, limit, [], hs)
  {
    hide InHoles;
  }

  /** During a walk over `hs`, what is behind it and ahead of it is still within `hs`. */
  lemma CutSoFar(hs: seq<Hole>, done: nat, f: int, l: int)
    requires done <= |hs| && f <= l + 1
    ensures forall x :: InHoles(Cut(hs[..done], f, l), x) || InHoles(hs[done..], x) ==> InHoles(hs, x)
  {
    forall x ensures InHoles(Cut(hs[..done], f, l), x) || InHoles(hs[done..], x) ==> InHoles(hs, x) {
      CutMeaning(hs[..done], f, l, x);
      assert hs == hs[..done] + hs[done..];
      InHolesConcat(hs[..done], hs[done..], x);
    }
  }

  /** What the second walk knows about the hole ahead. */
  lemma CutReady(hs: seq<Hole>, done: nat, a: seq<Hole>, b: seq<Hole>, f: int, l: int)
    requires CutWalk(hs, done, a, b, f, l) && b != [] && f <= l + 1
    requires forall i :: 0 <= i < |hs| ==> Cuttable(hs[i], l)
    ensures done < |hs| && b[0] == hs[done] && Cuttable(b[0], l)
    ensures forall x :: InHoles(a, x) || InHoles(b, x) ==> InHoles(hs, x)
  {
    hide Cuttable, InHoles, Cut;
    CutSoFar(hs, done, f, l);
  }

  lemma ClipSoFar(hs: seq<Hole>, done: nat, m: int)
    requires done <= |hs|
    ensures forall x :: InHoles(Clip(hs[..done], m), x) || InHoles(hs[done..], x) ==> InHoles(hs, x)
  {
    forall x ensures InHoles(Clip(hs[..done], m), x) || InHoles(hs[done..], x) ==> InHoles(hs, x) {
      ClipMeaning(hs[..done], m, x);
      assert hs == hs[..done] + hs[done..];
      InHolesConcat(hs[..done], hs[done..], x);
    }
  }

  // ---- payload

  /** Every byte up to the limit and outside the holes is some packet's byte. */
  ghost predicate DataPresent(m: Memory, limit: int, hs: seq<Hole>, h: seq<Packet>) {
    forall x :: 0 <= x < BUF_LEN && x <= limit && !InHoles(hs, x) ==> Delivered(h, x, m[x])
  }

  /** A payload copy into bytes that are in no hole leaves every descriptor alone. */
  lemma CopyHolds(m: Memory, m': Memory, fh: int, lh: int, limit: int, hs: seq<Hole>, f: int, l: int)
    requires Holds(m, fh, lh, limit, [], hs) && Agree(m, m', f, l + 1)
    requires f <= l + 1 && f % 8 == 0 && Blocks(hs)
    requires forall x :: InHoles(hs, x) ==> !(f <= x <= l)
    ensures Holds(m', fh, lh, limit, [], hs)
  {
    hide Read;
    forall i | 0 <= i < |hs| ensures hs[i].first + DESC_LEN <= f || l + 1 <= hs[i].first {
      assert Fitting(hs[i]);
      HoleMissesData(hs, i, f, l);
    }
    SegmentKept(m, m', f, l + 1, hs, NIL, NIL);
  }

  lemma HoleMissesData(hs: seq<Hole>, i: int, f: int, l: int)
    requires 0 <= i < |hs| && hs[i].first <= hs[i].last && hs[i].first % 8 == 0
    requires f <= l + 1 && f % 8 == 0
    requires forall x :: InHoles(hs, x) ==> !(f <= x <= l)
    ensures hs[i].first + DESC_LEN <= f || l + 1 <= hs[i].first
  {
    assert InHole(hs[i], hs[i].first);
    assert InHoles(hs, hs[i].first);
  }

  /** After the walks and the copy every byte outside the holes is a received byte. */
  lemma DataAfterAdd(m0: Memory, m1: Memory, m2: Memory, m3: Memory, old_limit: int, limit: int,
                     hs: seq<Hole>, clipped: seq<Hole>, after: seq<Hole>,
                     h: seq<Packet>, p: Packet, l: int)
    requires Accepted(p) && p.fragOff <= l + 1 && l <= Last(p) && limit <= old_limit
    requires DataPresent(m0, old_limit, hs, h)
    requires DataKept(m0, m1, limit, [], hs)
    requires ClippedTo(clipped, hs, limit)
    requires DataKept(m1, m2, limit, [], clipped)
    requires after == Cut(clipped, p.fragOff, l)
    requires (after == clipped && m3 == m2)
          || (Agree(m2, m3, p.fragOff, l + 1) && forall x :: p.fragOff <= x <= l && x < BUF_LEN ==>
            m3[x] == Data(p)[x - p.fragOff])
    ensures DataPresent(m3, limit, after, h + [p])
  {
    forall x | 0 <= x < BUF_LEN && x <= limit && !InHoles(after, x) ensures Delivered(h + [p], x, m3[x]) {
      CutMeaning(clipped, p.fragOff, l, x);
      DeliveredSnoc(h, p, x, m3[x]);
    }
  }

  /** Some byte f..l up to the limit is still missing. */
  ghost predicate News(hs: seq<Hole>, f: int, l: int, limit: int) {
    exists y :: f <= y <= l && y <= limit && InHoles(hs, y)
  }

  /** What the buffer holds outside the holes once packet `p` has delivered its bytes up to `l`: all of them
      if one was missing, otherwise what it held before. */
  ghost predicate Delivers(m: Memory, m': Memory, limit: int, after: seq<Hole>, p: Packet, l: int, news: bool)
    requires Accepted(p) && l <= Last(p)
  {
    forall x :: 0 <= x < BUF_LEN && x <= limit && !InHoles(after, x) ==>
      m'[x] == if news && p.fragOff <= x <= l then Data(p)[x - p.fragOff] else m[x]
  }

  lemma NewsIff(hs: seq<Hole>, clipped: seq<Hole>, limit: int, f: int, l: int, mod: bool)
    requires ClippedTo(clipped, hs, limit) && f <= l && Ascending(clipped)
    requires mod ==> exists i :: 0 <= i < |clipped| && f <= clipped[i].last && clipped[i].first <= l
    requires !mod ==> Cut(clipped, f, l) == clipped
    ensures News(hs, f, l, limit) <==> mod
  {
    hide Cut;
    if mod {
      var i :| 0 <= i < |clipped| && f <= clipped[i].last && clipped[i].first <= l;
      var y := if clipped[i].first < f then f else clipped[i].first;
      assert InHole(clipped[i], y);
      assert InHoles(clipped, y);
    } else if News(hs, f, l, limit) {
      var y :| f <= y <= l && y <= limit && InHoles(hs, y);
      CutMeaning(clipped, f, l, y);
    }
  }

  lemma DeliversAfter(m0: Memory, m1: Memory, m2: Memory, m3: Memory, limit: int,
                      hs: seq<Hole>, clipped: seq<Hole>, after: seq<Hole>, p: Packet, l: int, mod: bool)
    requires Accepted(p) && p.fragOff <= l + 1 && l <= Last(p) && Ascending(clipped)
    requires DataKept(m0, m1, limit, [], hs) && ClippedTo(clipped, hs, limit) && DataKept(m1, m2, limit, [], clipped)
    requires after == Cut(clipped, p.fragOff, l) && (!mod ==> after == clipped && m3 == m2)
    requires mod ==> Agree(m2, m3, p.fragOff, l + 1)
    requires mod ==> forall x :: p.fragOff <= x <= l && x < BUF_LEN ==> m3[x] == Data(p)[x - p.fragOff]
    requires mod && p.fragOff <= l ==>
      exists i :: 0 <= i < |clipped| && p.fragOff <= clipped[i].last && clipped[i].first <= l
    ensures Delivers(m0, m3, limit, after, p, l, News(hs, p.fragOff, l, limit))
  {
    hide Cut, InHoles, News, Ascending;
    if p.fragOff <= l {
      NewsIff(hs, clipped, limit, p.fragOff, l, mod);
    }
    forall x | 0 <= x < BUF_LEN && x <= limit && !InHoles(after, x)
      ensures m3[x] == if News(hs, p.fragOff, l, limit) && p.fragOff <= x <= l then Data(p)[x - p.fragOff] else m0[x]
    {
      CutMeaning(clipped, p.fragOff, l, x);
      NoHoles(x);
    }
  }

  lemma NoHoles(x: int)
    ensures !InHoles([], x)
  {
  }

  lemma DataAfterReject(m: Memory, limit: int, hs: seq<Hole>, h: seq<Packet>, p: Packet)
    requires DataPresent(m, limit, hs, h)
    ensures DataPresent(m, limit, hs, h + [p])
  {
    forall x | 0 <= x < BUF_LEN && x <= limit && !InHoles(hs, x) ensures Delivered(h + [p], x, m[x]) {
      DeliveredSnoc(h, p, x, m[x]);
    }
  }

  lemma LowerLimit(m: Memory, fh: int, lh: int, limit: int, limit': int, hs: seq<Hole>)
    requires Holds(m, fh, lh, limit, [], hs) && limit' <= limit
    ensures Holds(m, fh, lh, limit', [], hs)
  {
    hide Spells;
  }

  lemma {:induction false} ClipFirsts(hs: seq<Hole>, m: int)
    requires forall i :: 0 <= i < |hs| ==> hs[i].first % 8 == 0
    ensures forall i :: 0 <= i < |Clip(hs, m)| ==> Clip(hs, m)[i].first % 8 == 0 && Clip(hs, m)[i].last <= m
  {
    if hs != [] {
      ClipFirsts(hs[1..], m);
    }
  }

  lemma ClippedCuttable(hs: seq<Hole>, m: int, p: Packet)
    requires Blocks(hs) && InReach(p) && Accepted(p)
    ensures var clipped := if Restricts(p, m) then Clip(hs, Last(p)) else hs;
      forall i :: 0 <= i < |clipped| ==> Cuttable(clipped[i], RoundedLast(p, m))
  {
    hide Clip;
    ClipFirsts(hs, Last(p));
  }

  /** `clipped` is `hs` without the bytes past `limit`. */
  ghost predicate ClippedTo(clipped: seq<Hole>, hs: seq<Hole>, limit: int) {
    forall x :: InHoles(clipped, x) <==> InHoles(hs, x) && x <= limit
  }

  lemma ClippedMeaning(hs: seq<Hole>, h: seq<Packet>, p: Packet)
    requires HolesMatch(hs, h) && Accepted(p)
    ensures var clipped := if Restricts(p, Limit(h)) then Clip(hs, Last(p)) else hs;
      ClippedTo(clipped, hs, Limit(h + [p]))
  {
    hide BufferCovered, Limit, Clip, InHoles, Ascending, Blocks;
    LimitSnoc(h, p);
    forall x { ClipMeaning(hs, Last(p), x); }
  }

  /** What the second walk may rely on. */
  lemma CuttableAfterClip(hs: seq<Hole>, h: seq<Packet>, p: Packet)
    requires HolesMatch(hs, h) && InReach(p)
    ensures Ascending(hs)
    ensures !Accepted(p) ==> HolesAfter(hs, Limit(h), p) == hs
    ensures Accepted(p) ==>
      var clipped := if Restricts(p, Limit(h)) then Clip(hs, Last(p)) else hs;
      && Ascending(clipped)
      && (forall i :: 0 <= i < |clipped| ==> Cuttable(clipped[i], RoundedLast(p, Limit(h))))
      && ClippedTo(clipped, hs, Limit(h + [p]))
      && HolesAfter(hs, Limit(h), p) == Cut(clipped, p.fragOff, RoundedLast(p, Limit(h)))
      && Blocks(HolesAfter(hs, Limit(h), p))
  {
    hide BufferCovered, Limit, Clip, Cut, InHoles, Ascending, Cuttable, ClippedTo, Blocks, RoundedLast;
    HolesAfterShape(hs, Limit(h), p);
    if Accepted(p) {
      ClipKeepsOrder(hs, Last(p));
      ClippedCuttable(hs, Limit(h), p);
      ClippedMeaning(hs, h, p);
    }
  }

  lemma CutNothing(hs: seq<Hole>)
    requires Ascending(hs)
    ensures Cut(hs, 0, -1) == hs
  {
    CutBeyond(hs, 0, -1);
  }

  lemma CopyAfterCut(m: Memory, m': Memory, fh: int, lh: int, limit: int, clipped: seq<Hole>, f: int, l: int)
    requires Holds(m, fh, lh, limit, [], Cut(clipped, f, l)) && Agree(m, m', f, l + 1)
    requires f <= l + 1 && f % 8 == 0
    requires Blocks(Cut(clipped, f, l))
    ensures Holds(m', fh, lh, limit, [], Cut(clipped, f, l))
  {
    hide Holds, InHoles, Cut;
    forall x { CutMeaning(clipped, f, l, x); }
    CopyHolds(m, m', fh, lh, limit, Cut(clipped, f, l), f, l);
  }

  ghost predicate BufferComplete(h: seq<Packet>) {
    forall x :: 0 <= x <= Limit(h) ==> BufferCovered(h, x)
  }

  lemma EmptyIffComplete(hs: seq<Hole>, h: seq<Packet>)
    requires HolesMatch(hs, h)
    ensures hs == [] <==> BufferComplete(h)
  {
    hide BufferCovered, Limit;
    if hs != [] {
      assert InHole(hs[0], hs[0].first);
      assert InHoles(hs, hs[0].first);
    } else {
      forall x | 0 <= x <= Limit(h) ensures BufferCovered(h, x) {
        assert !InHoles(hs, x);
      }
    }
  }

  lemma InitiallyOneHole(m: Memory)
    requires Read(m, 0) == Desc(0, MAX16, NIL, NIL)
    ensures Holds(m, 0, 0, MAX16, [], [Hole(0, MAX16)])
    ensures HolesMatch([Hole(0, MAX16)], [])
    ensures DataPresent(m, MAX16, [Hole(0, MAX16)], [])
  {
    hide Read;
    var hs := [Hole(0, MAX16)];
    forall x ensures InHoles(hs, x) <==> 0 <= x <= MAX16 {
      assert InHoles(hs, x) <==> InHole(hs[0], x);
    }
  }

  class InBuffer {
    const pkt: array<Byte>
    var firstHole: int
    var lastHole: int
    var mostRestrictingLast: int
    ghost var holes: seq<Hole>
    ghost var history: seq<Packet>

    ghost predicate At(a: seq<Hole>, b: seq<Hole>)
      reads this, pkt
    {
      pkt.Length == BUF_LEN && Holds(pkt[..], firstHole, lastHole, mostRestrictingLast, a, b)
    }

    // ---- bytes

    method Set16(i: int, v: int)
      requires pkt.Length == BUF_LEN && 0 <= i <= BUF_LEN - 2 && Is16(v)
      modifies pkt
      ensures Get16(pkt[..], i) == v
      ensures Agree(old(pkt[..]), pkt[..], i, i + 2)
    {
      pkt[i] := v % 256;
      pkt[i + 1] := v / 256;
    }

    /** memcpy of a descriptor out of the buffer */
    method ReadHole(at: int) returns (d: Desc)
      requires pkt.Length == BUF_LEN && 0 <= at <= BUF_LEN - DESC_LEN
      ensures d == Read(pkt[..], at)
      ensures Is16(d.first) && Is16(d.last) && Is16(d.next) && Is16(d.prev)
    {
      d := Desc(pkt[at] as int + 256 * pkt[at + 1] as int, pkt[at + 2] as int + 256 * pkt[at + 3] as int,
                pkt[at + 4] as int + 256 * pkt[at + 5] as int, pkt[at + 6] as int + 256 * pkt[at + 7] as int);
    }

    /** memcpy of a descriptor into the buffer */
    method WriteHole(at: int, d: Desc)
      requires pkt.Length == BUF_LEN && 0 <= at <= BUF_LEN - DESC_LEN
      requires Is16(d.first) && Is16(d.last) && Is16(d.next) && Is16(d.prev)
      modifies pkt
      ensures Read(pkt[..], at) == d
      ensures Agree(old(pkt[..]), pkt[..], at, at + DESC_LEN)
    {
      Set16(at, d.first);
      Set16(at + 2, d.last);
      Set16(at + 4, d.next);
      Set16(at + 6, d.prev);
    }

    /** holenonptr_set_prev */
    method SetPrev(idx: int, prev: int)
      requires pkt.Length == BUF_LEN && Is16(prev)
      requires idx == NIL || 0 <= idx <= BUF_LEN - DESC_LEN
      modifies this`lastHole, pkt
      ensures lastHole == if idx == NIL then prev else old(lastHole)
      ensures PrevSet(old(pkt[..]), pkt[..], idx, prev)
    {
      if idx == NIL {
        lastHole := prev;
        return;
      }
      var hole := ReadHole(idx);
      WriteHole(idx, hole.(prev := prev));
    }

    /** holenonptr_set_next */
    method SetNext(idx: int, next: int)
      requires pkt.Length == BUF_LEN && Is16(next)
      requires idx == NIL || 0 <= idx <= BUF_LEN - DESC_LEN
      modifies this`firstHole, pkt
      ensures firstHole == if idx == NIL then next else old(firstHole)
      ensures NextSet(old(pkt[..]), pkt[..], idx, next)
    {
      if idx == NIL {
        firstHole := next;
        return;
      }
      var hole := ReadHole(idx);
      WriteHole(idx, hole.(next := next));
    }

    // ---- edits, at the place where a walk stands

    /** Takes the hole ahead out of the list. */
    method Unlink(hole: Desc, ghost a: seq<Hole>, ghost b: seq<Hole>)
      requires b != [] && At(a, b) && Fitting(b[0]) && hole == Read(pkt[..], b[0].first)
      modifies this`firstHole, this`lastHole, pkt
      ensures DataKept(old(pkt[..]), pkt[..], mostRestrictingLast, a, b)
      ensures At(a, b[1..])
    {
      hide Read, Holds, DataKept;
      ghost var m0, fh, lh := pkt[..], firstHole, lastHole;
      HoldsAhead(m0, fh, lh, mostRestrictingLast, a, b);
      SetNext(hole.prev, hole.next);
      ghost var m1 := pkt[..];
      SetPrev(hole.next, hole.prev);
      UnlinkHolds(m0, m1, pkt[..], fh, lh, mostRestrictingLast, a, b);
    }

    /** Moves the end of the hole ahead down to `last` and steps over it. */
    method Shorten(hole: Desc, last: int, ghost a: seq<Hole>, ghost b: seq<Hole>)
      requires b != [] && At(a, b) && Fitting(b[0]) && hole == Read(pkt[..], b[0].first)
      requires b[0].first <= last <= b[0].last
      requires b[0].first + DESC_LEN - 1 <= last || mostRestrictingLast <= last
      modifies pkt
      ensures DataKept(old(pkt[..]), pkt[..], mostRestrictingLast, a, b)
      ensures At(a + [Hole(b[0].first, last)], b[1..])
    {
      hide Read, Holds, DataKept;
      ghost var m0 := pkt[..];
      HoldsAhead(m0, firstHole, lastHole, mostRestrictingLast, a, b);
      WriteHole(hole.first, hole.(last := last));
      ShortenHolds(m0, pkt[..], firstHole, lastHole, mostRestrictingLast, a, b, last);
    }

    /** Moves the start of the hole ahead, and its descriptor, up to `first`. */
    method Move(hole: Desc, first: int, ghost a: seq<Hole>, ghost b: seq<Hole>)
      requires b != [] && At(a, b) && Fitting(b[0]) && hole == Read(pkt[..], b[0].first)
      requires b[0].first + DESC_LEN <= first && first + DESC_LEN - 1 <= b[0].last && first <= BUF_LEN - DESC_LEN
      modifies this`firstHole, this`lastHole, pkt
      ensures DataKept(old(pkt[..]), pkt[..], mostRestrictingLast, a, b)
      ensures At(a, [Hole(first, b[0].last)] + b[1..])
    {
      hide Read, Holds, DataKept;
      ghost var m0, fh, lh := pkt[..], firstHole, lastHole;
      HoldsAhead(m0, fh, lh, mostRestrictingLast, a, b);
      SetNext(hole.prev, first);
      ghost var m1 := pkt[..];
      SetPrev(hole.next, first);
      ghost var m2 := pkt[..];
      WriteHole(first, hole.(first := first));
      MoveHolds(m0, m1, m2, pkt[..], fh, lh, mostRestrictingLast, a, b, first);
    }

    /** Splits the hole ahead into the part up to `last` and the part from `first`. */
    method Split(iter: int, hole: Desc, last: int, first: int, ghost a: seq<Hole>, ghost b: seq<Hole>)
      requires b != [] && At(a, b) && Fitting(b[0]) && iter == b[0].first && hole == Read(pkt[..], iter)
      requires iter + DESC_LEN - 1 <= last < first && first + DESC_LEN - 1 <= b[0].last && first <= BUF_LEN - DESC_LEN
      modifies this`lastHole, pkt
      ensures DataKept(old(pkt[..]), pkt[..], mostRestrictingLast, a, b)
      ensures At(a + [Hole(iter, last)], [Hole(first, b[0].last)] + b[1..])
    {
      hide Read, Holds, DataKept;
      ghost var m0, lh := pkt[..], lastHole;
      HoldsAhead(m0, firstHole, lh, mostRestrictingLast, a, b);
      SetPrev(hole.next, first);
      ghost var m1 := pkt[..];
      WriteHole(iter, hole.(last := last, next := first));
      ghost var m2 := pkt[..];
      WriteHole(first, Desc(first, hole.last, hole.next, iter));
      SplitHolds(m0, m1, m2, pkt[..], firstHole, lh, mostRestrictingLast, a, b, last, first);
    }

    // ---- walks

    /** The body of the second walk, for the hole ahead. */
    method CutAhead(iter: int, f: int, l: int, ghost a: seq<Hole>, ghost b: seq<Hole>)
      returns (next: int, mod: bool, stop: bool, ghost a': seq<Hole>, ghost b': seq<Hole>)
      requires b != [] && At(a, b) && iter == b[0].first
      requires 0 <= f <= l + 1 && f % 8 == 0 && Cuttable(b[0], l)
      modifies this`firstHole, this`lastHole, pkt
      ensures DataKept(old(pkt[..]), pkt[..], mostRestrictingLast, a, b)
      ensures At(a', b')
      ensures a' + b' == a + CutOne(b[0], f, l) + b[1..]
      ensures if stop then l <= b[0].last
        else a' == a + CutOne(b[0], f, l) && b' == b[1..] && next == FirstOf(b') && (next == NIL <==> b' == [])
      ensures !mod ==> CutOne(b[0], f, l) == [b[0]]
      ensures mod && f <= l ==> f <= b[0].last && b[0].first <= l
    {
      hide Read, Holds, DataKept;
      HoldsAhead(pkt[..], firstHole, lastHole, mostRestrictingLast, a, b);
      DataKeptSame(pkt[..], mostRestrictingLast, a, b);
      var hole := ReadHole(iter);
      next, mod, stop, a', b' := iter, false, true, a, b;
      if l == hole.last {
        mod := true;
        if f <= hole.first {
          Unlink(hole, a, b);
          b' := b[1..];
        } else {
          Shorten(hole, f - 1, a, b);
          a', b' := a + [Hole(iter, f - 1)], b[1..];
        }
      } else if l < hole.last {
        if f <= hole.first {
          if l + 1 > hole.first {
            Move(hole, l + 1, a, b);
            mod, b' := true, [Hole(l + 1, hole.last)] + b[1..];
          }
        } else {
          Split(iter, hole, f - 1, l + 1, a, b);
          mod, a', b' := true, a + [Hole(iter, f - 1)], [Hole(l + 1, hole.last)] + b[1..];
        }
      } else {
        stop, next, b' := false, hole.next, b[1..];
        mod, a' := CutPassed(iter, hole, f, l, a, b);
      }
    }

    /** The same for a hole that ends before the data does. */
    method CutPassed(iter: int, hole: Desc, f: int, l: int, ghost a: seq<Hole>, ghost b: seq<Hole>)
      returns (mod: bool, ghost a': seq<Hole>)
      requires b != [] && At(a, b) && iter == b[0].first && hole == Read(pkt[..], iter)
      requires 0 <= f <= l + 1 && f % 8 == 0 && iter % 8 == 0 && b[0].last < l
      modifies this`firstHole, this`lastHole, pkt
      ensures DataKept(old(pkt[..]), pkt[..], mostRestrictingLast, a, b)
      ensures At(a', b[1..]) && a' == a + CutOne(b[0], f, l)
      ensures (!mod ==> CutOne(b[0], f, l) == [b[0]]) && (mod ==> f <= b[0].last)
    {
      hide Read, Holds, DataKept;
      HoldsAhead(pkt[..], firstHole, lastHole, mostRestrictingLast, a, b);
      DataKeptSame(pkt[..], mostRestrictingLast, a, b);
      mod, a' := true, a;
      if f <= hole.first {
        Unlink(hole, a, b);
      } else if hole.last > f - 1 {
        Shorten(hole, f - 1, a, b);
        a' := a + [Hole(iter, f - 1)];
      } else {
        AdvanceHolds(pkt[..], firstHole, lastHole, mostRestrictingLast, a, b);
        mod, a' := false, a + [b[0]];
      }
    }

    /** The second walk: takes the bytes f..l out of the holes. */
    method CutHoles(f: int, l: int) returns (mod: bool)
      requires pkt.Length == BUF_LEN
      requires At([], holes) && Ascending(holes)
      requires 0 <= f <= l + 1 && f % 8 == 0
      requires forall i :: 0 <= i < |holes| ==> Cuttable(holes[i], l)
      modifies this`firstHole, this`lastHole, this`holes, pkt
      ensures DataKept(old(pkt[..]), pkt[..], mostRestrictingLast, [], old(holes))
      ensures holes == Cut(old(holes), f, l) && At([], holes)
      ensures !mod ==> holes == old(holes)
      ensures mod && f <= l ==> exists i :: 0 <= i < |old(holes)| && f <= old(holes)[i].last && old(holes)[i].first <= l
    {
      hide Holds, Read, Cut, CutOne, Ascending, DataKept, CutWalk, Cuttable, InHoles;
      ghost var hs, done, a, b, m0, met := holes, 0, [], holes, pkt[..], 0;
      HoldsStart(m0, firstHole, lastHole, mostRestrictingLast, holes);
      CutNone(hs, f, l);
      DataKeptStart(m0, mostRestrictingLast, hs);
      var iter, stop := firstHole, false;
      mod := false;
      while iter != NIL && !stop
        invariant At(a, b) && done <= |hs|
        invariant !stop ==> CutWalk(hs, done, a, b, f, l) && iter == FirstOf(b) && (iter == NIL <==> b == [])
        invariant stop ==> a + b == Cut(hs, f, l)
        invariant !mod ==> a + b == hs
        invariant mod && f <= l ==> 0 <= met < |hs| && f <= hs[met].last && hs[met].first <= l
        invariant DataKept(m0, pkt[..], mostRestrictingLast, [], hs)
        decreases |hs| - done, !stop
      {
        ghost var m1, a0, b0 := pkt[..], a, b;
        CutReady(hs, done, a, b, f, l);
        var m;
        iter, m, stop, a, b := CutAhead(iter, f, l, a, b);
        DataKeptStep(m0, m1, pkt[..], mostRestrictingLast, hs, a0, b0);
        CutWalkStep(hs, done, a0, b0, a, b, stop, f, l);
        met := if m then done else met;
        mod, done := mod || m, done + 1;
      }
      if !stop {
        CutAll(hs, done, a, b, f, l);
      }
      holes := a + b;
      JoinHolds(pkt[..], firstHole, lastHole, mostRestrictingLast, a, b);
    }

    /** The body of the first walk, for the hole ahead. */
    method ClipAhead(iter: int, ghost a: seq<Hole>, ghost b: seq<Hole>) returns (next: int)
      requires b != [] && At(a, b) && iter == b[0].first
      modifies this`firstHole, this`lastHole, pkt
      ensures DataKept(old(pkt[..]), pkt[..], mostRestrictingLast, a, b)
      ensures At(a + ClipOne(b[0], mostRestrictingLast), b[1..])
      ensures next == FirstOf(b[1..]) && (next == NIL <==> b[1..] == [])
    {
      hide Read, Holds;
      HoldsAhead(pkt[..], firstHole, lastHole, mostRestrictingLast, a, b);
      var hole := ReadHole(iter);
      next := hole.next;
      if hole.first > mostRestrictingLast {
        assert a + [] == a;
        Unlink(hole, a, b);
      } else if hole.last > mostRestrictingLast {
        Shorten(hole, mostRestrictingLast, a, b);
      } else {
        AdvanceHolds(pkt[..], firstHole, lastHole, mostRestrictingLast, a, b);
      }
    }

    /** The first walk: drops or shortens the holes past the new limit. */
    method ClipHoles()
      requires At([], holes)
      modifies this`firstHole, this`lastHole, this`holes, pkt
      ensures DataKept(old(pkt[..]), pkt[..], mostRestrictingLast, [], old(holes))
      ensures holes == Clip(old(holes), mostRestrictingLast) && At([], holes)
    {
      hide Holds, Read, Clip, ClipOne, DataKept;
      var m := mostRestrictingLast;
      ghost var hs, done, a, b, m0 := holes, 0, [], holes, pkt[..];
      HoldsStart(m0, firstHole, lastHole, m, holes);
      ClipNone(hs, m);
      DataKeptStart(m0, m, hs);
      var iter := firstHole;
      while iter != NIL
        invariant At(a, b) && ClipWalk(hs, done, a, b, m)
        invariant iter == FirstOf(b) && (iter == NIL <==> b == [])
        invariant DataKept(m0, pkt[..], m, [], hs)
        decreases |hs| - done
      {
        ghost var m1 := pkt[..];
        ClipSoFar(hs, done, m);
        iter := ClipAhead(iter, a, b);
        DataKeptStep(m0, m1, pkt[..], m, hs, a, b);
        ClipWalkStep(hs, done, a, b, m);
        a, b, done := a + ClipOne(b[0], m), b[1..], done + 1;
      }
      ClipAll(hs, done, a, b, m);
      holes := a + b;
      JoinHolds(pkt[..], firstHole, lastHole, m, a, b);
    }

    /** memcpy of the payload */
    method Copy(f: int, d: seq<Byte>)
      requires pkt.Length == BUF_LEN && 0 <= f && f + |d| <= BUF_LEN
      modifies pkt
      ensures Agree(old(pkt[..]), pkt[..], f, f + |d|)
      ensures forall x :: f <= x < f + |d| ==> pkt[x] == d[x - f]
    {
      forall i | 0 <= i < |d| {
        pkt[f + i] := d[i];
      }
    }

    // ---- the context

    /** memset and rfc815ctx_init_fast */
    constructor ()
      ensures Valid() && history == [] && holes == [Hole(0, MAX16)]
      ensures fresh(pkt)
    {
      pkt := new Byte[BUF_LEN](_ => 0);
      firstHole, lastHole, mostRestrictingLast := 0, 0, MAX16;
      holes, history := [Hole(0, MAX16)], [];
      new;
      WriteHole(0, Desc(0, MAX16, NIL, NIL));
      InitiallyOneHole(pkt[..]);
    }

    ghost predicate Valid()
      reads this, pkt
    {
      && At([], holes)
      && mostRestrictingLast == Limit(history)
      && HolesMatch(holes, history)
      && DataPresent(pkt[..], mostRestrictingLast, holes, history)
    }

    method Add(p: Packet)
      requires Valid() && InReach(p)
      modifies this, pkt
      ensures Valid()
      ensures history == old(history) + [p]
      ensures holes == HolesAfter(old(holes), old(mostRestrictingLast), p)
      ensures !Accepted(p) ==> pkt[..] == old(pkt[..])
      ensures Accepted(p) ==>
        var l := RoundedLast(p, old(mostRestrictingLast));
        var news := News(old(holes), p.fragOff, l, mostRestrictingLast);
        Delivers(old(pkt[..]), pkt[..], mostRestrictingLast, holes, p, l, news)
    {
      hide Holds, HolesMatch, DataPresent, DataKept, HolesAfter, Limit, ClippedTo, Clip, Cut, InHoles, Cuttable,
           Ascending, Agree, Delivers, News;
      LimitSnoc(history, p);
      HolesAfterMatch(holes, history, p);
      CuttableAfterClip(holes, history, p);
      ghost var hs, h, m0, limit := holes, history, pkt[..], mostRestrictingLast;
      history := history + [p];
      if !Accepted(p) {
        DataAfterReject(m0, limit, hs, h, p);
        return;
      }
      var f, l := p.fragOff, Last(p);
      if !p.moreFrags && mostRestrictingLast > l {
        mostRestrictingLast := l;
        LowerLimit(m0, firstHole, lastHole, limit, l, holes);
        ClipHoles();
      } else {
        if l < 7 {
          l := -1;
          CutNothing(hs);
          DataKeptStart(m0, limit, hs);
          DataAfterAdd(m0, m0, m0, m0, limit, limit, hs, hs, hs, h, p, l);
          DeliversAfter(m0, m0, m0, m0, limit, hs, hs, hs, p, l, false);
          return;
        }
        l := (l + 1) / 8 * 8 - 1;
        DataKeptStart(m0, limit, hs);
      }
      ghost var m1 := pkt[..];
      ghost var clipped := holes;
      var mod := CutHoles(f, l);
      ghost var m2 := pkt[..];
      if mod {
        Copy(f, Data(p)[..l + 1 - f]);
        CopyAfterCut(m2, pkt[..], firstHole, lastHole, mostRestrictingLast, clipped, f, l);
        assert forall x :: f <= x <= l && x < BUF_LEN ==> pkt[..][x] == Data(p)[x - f];
      }
      DataAfterAdd(m0, m1, m2, pkt[..], limit, mostRestrictingLast, hs, clipped, holes, h, p, l);
      DeliversAfter(m0, m1, m2, pkt[..], mostRestrictingLast, hs, clipped, holes, p, l, mod);
    }

    /** rfc815ctx_complete, with its checks that the first and the last hole are there together. */
    method IsComplete() returns (complete: bool)
      requires Valid()
      ensures complete <==> BufferComplete(history)
      ensures complete <==> holes == []
    {
      hide Holds, HolesMatch, DataPresent, BufferComplete;
      HoldsStart(pkt[..], firstHole, lastHole, mostRestrictingLast, holes);
      EmptyIffComplete(holes, history);
      if firstHole == NIL && lastHole != NIL {
        assert false;
      }
      if firstHole != NIL && lastHole == NIL {
        assert false;
      }
      complete := firstHole == NIL;
    }

    /** Copies the filled buffer out. */
    method Reassemble() returns (pay: seq<Byte>)
      requires Valid() && mostRestrictingLast < BUF_LEN
      ensures |pay| == Limit(history) + 1
      ensures BufferComplete(history) ==> forall x :: 0 <= x < |pay| ==> Delivered(history, x, pay[x])
    {
      hide Holds, HolesMatch, BufferComplete;
      EmptyIffComplete(holes, history);
      pay := pkt[..mostRestrictingLast + 1];
    }
  }

  /** Holes the second walk can meet: whole blocks when data may end inside them, or none
      reaching past the data. */
  ghost predicate Cuttable(h: Hole, l: int) {
    h.first % 8 == 0 && (h.last <= l || ((l + 1) % 8 == 0 && (h.last + 1) % 8 == 0 && l < 65520))
  }

  lemma HoldsStart(m: Memory, fh: int, lh: int, limit: int, hs: seq<Hole>)
    requires Holds(m, fh, lh, limit, [], hs)
    ensures fh == FirstOf(hs) && (fh == NIL <==> hs == []) && (lh == NIL <==> hs == [])
  {
    hide Segment;
  }
}
