/** Ascending lists of holes, the data structure that `ipreass.c` keeps as linked nodes and
    `rfc815.c` keeps inside the packet buffer. The two list walks of the source are stated
    here as plain whole-list functions. */
module Holes {

  datatype Hole = Hole(first: int, last: int)

  ghost predicate InHole(h: Hole, x: int) {
    h.first <= x <= h.last
  }

  ghost predicate InHoles(hs: seq<Hole>, x: int) {
    exists i :: 0 <= i < |hs| && InHole(hs[i], x)
  }

  /** Non-empty, strictly ascending, disjoint holes. */
  ghost predicate Ascending(hs: seq<Hole>) {
    && (forall i :: 0 <= i < |hs| ==> 0 <= hs[i].first <= hs[i].last)
    && (forall i, j :: 0 <= i < j < |hs| ==> hs[i].last < hs[j].first)
  }

  // ---- lowering the limit

  /** What is left of hole `h` once the datagram is known to end at `m`. */
  function ClipOne(h: Hole, m: int): seq<Hole> {
    if h.first > m then [] else if h.last > m then [Hole(h.first, m)] else [h]
  }

  function Clip(hs: seq<Hole>, m: int): seq<Hole> {
    if hs == [] then [] else ClipOne(hs[0], m) + Clip(hs[1..], m)
  }

  // ---- receiving data

  /** What is left of hole `h` once bytes `f..l` have arrived. */
  function CutOne(h: Hole, f: int, l: int): seq<Hole> {
    (if h.first < f then [Hole(h.first, if h.last < f then h.last else f - 1)] else [])
    + (if l < h.last then [Hole(if l < h.first then h.first else l + 1, h.last)] else [])
  }

  function Cut(hs: seq<Hole>, f: int, l: int): seq<Hole> {
    if hs == [] then [] else CutOne(hs[0], f, l) + Cut(hs[1..], f, l)
  }

  // ---- meaning

  lemma InHolesConcat(a: seq<Hole>, b: seq<Hole>, x: int)
    ensures InHoles(a + b, x) <==> InHoles(a, x) || InHoles(b, x)
  {
    if InHoles(a, x) {
      var i :| 0 <= i < |a| && InHole(a[i], x);
      assert (a + b)[i] == a[i];
    }
    if InHoles(b, x) {
      var i :| 0 <= i < |b| && InHole(b[i], x);
      assert (a + b)[|a| + i] == b[i];
    }
  }

  lemma InHolesFirst(hs: seq<Hole>, x: int)
    requires hs != []
    ensures InHoles(hs, x) <==> InHole(hs[0], x) || InHoles(hs[1..], x)
  {
    assert hs == [hs[0]] + hs[1..];
    InHolesConcat([hs[0]], hs[1..], x);
    assert InHole(hs[0], x) ==> InHole([hs[0]][0], x);
  }

  lemma ClipOneMeaning(h: Hole, m: int, x: int)
    ensures InHoles(ClipOne(h, m), x) <==> InHole(h, x) && x <= m
  {
    if h.first <= m {
      assert InHoles(ClipOne(h, m), x) <==> InHole(ClipOne(h, m)[0], x);
    }
  }

  /** Clipping removes exactly the bytes past the limit. */
  lemma {:induction false} ClipMeaning(hs: seq<Hole>, m: int, x: int)
    ensures InHoles(Clip(hs, m), x) <==> InHoles(hs, x) && x <= m
  {
    if hs != [] {
      InHolesFirst(hs, x);
      ClipMeaning(hs[1..], m, x);
      ClipOneMeaning(hs[0], m, x);
      InHolesConcat(ClipOne(hs[0], m), Clip(hs[1..], m), x);
    }
  }

  lemma CutOneMeaning(h: Hole, f: int, l: int, x: int)
    requires f <= l + 1
    ensures InHoles(CutOne(h, f, l), x) <==> InHole(h, x) && !(f <= x <= l)
  {
    var a := if h.first < f then [Hole(h.first, if h.last < f then h.last else f - 1)] else [];
    var b := if l < h.last then [Hole(if l < h.first then h.first else l + 1, h.last)] else [];
    InHolesConcat(a, b, x);
    assert InHoles(a, x) <==> a != [] && InHole(a[0], x);
    assert InHoles(b, x) <==> b != [] && InHole(b[0], x);
  }

  /** Cutting removes exactly the bytes that arrived. */
  lemma {:induction false} CutMeaning(hs: seq<Hole>, f: int, l: int, x: int)
    requires f <= l + 1
    ensures InHoles(Cut(hs, f, l), x) <==> InHoles(hs, x) && !(f <= x <= l)
  {
    if hs != [] {
      InHolesFirst(hs, x);
      CutMeaning(hs[1..], f, l, x);
      CutOneMeaning(hs[0], f, l, x);
      InHolesConcat(CutOne(hs[0], f, l), Cut(hs[1..], f, l), x);
    }
  }

  // ---- shape

  /** Every hole of `hs` lies within `lo..hi`. */
  ghost predicate Within(hs: seq<Hole>, lo: int, hi: int) {
    forall i :: 0 <= i < |hs| ==> lo <= hs[i].first && hs[i].last <= hi
  }

  lemma AscendingConcat(a: seq<Hole>, b: seq<Hole>, m: int)
    requires Ascending(a) && Ascending(b)
    requires forall i :: 0 <= i < |a| ==> a[i].last < m
    requires forall i :: 0 <= i < |b| ==> m <= b[i].first
    ensures Ascending(a + b)
  {
  }

  lemma AscendingTail(hs: seq<Hole>)
    requires hs != [] && Ascending(hs)
    ensures Ascending(hs[1..])
    ensures forall i :: 0 <= i < |hs[1..]| ==> hs[0].last < hs[1..][i].first
  {
  }

  lemma ClipOneKeepsOrder(h: Hole, m: int)
    requires 0 <= h.first <= h.last
    ensures Ascending(ClipOne(h, m)) && Within(ClipOne(h, m), h.first, if m < h.last then m else h.last)
  {
  }

  lemma CutOneKeepsOrder(h: Hole, f: int, l: int)
    requires 0 <= h.first <= h.last && f <= l + 1
    ensures Ascending(CutOne(h, f, l)) && Within(CutOne(h, f, l), h.first, h.last)
  {
  }

  lemma {:induction false} ClipKeepsOrder(hs: seq<Hole>, m: int)
    requires Ascending(hs)
    ensures Ascending(Clip(hs, m))
    ensures hs != [] ==> Within(Clip(hs, m), hs[0].first, if m < hs[|hs| - 1].last then m else hs[|hs| - 1].last)
  {
    hide ClipOne;
    if hs != [] {
      ClipKeepsOrder(hs[1..], m);
      AscendingTail(hs);
      ClipOneKeepsOrder(hs[0], m);
      AscendingConcat(ClipOne(hs[0], m), Clip(hs[1..], m), hs[0].last + 1);
    }
  }

  lemma {:induction false} CutKeepsOrder(hs: seq<Hole>, f: int, l: int)
    requires Ascending(hs) && f <= l + 1
    ensures Ascending(Cut(hs, f, l))
    ensures hs != [] ==> Within(Cut(hs, f, l), hs[0].first, hs[|hs| - 1].last)
  {
    hide CutOne;
    if hs != [] {
      AscendingTail(hs);
      CutKeepsOrder(hs[1..], f, l);
      CutOneKeepsOrder(hs[0], f, l);
      AscendingConcat(CutOne(hs[0], f, l), Cut(hs[1..], f, l), hs[0].last + 1);
    }
  }

  // ---- the walks stop early

  lemma {:induction false} ClipConcat(a: seq<Hole>, b: seq<Hole>, m: int)
    ensures Clip(a + b, m) == Clip(a, m) + Clip(b, m)
  {
    if a == [] {
      assert a + b == b;
    } else {
      assert (a + b)[1..] == a[1..] + b;
      ClipConcat(a[1..], b, m);
    }
  }

  lemma {:induction false} CutConcat(a: seq<Hole>, b: seq<Hole>, f: int, l: int)
    ensures Cut(a + b, f, l) == Cut(a, f, l) + Cut(b, f, l)
  {
    if a == [] {
      assert a + b == b;
    } else {
      assert (a + b)[1..] == a[1..] + b;
      CutConcat(a[1..], b, f, l);
    }
  }

  /** Holes past the data are left alone, which is why the source may stop walking. */
  lemma {:induction false} CutBeyond(hs: seq<Hole>, f: int, l: int)
    requires f <= l + 1
    requires forall i :: 0 <= i < |hs| ==> l < hs[i].first <= hs[i].last
    ensures Cut(hs, f, l) == hs
  {
    if hs != [] {
      CutBeyond(hs[1..], f, l);
      assert CutOne(hs[0], f, l) == [hs[0]];
    }
  }

  /** One step of a walk: hole `k` is replaced by what is left of it. */
  lemma CutStep(hs: seq<Hole>, k: nat, f: int, l: int)
    requires k < |hs|
    ensures Cut(hs[..k + 1], f, l) == Cut(hs[..k], f, l) + CutOne(hs[k], f, l)
  {
    assert hs[..k + 1] == hs[..k] + [hs[k]];
    CutConcat(hs[..k], [hs[k]], f, l);
    assert Cut([hs[k]], f, l) == CutOne(hs[k], f, l) + Cut([], f, l);
  }

  lemma ClipStep(hs: seq<Hole>, k: nat, m: int)
    requires k < |hs|
    ensures Clip(hs[..k + 1], m) == Clip(hs[..k], m) + ClipOne(hs[k], m)
  {
    assert hs[..k + 1] == hs[..k] + [hs[k]];
    ClipConcat(hs[..k], [hs[k]], m);
    assert Clip([hs[k]], m) == ClipOne(hs[k], m) + Clip([], m);
  }

  /** Stopping after hole `k`, when it reaches past the data, completes the walk. */
  lemma CutStop(hs: seq<Hole>, k: nat, f: int, l: int)
    requires Ascending(hs) && f <= l + 1 && k < |hs| && l <= hs[k].last
    ensures Cut(hs, f, l) == Cut(hs[..k], f, l) + CutOne(hs[k], f, l) + hs[k + 1..]
  {
    CutStep(hs, k, f, l);
    assert hs == hs[..k + 1] + hs[k + 1..];
    CutConcat(hs[..k + 1], hs[k + 1..], f, l);
    CutBeyond(hs[k + 1..], f, l);
  }

  // ---- a walk splits the list into what it leaves behind and what is still ahead

  /** The first walk over `hs` stands before hole `done`. */
  ghost predicate ClipWalk(hs: seq<Hole>, done: nat, a: seq<Hole>, b: seq<Hole>, m: int) {
    done <= |hs| && a == Clip(hs[..done], m) && b == hs[done..]
  }

  lemma ClipNone(hs: seq<Hole>, m: int)
    ensures ClipWalk(hs, 0, [], hs, m)
  {
  }

  lemma ClipAll(hs: seq<Hole>, done: nat, a: seq<Hole>, b: seq<Hole>, m: int)
    requires ClipWalk(hs, done, a, b, m) && b == []
    ensures a + b == Clip(hs, m)
  {
    assert hs[..done] == hs;
  }

  lemma ClipWalkStep(hs: seq<Hole>, done: nat, a: seq<Hole>, b: seq<Hole>, m: int)
    requires ClipWalk(hs, done, a, b, m) && b != []
    ensures ClipWalk(hs, done + 1, a + ClipOne(b[0], m), b[1..], m)
  {
    ClipStep(hs, done, m);
  }

  /** The second walk over `hs` stands before hole `done`. */
  ghost predicate CutWalk(hs: seq<Hole>, done: nat, a: seq<Hole>, b: seq<Hole>, f: int, l: int) {
    done <= |hs| && a == Cut(hs[..done], f, l) && b == hs[done..]
  }

  lemma CutNone(hs: seq<Hole>, f: int, l: int)
    ensures CutWalk(hs, 0, [], hs, f, l) && [] + hs == hs
  {
  }

  lemma CutAll(hs: seq<Hole>, done: nat, a: seq<Hole>, b: seq<Hole>, f: int, l: int)
    requires CutWalk(hs, done, a, b, f, l) && b == []
    ensures a + b == Cut(hs, f, l)
  {
    assert hs[..done] == hs;
  }

  lemma CutWalkStep(hs: seq<Hole>, done: nat, a: seq<Hole>, b: seq<Hole>, a': seq<Hole>, b': seq<Hole>, stop: bool,
                    f: int, l: int)
    requires Ascending(hs) && f <= l + 1 && CutWalk(hs, done, a, b, f, l) && b != []
    requires a' + b' == a + CutOne(b[0], f, l) + b[1..]
    requires if stop then l <= b[0].last else a' == a + CutOne(b[0], f, l) && b' == b[1..]
    ensures if stop then a' + b' == Cut(hs, f, l) else CutWalk(hs, done + 1, a', b', f, l)
    ensures CutOne(b[0], f, l) == [b[0]] ==> a' + b' == a + b
  {
    hide CutOne, Cut, Ascending;
    assert b[1..] == hs[done + 1..] && b == [b[0]] + b[1..];
    if stop {
      CutStop(hs, done, f, l);
    } else {
      CutStep(hs, done, f, l);
    }
  }
}
