/** point_search.cpp: the search context over a set of points, and search,
    which keeps the count best-ranked points inside a query rectangle,
    sorted by rank, in the caller's buffer.

    The selection is specified on sequences (Insert, Select) and proved to
    give the best count candidates, sorted, drawn from the candidates; the
    in-place pass of search over the caller's array is proved against it.
    What search does as written, where it differs, is modelled beside it. */
module PointSearch {
  import opened Geometry
  import TreeSpec

  function Min(a: int, b: int): int
  {
    if a <= b then a else b
  }

  /** Ranks never decrease along s. */
  predicate Sorted(s: seq<Point>)
  {
    forall i, j :: 0 <= i < j < |s| ==> s[i].rank <= s[j].rank
  }

  /** No point of m ranks better than any point of s. */
  predicate Beyond(s: seq<Point>, m: multiset<Point>)
  {
    forall i, y :: 0 <= i < |s| && y in m ==> s[i].rank <= y.rank
  }

  /** The slot a candidate goes to among the filled slots buf: the first
      whose rank is worse than the candidate's, else the first empty one.
      Points of equal rank stay in front of it, in their order of arrival. */
  function FirstWorse(buf: seq<Point>, p: Point): (k: nat)
    ensures k <= |buf|
    ensures forall j :: 0 <= j < k ==> buf[j].rank <= p.rank
    ensures k < |buf| ==> p.rank < buf[k].rank
  {
    if |buf| == 0 || p.rank < buf[0].rank then 0 else 1 + FirstWorse(buf[1..], p)
  }

  /** Any slot with the two properties of FirstWorse is FirstWorse. */
  lemma FirstWorseUnique(buf: seq<Point>, p: Point, k: nat)
    requires k <= |buf|
    requires forall j :: 0 <= j < k ==> buf[j].rank <= p.rank
    requires k < |buf| ==> p.rank < buf[k].rank
    ensures k == FirstWorse(buf, p)
  {}

  /** One candidate offered to the filled slots buf of a count-slot buffer:
      it goes in at its FirstWorse slot, the points behind it move one slot
      toward the tail and the last point of a full buffer falls off; a full
      buffer with no worse point stays as it is. */
  function Insert(buf: seq<Point>, p: Point, count: nat): (r: seq<Point>)
    requires |buf| <= count
    ensures |r| <= count
  {
    var k := FirstWorse(buf, p);
    if k == count then buf
    else
      var grown := buf[..k] + [p] + buf[k..];
      if |grown| > count then grown[..count] else grown
  }

  /** The filled slots after offering the candidates one by one, in order,
      to an empty count-slot buffer. */
  function Select(cands: seq<Point>, count: nat): (r: seq<Point>)
    ensures |r| <= count
  {
    if |cands| == 0 then []
    else Insert(Select(cands[..|cands| - 1], count), cands[|cands| - 1], count)
  }

  /** Insertion leaves the slots before the candidate's alone, puts the
      candidate in its slot and shifts the rest one slot toward the tail;
      it adds a slot unless the buffer is full. */
  lemma InsertShape(buf: seq<Point>, p: Point, count: nat)
    requires |buf| <= count
    ensures FirstWorse(buf, p) == count ==> Insert(buf, p, count) == buf
    ensures FirstWorse(buf, p) < count ==> |Insert(buf, p, count)| == Min(|buf| + 1, count)
    ensures FirstWorse(buf, p) < count ==> Insert(buf, p, count)[..FirstWorse(buf, p)] == buf[..FirstWorse(buf, p)]
    ensures FirstWorse(buf, p) < count ==> Insert(buf, p, count)[FirstWorse(buf, p)] == p
    ensures FirstWorse(buf, p) < count ==>
              forall t :: FirstWorse(buf, p) < t < |Insert(buf, p, count)| ==> Insert(buf, p, count)[t] == buf[t - 1]
  {
    var k := FirstWorse(buf, p);
    if k < count {
      var grown := buf[..k] + [p] + buf[k..];
      assert forall t :: k < t < |grown| ==> grown[t] == buf[t - 1];
      var r := if |grown| > count then grown[..count] else grown;
      assert Insert(buf, p, count) == r;
      assert r[..k] == buf[..k];
    }
  }

  /** Insertion keeps the filled slots sorted. */
  lemma InsertSorted(buf: seq<Point>, p: Point, count: nat)
    requires |buf| <= count && Sorted(buf)
    ensures Sorted(Insert(buf, p, count))
  {
    InsertShape(buf, p, count);
    var k := FirstWorse(buf, p);
    var r := Insert(buf, p, count);
    if k < count {
      forall i, j | 0 <= i < j < |r|
        ensures r[i].rank <= r[j].rank
      {
        if j < k {
          assert r[i] == buf[i] && r[j] == buf[j];
        } else if j == k {
          assert i < k && r[i] == buf[i];
        } else if i < k {
          assert r[i] == buf[i];
        } else if i > k {
          assert r[i] == buf[i - 1] && r[j] == buf[j - 1];
        } else {
          assert r[j] == buf[j - 1] && k <= j - 1 && buf[k].rank <= buf[j - 1].rank;
        }
      }
    }
  }

  /** A multiset is part of itself with one more element. */
  lemma PartOfSum(part: multiset<Point>, whole: multiset<Point>, d: Point)
    requires part + multiset{d} == whole
    ensures part <= whole
  {
    forall e
      ensures part[e] <= whole[e]
    {
      assert whole[e] == part[e] + multiset{d}[e];
    }
  }

  /** Putting x in at slot k adds it to the multiset. */
  lemma MultisetInsertAt(s: seq<Point>, k: nat, x: Point)
    requires k <= |s|
    ensures multiset(s[..k] + [x] + s[k..]) == multiset(s) + multiset{x}
  {
    assert s == s[..k] + s[k..];
  }

  /** A non-empty sequence is its front and its last element. */
  lemma MultisetLast(s: seq<Point>)
    requires |s| > 0
    ensures multiset(s[..|s| - 1]) + multiset{s[|s| - 1]} == multiset(s)
  {
    assert s == s[..|s| - 1] + [s[|s| - 1]];
  }

  /** Insertion into a buffer with room, or with no worse point, loses
      nothing. */
  lemma InsertKeepsAll(buf: seq<Point>, p: Point, count: nat)
    requires |buf| <= count && (|buf| < count || FirstWorse(buf, p) == count)
    ensures multiset(Insert(buf, p, count))
         == multiset(buf) + (if FirstWorse(buf, p) == count then multiset{} else multiset{p})
  {
    var k := FirstWorse(buf, p);
    if k < count {
      MultisetInsertAt(buf, k, p);
    }
  }

  /** Insertion into a full buffer pushes its last point out. */
  lemma InsertDropsLast(buf: seq<Point>, p: Point, count: nat)
    requires |buf| == count && FirstWorse(buf, p) < count
    ensures multiset(Insert(buf, p, count)) + multiset{buf[count - 1]} == multiset(buf) + multiset{p}
  {
    var k := FirstWorse(buf, p);
    var grown := buf[..k] + [p] + buf[k..];
    MultisetInsertAt(buf, k, p);
    MultisetLast(grown);
    assert grown[count] == buf[count - 1];
  }

  /** What insertion keeps and what falls off: nothing is lost from a
      buffer with room, and a full buffer loses its last point. */
  lemma InsertMultiset(buf: seq<Point>, p: Point, count: nat)
    requires |buf| <= count
    ensures multiset(Insert(buf, p, count)) <= multiset(buf) + multiset{p}
    ensures FirstWorse(buf, p) == count ==> multiset(Insert(buf, p, count)) == multiset(buf)
    ensures FirstWorse(buf, p) < count && |buf| < count ==>
              multiset(Insert(buf, p, count)) == multiset(buf) + multiset{p}
    ensures FirstWorse(buf, p) < count && |buf| == count ==>
              multiset(Insert(buf, p, count)) + multiset{buf[count - 1]} == multiset(buf) + multiset{p}
  {
    if |buf| < count || FirstWorse(buf, p) == count {
      InsertKeepsAll(buf, p, count);
    } else {
      InsertDropsLast(buf, p, count);
      PartOfSum(multiset(Insert(buf, p, count)), multiset(buf) + multiset{p}, buf[count - 1]);
    }
  }

  /** search returns min(candidates, count) points. */
  lemma {:induction false} SelectLength(cands: seq<Point>, count: nat)
    ensures |Select(cands, count)| == Min(|cands|, count)
  {
    if |cands| != 0 {
      var rest := cands[..|cands| - 1];
      SelectLength(rest, count);
      InsertShape(Select(rest, count), cands[|cands| - 1], count);
    }
  }

  /** The selected points are sorted by rank. */
  lemma {:induction false} SelectSorted(cands: seq<Point>, count: nat)
    ensures Sorted(Select(cands, count))
  {
    if |cands| != 0 {
      var rest := cands[..|cands| - 1];
      SelectSorted(rest, count);
      InsertSorted(Select(rest, count), cands[|cands| - 1], count);
    }
  }

  /** Every selected point is one of the candidates, as often as it is one. */
  lemma {:induction false} SelectDrawn(cands: seq<Point>, count: nat)
    ensures multiset(Select(cands, count)) <= multiset(cands)
  {
    if |cands| != 0 {
      var rest := cands[..|cands| - 1];
      var p := cands[|cands| - 1];
      assert cands == rest + [p];
      SelectDrawn(rest, count);
      InsertMultiset(Select(rest, count), p, count);
    }
  }

  /** With no more candidates than slots, every candidate is selected. */
  lemma {:induction false} SelectAll(cands: seq<Point>, count: nat)
    requires |cands| <= count
    ensures multiset(Select(cands, count)) == multiset(cands)
  {
    if |cands| != 0 {
      var rest := cands[..|cands| - 1];
      var p := cands[|cands| - 1];
      assert cands == rest + [p];
      SelectAll(rest, count);
      SelectLength(rest, count);
      InsertMultiset(Select(rest, count), p, count);
    }
  }

  /** A candidate no filled slot ranks worse than stays out of a full
      buffer, and ranks no better than any point in it. */
  lemma PassedOverBeyond(prev: seq<Point>, p: Point, count: nat, left: multiset<Point>)
    requires |prev| <= count && FirstWorse(prev, p) == count && Beyond(prev, left)
    ensures Beyond(Insert(prev, p, count), left + multiset{p})
  {}

  /** A candidate placed in a full buffer pushes out its last point, which
      ranks no better than any point kept. */
  lemma PushedOutBeyond(prev: seq<Point>, p: Point, count: nat, left: multiset<Point>)
    requires |prev| == count && Sorted(prev) && FirstWorse(prev, p) < count && Beyond(prev, left)
    ensures Beyond(Insert(prev, p, count), left + multiset{prev[count - 1]})
  {
    InsertShape(prev, p, count);
    var k := FirstWorse(prev, p);
    var r := Insert(prev, p, count);
    forall i, y | 0 <= i < |r| && y in left + multiset{prev[count - 1]}
      ensures r[i].rank <= y.rank
    {
      var j := if i <= k then i else i - 1;
      assert r[i].rank <= prev[j].rank by {
        if i < k {
          assert r[..k][i] == r[i];
        }
      }
    }
  }

  /** Taking away part of a multiset commutes with adding to it. */
  lemma LeftOver(all: multiset<Point>, kept: multiset<Point>, more: multiset<Point>)
    requires kept <= all
    ensures (all + more) - kept == (all - kept) + more
  {
    assert forall e :: ((all + more) - kept)[e] == ((all - kept) + more)[e];
  }

  /** Replacing a kept point by another moves it to the left-over part. */
  lemma LeftOverSwap(all: multiset<Point>, kept: multiset<Point>, now: multiset<Point>, p: Point, d: Point)
    requires kept <= all && now + multiset{d} == kept + multiset{p}
    ensures (all + multiset{p}) - now == (all - kept) + multiset{d}
  {
    forall e
      ensures ((all + multiset{p}) - now)[e] == ((all - kept) + multiset{d})[e]
    {
      assert (now + multiset{d})[e] == (kept + multiset{p})[e];
      assert kept[e] <= all[e];
    }
  }

  /** The selection is the best count: no candidate left out ranks better
      than a selected point. */
  lemma {:induction false} SelectBest(cands: seq<Point>, count: nat)
    ensures Beyond(Select(cands, count), multiset(cands) - multiset(Select(cands, count)))
  {
    if |cands| != 0 {
      var rest := cands[..|cands| - 1];
      var p := cands[|cands| - 1];
      assert cands == rest + [p];
      var prev := Select(rest, count);
      var r := Select(cands, count);
      assert r == Insert(prev, p, count);
      var k := FirstWorse(prev, p);
      SelectBest(rest, count);
      SelectDrawn(rest, count);
      SelectLength(rest, count);
      InsertMultiset(prev, p, count);
      var left := multiset(rest) - multiset(prev);
      if k == count {
        PassedOverBeyond(prev, p, count, left);
        LeftOver(multiset(rest), multiset(prev), multiset{p});
      } else if |prev| < count {
        SelectAll(rest, count);
        assert multiset(cands) - multiset(r) == multiset{};
      } else {
        SelectSorted(rest, count);
        PushedOutBeyond(prev, p, count, left);
        LeftOverSwap(multiset(rest), multiset(prev), multiset(r), p, prev[count - 1]);
      }
    }
  }

  /** search's promise for candidates that are the points of a set inside a
      rectangle, in any order: it returns min(matches, count) of them,
      sorted, and no match left out ranks better than one returned. */
  lemma SelectWithin(points: seq<Point>, rect: Rect, cands: seq<Point>, count: nat)
    requires multiset(cands) == multiset(TreeSpec.Within(points, rect))
    ensures var found := TreeSpec.Within(points, rect);
            var r := Select(cands, count);
            |r| == Min(|found|, count) && Sorted(r) && multiset(r) <= multiset(found) &&
            Beyond(r, multiset(found) - multiset(r))
  {
    assert |cands| == |multiset(cands)| == |TreeSpec.Within(points, rect)|;
    SelectLength(cands, count);
    SelectSorted(cands, count);
    SelectDrawn(cands, count);
    SelectBest(cands, count);
  }

  /** Every selected match is a point of the set inside the rectangle. */
  lemma SelectedInside(points: seq<Point>, rect: Rect, cands: seq<Point>, count: nat, x: Point)
    requires multiset(cands) == multiset(TreeSpec.Within(points, rect))
    requires x in Select(cands, count)
    ensures x in points && IntersectPoint(x, rect)
  {
    SelectDrawn(cands, count);
    assert x in multiset(TreeSpec.Within(points, rect));
    WithinInside(points, rect, x);
  }

  /** Four points on the corners of the unit square, ranked 10 to 40. */
  function UnitCorners(): seq<Point>
  {
    [Point(1, 10, 0.0, 0.0), Point(2, 20, 1.0, 0.0), Point(3, 30, 0.0, 1.0), Point(4, 40, 1.0, 1.0)]
  }

  /** Every corner lies in the closed unit square. */
  lemma UnitCornersWithin()
    ensures TreeSpec.Within(UnitCorners(), Rect(0.0, 0.0, 1.0, 1.0)) == UnitCorners()
  {
    var pts := UnitCorners();
    var rect := Rect(0.0, 0.0, 1.0, 1.0);
    assert [pts[0]][..0] == [];
    assert TreeSpec.Within([pts[0]], rect) == [pts[0]];
    assert [pts[0], pts[1]][..1] == [pts[0]];
    assert TreeSpec.Within([pts[0], pts[1]], rect) == [pts[0], pts[1]];
    assert [pts[0], pts[1], pts[2]][..2] == [pts[0], pts[1]];
    assert TreeSpec.Within([pts[0], pts[1], pts[2]], rect) == [pts[0], pts[1], pts[2]];
    assert pts[..3] == [pts[0], pts[1], pts[2]];
  }

  /** The corners ranked 10 or better, and 20 or better. */
  lemma UnitCornerOfRank(x: Point)
    requires x in multiset(UnitCorners())
    ensures x.rank <= 10 ==> x == UnitCorners()[0]
    ensures x.rank <= 20 ==> x == UnitCorners()[0] || x == UnitCorners()[1]
  {
    assert x in UnitCorners();
  }

  /** Two sorted corners with no corner left out ranking better are the
      rank-10 and the rank-20 corner. */
  lemma UnitCornersBest(r: seq<Point>)
    requires |r| == 2 && Sorted(r) && multiset(r) <= multiset(UnitCorners())
    requires Beyond(r, multiset(UnitCorners()) - multiset(r))
    ensures r == [UnitCorners()[0], UnitCorners()[1]]
  {
    var pts := UnitCorners();
    assert r == [r[0]] + [r[1]];
    assert r[0] in multiset(r) && r[1] in multiset(r);
    UnitCornerOfRank(r[0]);
    UnitCornerOfRank(r[1]);
  }

  /** A query of the whole unit square for two points, whatever order the
      index yields the corners in, selects the rank-10 and the rank-20
      point, in that order. */
  lemma UnitCornersTopTwo(cands: seq<Point>)
    requires multiset(cands) == multiset(TreeSpec.Within(UnitCorners(), Rect(0.0, 0.0, 1.0, 1.0)))
    ensures Select(cands, 2) == [UnitCorners()[0], UnitCorners()[1]]
  {
    UnitCornersWithin();
    SelectWithin(UnitCorners(), Rect(0.0, 0.0, 1.0, 1.0), cands, 2);
    UnitCornersBest(Select(cands, 2));
  }

  /** A point the filter keeps is a point of the set inside the rectangle. */
  lemma {:induction false} WithinInside(points: seq<Point>, rect: Rect, x: Point)
    requires x in TreeSpec.Within(points, rect)
    ensures x in points && IntersectPoint(x, rect)
  {
    var rest := points[..|points| - 1];
    var p := points[|points| - 1];
    assert points == rest + [p];
    if x in TreeSpec.Within(rest, rect) {
      WithinInside(rest, rect, x);
    }
  }

  /** SearchContext: the points, and a spatial index over them whose
      intersects query yields the points inside a rectangle. */
  class SearchContext {
    const points: seq<Point>

    /** SearchContext(points_begin, points_end): the index over the range. */
    constructor (points: seq<Point>)
      ensures this.points == points
    {
      this.points := points;
    }

    /** The index's intersects query: every point inside the closed
        rectangle, each once. */
    method Intersecting(rect: Rect) returns (cands: seq<Point>)
      ensures multiset(cands) == multiset(TreeSpec.Within(points, rect))
    {
      cands := [];
      var i := 0;
      while i < |points|
        invariant 0 <= i <= |points|
        invariant cands == TreeSpec.Within(points[..i], rect)
      {
        if IntersectPoint(points[i], rect) {
          cands := cands + [points[i]];
        }
        assert points[..i + 1][..i] == points[..i];
        i := i + 1;
      }
      assert points[..i] == points;
    }
  }

  /** create: no context for an empty range, else a fresh one over it. */
  method Create(points: seq<Point>) returns (sc: SearchContext?)
    ensures sc == null <==> |points| == 0
    ensures sc != null ==> fresh(sc) && sc.points == points
  {
    sc := null;
    if |points| > 0 {
      sc := new SearchContext(points);
    }
  }

  /** destroy: the context is released and null handed back. */
  method Destroy(sc: SearchContext?) returns (r: SearchContext?)
    ensures r == null
  {
    r := sc;
    if r != null {
      r := null;
    }
  }

  /** The sentinel pass: each of the first count slots gets rank INT32_MAX
      and keeps the rest of its point; later slots are not touched. */
  method FillSentinels(out: array<Point>, count: nat)
    requires count <= out.Length
    modifies out
    ensures forall t :: 0 <= t < count ==> out[t] == old(out[t]).(rank := Int32Max)
    ensures forall t :: count <= t < out.Length ==> out[t] == old(out[t])
  {
    var t := 0;
    while t < count
      invariant 0 <= t <= count
      invariant forall u :: 0 <= u < t ==> out[u] == old(out[u]).(rank := Int32Max)
      invariant forall u :: t <= u < out.Length ==> out[u] == old(out[u])
    {
      out[t] := out[t].(rank := Int32Max);
      t := t + 1;
    }
  }

  /** Slot t after the shift of lines 92-97 has gone as far as i: the
      candidate in slot k, the points of slots k to i - 1 one slot on
      (never past slot count - 1), everything else as before. */
  function ShiftedAt(before: seq<Point>, count: nat, k: nat, i: nat, p: Point, t: nat): Point
    requires t < |before|
  {
    if t == k then p else if k < t <= i && t < count then before[t - 1] else before[t]
  }

  /** The slots a finished shift leaves behind are Insert of the candidate
      into the filled slots. */
  lemma ShiftedIsInsert(before: seq<Point>, after: seq<Point>, count: nat, endI: nat, k: nat, p: Point)
    requires count <= |before| == |after| && endI <= count && k <= endI && k < count
    requires k == FirstWorse(before[..endI], p)
    requires forall t :: 0 <= t < |after| ==> after[t] == ShiftedAt(before, count, k, endI + 1, p, t)
    ensures after[..Min(endI + 1, count)] == Insert(before[..endI], p, count)
  {
    var buf := before[..endI];
    InsertShape(buf, p, count);
    var r := Insert(buf, p, count);
    assert |r| == Min(endI + 1, count);
    forall t | 0 <= t < |r|
      ensures after[t] == r[t]
    {
      assert after[t] == ShiftedAt(before, count, k, endI + 1, p, t);
      if t < k {
        assert r[..k][t] == r[t];
      }
    }
  }

  /** Lines 92-97, with the shift kept inside the count slots: the
      candidate goes into slot k and the points from k to end_i move one
      slot toward the tail; i ends one past end_i. */
  method Place(out: array<Point>, count: nat, endI: nat, k: nat, p: Point) returns (i: nat)
    requires count <= out.Length && k <= endI <= count && k < count
    modifies out
    ensures i == endI + 1
    ensures forall t :: 0 <= t < out.Length ==> out[t] == ShiftedAt(old(out[..]), count, k, i, p, t)
  {
    ghost var before := out[..];
    i := k;
    var tmp := out[i];
    out[i] := p;
    while i <= endI
      invariant k <= i <= endI + 1
      invariant forall t :: 0 <= t < out.Length ==> out[t] == ShiftedAt(before, count, k, i, p, t)
      invariant i < count ==> tmp == before[i]
    {
      i := i + 1;
      if i < count {
        tmp, out[i] := out[i], tmp;
      }
    }
  }

  /** One candidate that passed the end check: the scan for its slot, the
      shift of the points behind it and the update of end_i (lines 86-106
      with the two corrections under Findings: a shift never writes past
      slot count - 1, and the first empty slot takes a candidate whatever
      its rank). The filled slots become Insert of the candidate, and the
      slots after them still rank INT32_MAX. */
  method Offer(out: array<Point>, count: nat, endI: nat, p: Point) returns (newEnd: nat)
    requires 0 < count <= out.Length && endI <= count
    requires forall t :: endI <= t < count ==> out[t].rank == Int32Max
    modifies out
    ensures newEnd <= count
    ensures out[..newEnd] == Insert(old(out[..endI]), p, count)
    ensures forall t :: newEnd <= t < count ==> out[t].rank == Int32Max
    ensures forall t :: count <= t < out.Length ==> out[t] == old(out[t])
  {
    ghost var before := out[..];
    var i := 0;
    while i < count
      invariant 0 <= i <= endI && i <= count
      invariant forall t :: 0 <= t < i ==> out[t].rank <= p.rank
    {
      if p.rank < out[i].rank || i == endI {
        FirstWorseUnique(before[..endI], p, i);
        var k := i;
        i := Place(out, count, endI, k, p);
        assert forall t :: 0 <= t < out.Length ==> out[..][t] == out[t];
        ShiftedIsInsert(before, out[..], count, endI, k, p);
        break;
      }
      i := i + 1;
    }
    if i == count && endI == count {
      FirstWorseUnique(before[..endI], p, count);
    }
    newEnd := if i <= count && i > endI then i else endI;
  }

  /** A candidate ranking worse than the last point of a full buffer
      leaves it as it is: the skip of lines 81-84 loses nothing. */
  lemma PassedOver(buf: seq<Point>, p: Point, count: nat)
    requires 0 < count == |buf| && Sorted(buf) && buf[count - 1].rank < p.rank
    ensures Insert(buf, p, count) == buf
  {
    FirstWorseUnique(buf, p, count);
  }

  /** The body of the candidate loop of search (lines 81-107) for one
      candidate: skipped when the point the end pointer shows ranks
      better, else offered. The filled slots become Insert of the
      candidate, and the end pointer follows end_i. */
  method Consider(out: array<Point>, size: nat, endI: nat, endSlot: int, p: Point) returns (newEnd: nat, newSlot: int)
    requires 0 < size <= out.Length && endI <= size && Sorted(out[..endI])
    requires forall t :: endI <= t < size ==> out[t].rank == Int32Max
    requires endSlot == if endI == 0 then -1 else Min(endI, size - 1)
    modifies out
    ensures newEnd <= size && out[..newEnd] == Insert(old(out[..endI]), p, size)
    ensures newSlot == if newEnd == 0 then -1 else Min(newEnd, size - 1)
    ensures forall t :: newEnd <= t < size ==> out[t].rank == Int32Max
    ensures forall t :: size <= t < out.Length ==> out[t] == old(out[t])
  {
    if endSlot >= 0 && p.rank > out[endSlot].rank {
      if endI < size {
        assert false;
      }
      PassedOver(out[..endI], p, size);
      newEnd, newSlot := endI, endSlot;
    } else {
      newEnd := Offer(out, size, endI, p);
      newSlot := if newEnd == 0 then -1 else Min(newEnd, size - 1);
    }
  }

  /** The candidate loop of search (lines 77-110): each candidate in turn
      goes through Consider. The filled slots end as Select of the
      candidates, and the count of them is returned. */
  method SelectInto(out: array<Point>, size: nat, cands: seq<Point>) returns (n: nat)
    requires 0 < size <= out.Length
    requires forall t :: 0 <= t < size ==> out[t].rank == Int32Max
    modifies out
    ensures n <= size && out[..n] == Select(cands, size)
    ensures forall t :: n <= t < size ==> out[t].rank == Int32Max
    ensures forall t :: size <= t < out.Length ==> out[t] == old(out[t])
  {
    var endI := 0;
    var endSlot := -1;
    var j := 0;
    while j < |cands|
      invariant 0 <= j <= |cands| && 0 <= endI <= size
      invariant out[..endI] == Select(cands[..j], size)
      invariant forall t :: endI <= t < size ==> out[t].rank == Int32Max
      invariant endSlot == if endI == 0 then -1 else Min(endI, size - 1)
      invariant forall t :: size <= t < out.Length ==> out[t] == old(out[t])
    {
      SelectSorted(cands[..j], size);
      assert cands[..j + 1][..j] == cands[..j];
      endI, endSlot := Consider(out, size, endI, endSlot, cands[j]);
      j := j + 1;
    }
    assert cands[..j] == cands;
    n := endI;
  }

  /** search: nothing for a null context, a non-positive count or a null
      buffer; otherwise the sentinel pass, then the candidate loop over the
      points the index finds inside the rectangle. The result is the
      number of filled slots: min(matches, count) points inside the
      rectangle, sorted, with no match left out ranking better than one
      returned; the other slots of the count rank INT32_MAX. */
  method Search(sc: SearchContext?, rect: Rect, count: int32, out: array?<Point>) returns (n: int32)
    requires sc != null && count > 0 && out != null ==> count as int <= out.Length
    modifies out
    ensures sc == null || count <= 0 || out == null ==> n == 0 && (out != null ==> out[..] == old(out[..]))
    ensures sc != null && count > 0 && out != null ==>
              var found := TreeSpec.Within(sc.points, rect);
              0 <= n as int == Min(|found|, count as int) &&
              Sorted(out[..n]) && multiset(out[..n]) <= multiset(found) &&
              Beyond(out[..n], multiset(found) - multiset(out[..n]))
    ensures sc != null && count > 0 && out != null ==>
              (forall t :: n as int <= t < count as int ==> out[t].rank == Int32Max) &&
              (forall t :: count as int <= t < out.Length ==> out[t] == old(out[t]))
  {
    if sc == null || count <= 0 || out == null {
      return 0;
    }
    var size := count as nat;
    FillSentinels(out, size);
    var cands := sc.Intersecting(rect);
    var filled := SelectInto(out, size, cands);
    SelectWithin(sc.points, rect, cands, size);
    n := filled as int32;
  }

  /** One candidate's pass through the buffer: the filled slots and end_i
      after it, or the first slot outside the count it writes. */
  datatype Pass = Pass(out: seq<Point>, endI: int) | WritesPast(index: int)

  /** The scan of lines 88-101 as written, from slot i on: the first slot
      whose rank is worse than the candidate's, empty slots included, or
      count. */
  function ScanAsWritten(out: seq<Point>, p: Point, i: nat): (k: nat)
    requires i <= |out|
    ensures i <= k <= |out|
    decreases |out| - i
  {
    if i == |out| || p.rank < out[i].rank then i else ScanAsWritten(out, p, i + 1)
  }

  /** The swap loop of lines 94-97 as written: while i <= end_i, step i on
      and swap tmp with out_points[i], the last slot being count - 1. The
      endI of the result is the final i. */
  function ShiftAsWritten(out: seq<Point>, tmp: Point, i: nat, endI: int): Pass
    decreases endI - i + 1
  {
    if i > endI then Pass(out, i)
    else if i + 1 >= |out| then WritesPast(i + 1)
    else ShiftAsWritten(out[i + 1 := tmp], out[i + 1], i + 1, endI)
  }

  /** Lines 86-106 as written for a count-slot buffer out and end_i. */
  function OfferAsWritten(out: seq<Point>, endI: nat, p: Point): Pass
  {
    var count := |out|;
    var k := ScanAsWritten(out, p, 0);
    var shifted := if k < count then ShiftAsWritten(out[k := p], out[k], k, endI) else Pass(out, k);
    match shifted
    case WritesPast(_) => shifted
    case Pass(o, i) => Pass(o, if i <= count && i > endI then i else endI)
  }

  /** A shift that starts at or before end_i with end_i at count - 1 or
      later reaches slot count. */
  lemma {:induction false} ShiftReachesEnd(out: seq<Point>, tmp: Point, i: nat, endI: int)
    requires i <= endI && |out| <= endI + 1
    ensures ShiftAsWritten(out, tmp, i, endI).WritesPast?
    decreases endI - i + 1
  {
    if i + 1 < |out| {
      ShiftReachesEnd(out[i + 1 := tmp], out[i + 1], i + 1, endI);
    }
  }

  /** As written, a candidate placed while count - 1 or more slots are
      filled (the first candidate already, when count is 1) writes past
      the last slot of out_points. */
  lemma OfferWritesPastEnd(out: seq<Point>, endI: nat, p: Point)
    requires |out| <= endI + 1 && ScanAsWritten(out, p, 0) < |out|
    ensures OfferAsWritten(out, endI, p).WritesPast?
  {
    var k := ScanAsWritten(out, p, 0);
    ShiftReachesEnd(out[k := p], out[k], k, endI);
  }

  /** The scan as written finds nothing when no slot from i on ranks worse. */
  lemma {:induction false} ScanFindsNone(out: seq<Point>, p: Point, i: nat)
    requires i <= |out|
    requires forall t :: i <= t < |out| ==> out[t].rank <= p.rank
    ensures ScanAsWritten(out, p, i) == |out|
    decreases |out| - i
  {
    if i < |out| {
      ScanFindsNone(out, p, i + 1);
    }
  }

  /** As written, a candidate of rank INT32_MAX offered to a buffer with an
      empty slot is stored nowhere, yet end_i becomes count: the slots
      search then reports as filled are sentinels. */
  lemma MaxRankCountedAsWritten(out: seq<Point>, endI: nat, p: Point)
    requires endI < |out| && p.rank == Int32Max
    ensures OfferAsWritten(out, endI, p) == Pass(out, |out|)
  {
    ScanFindsNone(out, p, 0);
  }
}
