/** The polyline helpers of lrs/utils.py. A polyline is a sequence of planar points;
    its length is the sum of the lengths of its segments. */
module Utils {
  import opened Wrappers

  /** A vertex: the two coordinates of a QgsPoint. */
  datatype Point = Point(x: real, y: real)

  type Polyline = seq<Point>

  /** The distance between two points (`pointsDistance`). The Euclidean formula needs a
      square root, so the model takes the distance as a parameter; IsDistance states what
      is assumed of it. */
  type Distance = (Point, Point) -> real

  ghost predicate IsDistance(dist: Distance) {
    forall p, q :: dist(p, q) >= 0.0 && dist(p, q) == dist(q, p) && (dist(p, q) == 0.0 <==> p == q)
  }

  /** The sequence read backwards (Python's `list.reverse`). */
  function Reversed<T>(s: seq<T>): (r: seq<T>)
    ensures |r| == |s|
    ensures forall k :: 0 <= k < |s| ==> r[k] == s[|s| - 1 - k]
  {
    if s == [] then [] else Reversed(s[1..]) + [s[0]]
  }

  lemma ReversedTwice<T>(s: seq<T>)
    ensures Reversed(Reversed(s)) == s
  {
    var r := Reversed(Reversed(s));
    assert |r| == |s|;
    forall k | 0 <= k < |s| ensures r[k] == s[k] {
      assert r[k] == Reversed(s)[|s| - 1 - k];
    }
  }

  /** `polylinesIdentical`: equal point by point, forwards or backwards. */
  predicate PolylinesIdentical(polyline1: Polyline, polyline2: Polyline) {
    if polyline1 == polyline2 then true
    else
      var tmp := Reversed(polyline2);
      polyline1 == tmp
  }

  lemma IdenticalToItself(a: Polyline)
    ensures PolylinesIdentical(a, a)
  {
  }

  lemma IdenticalToReverse(a: Polyline)
    ensures PolylinesIdentical(a, Reversed(a))
    ensures PolylinesIdentical(Reversed(a), a)
  {
    ReversedTwice(a);
  }

  lemma IdenticalSymmetric(a: Polyline, b: Polyline)
    ensures PolylinesIdentical(a, b) == PolylinesIdentical(b, a)
  {
    ReversedTwice(a);
    ReversedTwice(b);
  }

  /** `segmentLength`: the length of the segment from vertex `segment` to the next. */
  function SegmentLength(dist: Distance, polyline: Polyline, segment: nat): (l: real)
    requires segment + 1 < |polyline|
    ensures IsDistance(dist) ==> l >= 0.0
    ensures IsDistance(dist) ==> (l == 0.0 <==> polyline[segment] == polyline[segment + 1])
  {
    dist(polyline[segment], polyline[segment + 1])
  }

  /** The length of the polyline from its first vertex to vertex k. */
  function PrefixLength(dist: Distance, polyline: Polyline, k: nat): real
    requires k < |polyline|
  {
    if k == 0 then 0.0 else PrefixLength(dist, polyline, k - 1) + SegmentLength(dist, polyline, k - 1)
  }

  /** The length of the whole polyline, as `QgsGeometry.length` reports it. */
  function TotalLength(dist: Distance, polyline: Polyline): real {
    if |polyline| == 0 then 0.0 else PrefixLength(dist, polyline, |polyline| - 1)
  }

  lemma {:induction false} PrefixNonNegative(dist: Distance, polyline: Polyline, k: nat)
    requires IsDistance(dist) && k < |polyline|
    ensures PrefixLength(dist, polyline, k) >= 0.0
  {
    if k > 0 {
      PrefixNonNegative(dist, polyline, k - 1);
    }
  }

  lemma {:induction false} PrefixMonotone(dist: Distance, polyline: Polyline, j: nat, k: nat)
    requires IsDistance(dist) && j <= k < |polyline|
    ensures 0.0 <= PrefixLength(dist, polyline, j) <= PrefixLength(dist, polyline, k)
    decreases k
  {
    if j == k {
      PrefixNonNegative(dist, polyline, k);
    } else {
      PrefixMonotone(dist, polyline, j, k - 1);
    }
  }

  lemma PrefixAtMostTotal(dist: Distance, polyline: Polyline, k: nat)
    requires IsDistance(dist) && k < |polyline|
    ensures 0.0 <= PrefixLength(dist, polyline, k) <= TotalLength(dist, polyline)
  {
    PrefixMonotone(dist, polyline, k, |polyline| - 1);
  }

  /** `measureAlongPolyline`: the distance along the polyline to a point of segment `segment`. */
  method MeasureAlongPolyline(dist: Distance, polyline: Polyline, segment: nat, pnt: Point) returns (measure: real)
    requires segment < |polyline|
    ensures measure == PrefixLength(dist, polyline, segment) + dist(polyline[segment], pnt)
    ensures IsDistance(dist) ==> measure >= PrefixLength(dist, polyline, segment) >= 0.0
    ensures IsDistance(dist) && pnt == polyline[segment] ==> measure == PrefixLength(dist, polyline, segment)
  {
    measure := 0.0;
    var i := 0;
    while i < segment
      invariant i <= segment
      invariant measure == PrefixLength(dist, polyline, i)
    {
      measure := measure + SegmentLength(dist, polyline, i);
      i := i + 1;
    }
    measure := measure + dist(polyline[segment], pnt);
    if IsDistance(dist) {
      PrefixNonNegative(dist, polyline, segment);
    }
  }

  /** `pointOnLine`: the point at `distance` from point1 on the line towards point2 (it
      extrapolates outside the segment). Python divides by the segment length, so two
      equal points raise ZeroDivisionError, here `None`. */
  function PointOnLine(dist: Distance, point1: Point, point2: Point, distance: real): (r: Option<Point>)
    ensures r.None? <==> dist(point1, point2) == 0.0
    ensures r.Some? && distance == 0.0 ==> r.value == point1
    ensures r.Some? && distance == dist(point1, point2) ==> r.value == point2
    ensures r.Some? ==> (r.value.x - point1.x) * (point2.y - point1.y) == (r.value.y - point1.y) * (point2.x - point1.x)
  {
    var dx := point2.x - point1.x;
    var dy := point2.y - point1.y;
    var l := dist(point1, point2);
    if l == 0.0 then None
    else
      var k := distance / l;
      Some(Point(point1.x + k * dx, point1.y + k * dy))
  }

  lemma PointOnLineEnds(dist: Distance, point1: Point, point2: Point)
    requires IsDistance(dist) && point1 != point2
    ensures PointOnLine(dist, point1, point2, 0.0) == Some(point1)
    ensures PointOnLine(dist, point1, point2, dist(point1, point2)) == Some(point2)
  {
  }
  /** The first segment at or after `lo` whose end lies at or beyond distance `frm`
      (where `polylineSegment` emits its first point), or |polyline| - 1 if none. */
  function StartSegment(dist: Distance, polyline: Polyline, frm: real, lo: nat): (i: nat)
    requires lo < |polyline|
    ensures lo <= i < |polyline|
    ensures i < |polyline| - 1 ==> frm <= PrefixLength(dist, polyline, i + 1)
    ensures forall j :: lo < j <= i ==> frm > PrefixLength(dist, polyline, j)
    decreases |polyline| - lo
  {
    if lo == |polyline| - 1 then lo
    else if frm <= PrefixLength(dist, polyline, lo) + SegmentLength(dist, polyline, lo) then lo
    else StartSegment(dist, polyline, frm, lo + 1)
  }

  /** The first segment at or after `lo` whose end lies strictly beyond distance `to`
      (where `polylineSegment` emits its last point and stops), or |polyline| - 1 if none. */
  function EndSegment(dist: Distance, polyline: Polyline, to: real, lo: nat): (i: nat)
    requires lo < |polyline|
    ensures lo <= i < |polyline|
    ensures i < |polyline| - 1 ==> to < PrefixLength(dist, polyline, i + 1)
    ensures forall j :: lo < j <= i ==> to >= PrefixLength(dist, polyline, j)
    decreases |polyline| - lo
  {
    if lo == |polyline| - 1 then lo
    else if to < PrefixLength(dist, polyline, lo) + SegmentLength(dist, polyline, lo) then lo
    else EndSegment(dist, polyline, to, lo + 1)
  }

  /** What `polylineSegment(polyline, frm, to)` returns, in closed form: the point at `frm`
      on its start segment, the vertices that follow up to the end segment, and the point at
      `to` on the end segment; if `to` is never passed, the vertices run to the last one.
      `None` when one of the two interpolations divides by a zero segment length. */
  function SegmentOf(dist: Distance, polyline: Polyline, frm: real, to: real): Option<seq<Point>> {
    if |polyline| < 2 then Some([])
    else
      var s := StartSegment(dist, polyline, frm, 0);
      if s == |polyline| - 1 then Some([])
      else
        match PointOnLine(dist, polyline[s], polyline[s + 1], frm - PrefixLength(dist, polyline, s))
        case None => None
        case Some(first) =>
          var e := EndSegment(dist, polyline, to, s);
          if e == |polyline| - 1 then Some([first] + polyline[s + 1..])
          else
            match PointOnLine(dist, polyline[e], polyline[e + 1], to - PrefixLength(dist, polyline, e))
            case None => None
            case Some(last) => Some([first] + polyline[s + 1..e + 1] + [last])
  }

  /** Loop state of `polylineSegment` before its first point: no segment before `i`
      reaches `frm`. */
  ghost predicate Pending(dist: Distance, polyline: Polyline, frm: real, i: nat)
    requires i < |polyline|
  {
    StartSegment(dist, polyline, frm, 0) == StartSegment(dist, polyline, frm, i)
  }

  /** Loop state of `polylineSegment` after its first point `first`, emitted on segment `s`:
      the vertices up to `i` follow it and no segment from `s` to before `i` passed `to`. */
  ghost predicate Open(dist: Distance, polyline: Polyline, frm: real, to: real, i: nat, poly: seq<Point>, s: nat, first: Point)
  {
    s <= i < |polyline| && s + 1 < |polyline| && s == StartSegment(dist, polyline, frm, 0) &&
    PointOnLine(dist, polyline[s], polyline[s + 1], frm - PrefixLength(dist, polyline, s)) == Some(first) &&
    EndSegment(dist, polyline, to, s) == EndSegment(dist, polyline, to, i) &&
    poly == [first] + polyline[s + 1..i + 1]
  }

  lemma SliceExtend<T>(a: seq<T>, lo: nat, hi: nat)
    requires lo <= hi < |a|
    ensures a[lo..hi + 1] == a[lo..hi] + [a[hi]]
  {
  }

  lemma WalkSkip(dist: Distance, polyline: Polyline, frm: real, i: nat)
    requires i + 1 < |polyline| && Pending(dist, polyline, frm, i)
    requires !(frm <= PrefixLength(dist, polyline, i) + SegmentLength(dist, polyline, i))
    ensures Pending(dist, polyline, frm, i + 1)
  {
  }

  lemma WalkFail(dist: Distance, polyline: Polyline, frm: real, to: real, i: nat)
    requires i + 1 < |polyline| && Pending(dist, polyline, frm, i)
    requires frm <= PrefixLength(dist, polyline, i) + SegmentLength(dist, polyline, i)
    requires PointOnLine(dist, polyline[i], polyline[i + 1], frm - PrefixLength(dist, polyline, i)).None?
    ensures SegmentOf(dist, polyline, frm, to) == None
  {
    assert StartSegment(dist, polyline, frm, i) == i;
  }

  lemma WalkBegin(dist: Distance, polyline: Polyline, frm: real, to: real, i: nat, first: Point)
    requires i + 1 < |polyline| && Pending(dist, polyline, frm, i)
    requires frm <= PrefixLength(dist, polyline, i) + SegmentLength(dist, polyline, i)
    requires PointOnLine(dist, polyline[i], polyline[i + 1], frm - PrefixLength(dist, polyline, i)) == Some(first)
    ensures Open(dist, polyline, frm, to, i, [first], i, first)
  {
    assert StartSegment(dist, polyline, frm, i) == i;
  }

  lemma WalkAdvance(dist: Distance, polyline: Polyline, frm: real, to: real, i: nat, poly: seq<Point>, s: nat, first: Point)
    requires i + 1 < |polyline| && Open(dist, polyline, frm, to, i, poly, s, first)
    requires !(to < PrefixLength(dist, polyline, i) + SegmentLength(dist, polyline, i))
    ensures Open(dist, polyline, frm, to, i + 1, poly + [polyline[i + 1]], s, first)
  {
    assert EndSegment(dist, polyline, to, i) == EndSegment(dist, polyline, to, i + 1);
    SliceExtend(polyline, s + 1, i + 1);
    assert poly + [polyline[i + 1]] == [first] + polyline[s + 1..i + 2];
  }

  lemma WalkStop(dist: Distance, polyline: Polyline, frm: real, to: real, i: nat, poly: seq<Point>, s: nat, first: Point, p: Option<Point>)
    requires i + 1 < |polyline| && Open(dist, polyline, frm, to, i, poly, s, first)
    requires to < PrefixLength(dist, polyline, i) + SegmentLength(dist, polyline, i)
    requires p == PointOnLine(dist, polyline[i], polyline[i + 1], to - PrefixLength(dist, polyline, i))
    ensures SegmentOf(dist, polyline, frm, to) == if p.None? then None else Some(poly + [p.value])
  {
    assert EndSegment(dist, polyline, to, i) == i;
  }

  lemma WalkEnd(dist: Distance, polyline: Polyline, frm: real, to: real, poly: seq<Point>, s: nat, first: Point)
    requires |polyline| >= 2
    requires poly == [] ==> Pending(dist, polyline, frm, |polyline| - 1)
    requires poly != [] ==> Open(dist, polyline, frm, to, |polyline| - 1, poly, s, first)
    ensures SegmentOf(dist, polyline, frm, to) == Some(poly)
  {
    if poly != [] {
      assert polyline[s + 1..|polyline|] == polyline[s + 1..];
    }
  }

  /** `polylineSegment`: walks the segments with a running length. It does not reject
      `to <= frm`; it raises (here `None`) when it interpolates on a zero-length segment. */
  method PolylineSegment(dist: Distance, polyline: Polyline, frm: real, to: real) returns (r: Option<seq<Point>>)
    ensures r == SegmentOf(dist, polyline, frm, to)
  {
    var poly: seq<Point> := [];
    var length := 0.0;
    ghost var s: nat := 0;
    ghost var first := Point(0.0, 0.0);
    var i: nat := 0;
    while i + 1 < |polyline|
      invariant |polyline| >= 2 ==> i <= |polyline| - 1
      invariant |polyline| < 2 ==> i == 0 && poly == []
      invariant i < |polyline| ==> length == PrefixLength(dist, polyline, i)
      invariant |polyline| >= 2 && poly == [] ==> Pending(dist, polyline, frm, i)
      invariant poly != [] ==> Open(dist, polyline, frm, to, i, poly, s, first)
    {
      var p1 := polyline[i];
      var p2 := polyline[i + 1];
      var l := dist(p1, p2);
      if |poly| == 0 && frm <= length + l {
        var d := frm - length;
        var p := PointOnLine(dist, p1, p2, d);
        if p.None? {
          WalkFail(dist, polyline, frm, to, i);
          return None;
        }
        WalkBegin(dist, polyline, frm, to, i, p.value);
        poly := poly + [p.value];
        s, first := i, p.value;
      }
      if |poly| > 0 {
        if to < length + l {
          var d := to - length;
          var p := PointOnLine(dist, p1, p2, d);
          WalkStop(dist, polyline, frm, to, i, poly, s, first, p);
          if p.None? {
            return None;
          }
          poly := poly + [p.value];
          break;
        } else {
          WalkAdvance(dist, polyline, frm, to, i, poly, s, first);
          poly := poly + [p2];
        }
      } else {
        WalkSkip(dist, polyline, frm, i);
      }
      length := length + l;
      i := i + 1;
    }
    if i + 1 >= |polyline| && |polyline| >= 2 {
      WalkEnd(dist, polyline, frm, to, poly, s, first);
    }
    r := Some(poly);
  }
  /** Past the end of the polyline, the segment is empty. */
  lemma SegmentBeyondEnd(dist: Distance, polyline: Polyline, frm: real, to: real)
    requires IsDistance(dist) && frm > TotalLength(dist, polyline)
    ensures SegmentOf(dist, polyline, frm, to) == Some([])
  {
    if |polyline| >= 2 {
      var s := StartSegment(dist, polyline, frm, 0);
      if s < |polyline| - 1 {
        PrefixAtMostTotal(dist, polyline, s + 1);
        assert false;
      }
    }
  }

  /** The segment is empty or has at least two points and at most as many as the polyline;
      it starts with the point at `frm` on the start segment, and every point between its
      first and last is a vertex of the polyline, taken consecutively and in order. */
  lemma SegmentShape(dist: Distance, polyline: Polyline, frm: real, to: real)
    requires SegmentOf(dist, polyline, frm, to).Some?
    ensures var out := SegmentOf(dist, polyline, frm, to).value;
      |out| <= |polyline| && (out != [] ==> 2 <= |out|)
    ensures var out := SegmentOf(dist, polyline, frm, to).value;
      out != [] ==>
        var s := StartSegment(dist, polyline, frm, 0);
        s + |out| - 1 <= |polyline| - 1 &&
        Some(out[0]) == PointOnLine(dist, polyline[s], polyline[s + 1], frm - PrefixLength(dist, polyline, s)) &&
        out[1..|out| - 1] == polyline[s + 1..s + |out| - 1]
  {
    var out := SegmentOf(dist, polyline, frm, to).value;
    if out != [] {
      var s := StartSegment(dist, polyline, frm, 0);
      var e := EndSegment(dist, polyline, to, s);
      var first := PointOnLine(dist, polyline[s], polyline[s + 1], frm - PrefixLength(dist, polyline, s)).value;
      if e == |polyline| - 1 {
        var mid := polyline[s + 1..|polyline| - 1];
        assert polyline[s + 1..] == mid + [polyline[|polyline| - 1]];
        assert out == [first] + mid + [polyline[|polyline| - 1]];
        Interior(first, mid, polyline[|polyline| - 1]);
        assert s + |out| - 1 == |polyline| - 1;
      } else {
        var last := PointOnLine(dist, polyline[e], polyline[e + 1], to - PrefixLength(dist, polyline, e)).value;
        var mid := polyline[s + 1..e + 1];
        assert out == [first] + mid + [last];
        Interior(first, mid, last);
        assert s + |out| - 1 == e + 1;
      }
    }
  }

  lemma Interior<T>(first: T, mid: seq<T>, last: T)
    ensures ([first] + mid + [last])[1..|mid| + 1] == mid
  {
  }

  /** When `to` reaches the end of the polyline, a non-empty segment ends at its last vertex. */
  lemma SegmentReachesLastVertex(dist: Distance, polyline: Polyline, frm: real, to: real)
    requires IsDistance(dist) && to >= TotalLength(dist, polyline)
    requires SegmentOf(dist, polyline, frm, to).Some? && SegmentOf(dist, polyline, frm, to).value != []
    ensures var out := SegmentOf(dist, polyline, frm, to).value;
      out[|out| - 1] == polyline[|polyline| - 1]
  {
    var s := StartSegment(dist, polyline, frm, 0);
    var e := EndSegment(dist, polyline, to, s);
    if e < |polyline| - 1 {
      PrefixAtMostTotal(dist, polyline, e + 1);
      assert false;
    }
  }
}
