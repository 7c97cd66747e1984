/** Points, the two orientation predicates on them, and the growable
    `Polygon` vector of points that the hull engine works on. */
module Polygons {

  /** Number of slots a freshly created polygon has. */
  const InitialCap: nat := 16
  /** Factor by which a full polygon's capacity is multiplied. */
  const GrowthRate: nat := 2

  /** A 2D point with integer coordinates; equal exactly when both coordinates are. */
  datatype Point = Point(x: int, y: int)

  /** The fatal conditions the C code reports before exiting. */
  datatype Error = IndexOutOfBounds | EmptyPolygon | NonEmptyDestination

  /** Outcome of an operation that only changes state. */
  datatype Outcome = Pass | Fail(error: Error)

  /** Outcome of an operation that yields a value. */
  datatype Result<T> = Success(value: T) | Failure(error: Error)

  function Abs(n: int): (r: int)
    ensures r >= 0 && (r == n || r == -n)
  {
    if n < 0 then -n else n
  }

  /** The cross product (B - A) x (P - A): positive when P is left of the
      directed line A->B, negative when right, zero when collinear. */
  function Cross(a: Point, b: Point, p: Point): int
  {
    (b.x - a.x) * (p.y - a.y) - (b.y - a.y) * (p.x - a.x)
  }

  /** Point_Location: +1 left of A->B, -1 right of it, 0 collinear. */
  function Location(a: Point, b: Point, p: Point): (r: int)
    ensures r == 1 || r == 0 || r == -1
  {
    var cp1 := Cross(a, b, p);
    if cp1 > 0 then 1 else if cp1 == 0 then 0 else -1
  }

  /** Point_Distance: twice the area of triangle ABC, computed as
      AB x (A - C) and then made non-negative. */
  function Distance(a: Point, b: Point, c: Point): (r: int)
    ensures r >= 0
  {
    var abx := b.x - a.x;
    var aby := b.y - a.y;
    var num := abx * (a.y - c.y) - aby * (a.x - c.x);
    if num < 0 then num * -1 else num
  }

  /** The distance is the magnitude of the cross product Location takes
      the sign of, so it is zero exactly for collinear points. */
  lemma DistanceIsAbsCross(a: Point, b: Point, c: Point)
    ensures Distance(a, b, c) == Abs(Cross(a, b, c))
    ensures Distance(a, b, c) == 0 <==> Location(a, b, c) == 0
  {
    var abx, aby := b.x - a.x, b.y - a.y;
    assert abx * (a.y - c.y) == -(abx * (c.y - a.y));
    assert aby * (a.x - c.x) == -(aby * (c.x - a.x));
  }

  /** A point is collinear with the segment it is an endpoint of. */
  lemma LocationAtEndpoints(a: Point, b: Point)
    ensures Location(a, b, a) == 0 && Location(a, b, b) == 0
  {
  }

  /** Reversing the direction of the line reverses the side. */
  lemma LocationSwap(a: Point, b: Point, p: Point)
    ensures Location(b, a, p) == -Location(a, b, p)
  {
    var u, v := b.x - a.x, b.y - a.y;
    var s, t := p.x - a.x, p.y - a.y;
    assert Cross(a, b, p) == u * t - v * s;
    assert Cross(b, a, p) == (-u) * (t - v) - (-v) * (s - u);
    assert (-u) * (t - v) == -(u * t) + u * v;
    assert (-v) * (s - u) == -(v * s) + u * v;
  }

  /** Index of the first element of `s` equal to `a`, or -1 when there is none. */
  function IndexOfSeq(s: seq<Point>, a: Point): (r: int)
    ensures -1 <= r < |s|
    ensures r == -1 <==> a !in s
    ensures 0 <= r ==> s[r] == a
  {
    if |s| == 0 then -1
    else if s[0] == a then 0
    else
      var k := IndexOfSeq(s[1..], a);
      if k == -1 then -1 else k + 1
  }

  /** No element before the one IndexOfSeq finds equals `a`. */
  lemma {:induction false} IndexOfSeqIsFirst(s: seq<Point>, a: Point)
    ensures forall j :: 0 <= j < IndexOfSeq(s, a) ==> s[j] != a
  {
    if |s| > 0 && s[0] != a {
      IndexOfSeqIsFirst(s[1..], a);
    }
  }

  /** `s` with `a` placed at position `idx` and the tail shifted right. */
  function InsertAtSeq(s: seq<Point>, a: Point, idx: int): seq<Point>
    requires 0 <= idx <= |s|
  {
    s[..idx] + [a] + s[idx..]
  }

  /** Logical effect of Polygon_Remove_At on contents `s`, bound check
      `idx > size` as written: `idx == |s|` drops the last element. */
  function RemoveAtSeq(s: seq<Point>, idx: int): (r: seq<Point>)
    requires 0 <= idx <= |s| && |s| > 0
    ensures |r| == |s| - 1
  {
    if idx < |s| then s[..idx] + s[idx + 1..] else s[..|s| - 1]
  }

  /** Removal keeps the points before `idx` in place and moves the ones
      after it down by one; with `idx == |s|` the last point is the one
      dropped. Nothing new appears. */
  lemma RemoveAtSeqShifts(s: seq<Point>, idx: int)
    requires 0 <= idx <= |s| && |s| > 0
    ensures forall j :: 0 <= j < |s| - 1 ==> RemoveAtSeq(s, idx)[j] == if j < idx then s[j] else s[j + 1]
    ensures forall q :: q in RemoveAtSeq(s, idx) ==> q in s
  {
    var r := RemoveAtSeq(s, idx);
    forall j | 0 <= j < |s| - 1
      ensures r[j] == if j < idx then s[j] else s[j + 1]
    {
      if idx == |s| {
        assert r == s[..|s| - 1];
      } else if j < idx {
        assert r[j] == s[..idx][j];
      } else {
        assert r[j] == s[idx + 1..][j - idx];
      }
    }
    forall q | q in r
      ensures q in s
    {
      var j :| 0 <= j < |r| && r[j] == q;
      assert q == (if j < idx then s[j] else s[j + 1]);
    }
  }

  /** Removing a position inside `s` takes away exactly the point there. */
  lemma RemoveAtSeqMultiset(s: seq<Point>, idx: int)
    requires 0 <= idx < |s|
    ensures multiset(RemoveAtSeq(s, idx)) + multiset{s[idx]} == multiset(s)
  {
    assert s == s[..idx] + [s[idx]] + s[idx + 1..];
  }

  /** Removing the point just inserted gives the polygon back; the point
      lands at `idx` and every other point is kept in order. */
  lemma InsertThenRemove(s: seq<Point>, a: Point, idx: int)
    requires 0 <= idx <= |s|
    ensures |InsertAtSeq(s, a, idx)| == |s| + 1 && InsertAtSeq(s, a, idx)[idx] == a
    ensures RemoveAtSeq(InsertAtSeq(s, a, idx), idx) == s
  {
    var t := InsertAtSeq(s, a, idx);
    assert t[..idx] == s[..idx];
    assert t[idx + 1..] == s[idx..];
  }

  /** The slots a downward shift loop `for (i = top; i >= idx+1; i--)`
      writes, in order. */
  function ShiftTargets(top: int, idx: int): (r: seq<int>)
    decreases top - idx
    ensures |r| == if top > idx then top - idx else 0
    ensures forall k :: 0 <= k < |r| ==> r[k] == top - k
  {
    if top >= idx + 1 then [top] + ShiftTargets(top - 1, idx) else []
  }

  /** As written, Polygon_Insert_At bumps `size` before its shift loop, so
      the loop starts at the new size. With one free slot left (no reshape
      happens) its first write lands one past the end of the buffer. */
  lemma InsertAtWritesPastBuffer(size: nat, capacity: nat, idx: int)
    requires size + 1 == capacity && 0 <= idx <= size
    ensures ShiftTargets(size + 1, idx)[0] == capacity
  {
  }

  /** Starting the shift at the old size, as `Polygon.InsertAt` does, keeps
      every write inside the buffer and above the insertion point. */
  lemma ShiftTargetsInBounds(size: nat, capacity: nat, idx: int)
    requires size < capacity && 0 <= idx <= size
    ensures forall t :: t in ShiftTargets(size, idx) ==> idx < t < capacity
  {
  }

  /** A growable vector of points (struct Polygon): `points` holds
      `capacity` slots of which the first `size` are in use. */
  class Polygon {
    var capacity: nat
    var size: nat
    var points: array<Point>

    ghost predicate Valid()
      reads this
    {
      points.Length == capacity && InitialCap <= capacity && size <= capacity
    }

    /** The points currently held, in order. */
    ghost function Contents(): seq<Point>
      reads this, points
      requires Valid()
    {
      points[..size]
    }

    /** Polygon_Create */
    constructor Create()
      ensures Valid() && fresh(points)
      ensures size == 0 && capacity == InitialCap && Contents() == []
    {
      capacity := InitialCap;
      size := 0;
      points := new Point[InitialCap];
    }

    /** Polygon_Size */
    function Size(): (n: int)
      reads this, points
      requires Valid()
      ensures n == |Contents()|
    {
      size as int
    }

    /** Polygon_Get, with the bound check as written: `idx == size` passes
        and reads the slot just past the points in use. */
    function Get(idx: int): (r: Result<Point>)
      reads this, points
      requires Valid()
      requires idx == size ==> size < capacity
      ensures r.Success? <==> 0 <= idx <= size
      ensures r.Failure? ==> r.error == IndexOutOfBounds
      ensures 0 <= idx < size ==> r == Success(Contents()[idx])
      ensures idx == size ==> r == Success(points[size])
    {
      if idx < 0 || idx > size then Failure(IndexOutOfBounds) else Success(points[idx])
    }

    /** Polygon_indexOf */
    method IndexOf(a: Point) returns (r: int)
      requires Valid()
      ensures r == IndexOfSeq(Contents(), a)
      ensures r == -1 <==> a !in Contents()
      ensures 0 <= r ==> r < size && Contents()[r] == a
    {
      var i := 0;
      while i < Size()
        invariant 0 <= i <= size
        invariant forall j :: 0 <= j < i ==> Contents()[j] != a
      {
        var q := Get(i).value;
        if q.x == a.x && q.y == a.y {
          assert Contents()[i] == a;
          IndexOfSeqIsFirst(Contents(), a);
          return i;
        }
        i := i + 1;
      }
      return -1;
    }

    /** Polygon_Reshape: a buffer `GrowthRate` times larger, holding a copy
        of the whole old buffer. */
    method Reshape()
      requires Valid()
      modifies this
      ensures Valid() && fresh(points)
      ensures capacity == old(capacity) * GrowthRate && size == old(size)
      ensures points[..old(capacity)] == old(points[..])
      ensures Contents() == old(Contents())
    {
      var newCapacity := capacity * GrowthRate;
      var newPoints := new Point[newCapacity];
      var i := 0;
      while i < capacity
        invariant 0 <= i <= capacity
        invariant newPoints[..i] == points[..i]
        modifies newPoints
      {
        newPoints[i] := points[i];
        i := i + 1;
      }
      capacity := newCapacity;
      points := newPoints;
    }

    /** Polygon_Add: append, growing first when full. */
    method Add(a: Point)
      requires Valid()
      modifies this, points
      ensures Valid() && (points == old(points) || fresh(points))
      ensures Contents() == old(Contents()) + [a]
      ensures capacity == if old(size) == old(capacity) then old(capacity) * GrowthRate else old(capacity)
    {
      if capacity == size {
        Reshape();
      }
      points[size] := a;
      size := size + 1;
    }

    /** Polygon_Insert_At. The shift starts at the old size; the C loop
        starts one slot higher (see InsertAtWritesPastBuffer), a write
        outside the points in use that does not change the contents. */
    method InsertAt(a: Point, idx: int) returns (outcome: Outcome)
      requires Valid()
      modifies this, points
      ensures Valid() && (points == old(points) || fresh(points))
      ensures outcome == Pass <==> 0 <= idx <= old(size)
      ensures outcome == Pass ==> Contents() == InsertAtSeq(old(Contents()), a, idx)
      ensures outcome == Pass ==>
        capacity == if old(size) == old(capacity) then old(capacity) * GrowthRate else old(capacity)
      ensures outcome != Pass ==> outcome == Fail(IndexOutOfBounds) && unchanged(this) && points[..] == old(points[..])
    {
      if idx < 0 || idx > size {
        return Fail(IndexOutOfBounds);
      }
      if capacity == size {
        Reshape();
      }
      Place(a, idx);
      return Pass;
    }

    /** The part of Polygon_Insert_At after the bound check and the
        reshape: one more point in use, the tail shifted up, `a` written at
        `idx`. */
    method Place(a: Point, idx: nat)
      requires Valid() && idx <= size < capacity
      modifies this, points
      ensures Valid() && points == old(points) && capacity == old(capacity)
      ensures Contents() == InsertAtSeq(old(Contents()), a, idx)
    {
      ghost var s := Contents();
      var top := size;
      size := size + 1;
      ghost var written := ShiftUp(idx, top);
      points[idx] := a;
      assert forall j :: 0 <= j < size ==> Contents()[j] == InsertAtSeq(s, a, idx)[j];
    }

    /** The shift loop of Polygon_Insert_At, started at the old size `top`:
        the points at `idx .. top-1` move up one slot. `written` lists the
        slots the loop writes, which are `ShiftTargets(top, idx)` and all
        lie inside the buffer. */
    method ShiftUp(idx: nat, top: nat) returns (ghost written: seq<int>)
      requires points.Length == capacity && idx <= top < capacity
      modifies points
      ensures written == ShiftTargets(top, idx)
      ensures forall t :: t in written ==> idx < t < capacity
      ensures forall j :: 0 <= j <= idx ==> points[j] == old(points[j])
      ensures forall j :: idx < j <= top ==> points[j] == old(points[j - 1])
      ensures forall j :: top < j < points.Length ==> points[j] == old(points[j])
    {
      var i := top;
      written := [];
      while i >= idx + 1
        invariant idx <= i <= top
        invariant forall j :: 0 <= j <= i ==> points[j] == old(points[j])
        invariant forall j :: i < j <= top ==> points[j] == old(points[j - 1])
        invariant forall j :: top < j < points.Length ==> points[j] == old(points[j])
        invariant written == ShiftTargets(top, idx)[..top - i]
      {
        assert ShiftTargets(top, idx)[..top - i + 1] == ShiftTargets(top, idx)[..top - i] + [i];
        points[i] := points[i - 1];
        written := written + [i];
        i := i - 1;
      }
      ShiftTargetsInBounds(top, capacity, idx);
    }

    /** Polygon_Pop: forget the last point; the buffer is not touched. */
    method Pop() returns (outcome: Outcome)
      requires Valid()
      modifies this
      ensures Valid() && points == old(points) && capacity == old(capacity)
      ensures outcome == Pass <==> old(size) > 0
      ensures outcome == Pass ==> size == old(size) - 1 && Contents() == old(Contents())[..size]
      ensures outcome != Pass ==> outcome == Fail(EmptyPolygon) && size == old(size)
    {
      if size == 0 {
        return Fail(EmptyPolygon);
      }
      size := size - 1;
      return Pass;
    }

    /** Polygon_Remove_At, with the bound check as written: `idx == size`
        passes, and on a non-empty polygon then drops the last point. */
    method RemoveAt(idx: int) returns (outcome: Outcome)
      requires Valid()
      modifies this, points
      ensures Valid() && points == old(points) && capacity == old(capacity)
      ensures outcome == if idx < 0 || idx > old(size) then Fail(IndexOutOfBounds)
                         else if old(size) == 0 then Fail(EmptyPolygon)
                         else Pass
      ensures outcome == Pass ==> Contents() == RemoveAtSeq(old(Contents()), idx)
      ensures outcome != Pass ==> unchanged(this) && points[..] == old(points[..])
    {
      if idx < 0 || idx > size {
        return Fail(IndexOutOfBounds);
      }
      if size == 0 {
        return Fail(EmptyPolygon);
      }
      ghost var s := Contents();
      size := size - 1;
      var i := idx;
      while i < size
        invariant idx <= i && (i <= size || i == idx) && size == |s| - 1 && Valid()
        modifies points
        invariant forall j :: 0 <= j < idx ==> points[j] == s[j]
        invariant forall j :: idx <= j < i ==> points[j] == s[j + 1]
        invariant forall j :: i <= j < |s| ==> points[j] == s[j]
      {
        points[i] := points[i + 1];
        i := i + 1;
      }
      assert forall j :: 0 <= j < size ==> Contents()[j] == RemoveAtSeq(s, idx)[j];
      return Pass;
    }
  }
}
