/** The QuickHull engine: `Run` (the C `quickhull`) and its recursive
    helper `HullSet`, each proved against a functional specification
    (`QuickHullSpec`, `HullSetSpec`) whose properties are lemmas here. */
module QuickHull {
  import opened Polygons

  /** INT_MIN, the starting value of the running farthest distance. */
  const IntMin: int := -0x8000_0000

  /** Points of `s`, in their order, whose location against X->Y is `side`. */
  function Side(X: Point, Y: Point, s: seq<Point>, side: int): (r: seq<Point>)
    ensures |r| <= |s|
  {
    if |s| == 0 then []
    else Side(X, Y, s[..|s| - 1], side) + (if Location(X, Y, s[|s| - 1]) == side then [s[|s| - 1]] else [])
  }

  /** A point is kept by Side exactly when it is in `s` on that side. */
  lemma {:induction false} SideMembers(X: Point, Y: Point, s: seq<Point>, side: int)
    ensures forall q :: q in Side(X, Y, s, side) <==> q in s && Location(X, Y, q) == side
  {
    if |s| > 0 {
      SideMembers(X, Y, s[..|s| - 1], side);
      assert s == s[..|s| - 1] + [s[|s| - 1]];
    }
  }

  /** First index of a point of `s` farthest from the line A-B (the loop
      keeps the first one it meets among equally far points). */
  function FarthestIndex(A: Point, B: Point, s: seq<Point>): (k: nat)
    requires |s| > 0
    ensures k < |s|
  {
    if |s| == 1 then 0
    else
      var k := FarthestIndex(A, B, s[..|s| - 1]);
      if Distance(A, B, s[|s| - 1]) > Distance(A, B, s[k]) then |s| - 1 else k
  }

  /** First index of a point with the least x coordinate. */
  function FirstMinX(s: seq<Point>): (k: nat)
    requires |s| > 0
    ensures k < |s|
  {
    if |s| == 1 then 0
    else
      var k := FirstMinX(s[..|s| - 1]);
      if s[|s| - 1].x < s[k].x then |s| - 1 else k
  }

  /** First index of a point with the greatest x coordinate. */
  function FirstMaxX(s: seq<Point>): (k: nat)
    requires |s| > 0
    ensures k < |s|
  {
    if |s| == 1 then 0
    else
      var k := FirstMaxX(s[..|s| - 1]);
      if s[|s| - 1].x > s[k].x then |s| - 1 else k
  }

  /** What `hullSet(A, B, set, hull)` leaves in `hull`, given the contents
      `S` of `set` and `H` of `hull`: the farthest point of `S` from A-B
      goes in just before B, then the points left of A->P and of P->B are
      refined in turn. B must be in the hull whenever `S` is not empty. */
  function HullSetSpec(A: Point, B: Point, S: seq<Point>, H: seq<Point>): (r: seq<Point>)
    requires |S| > 0 ==> B in H
    decreases |S|
    ensures forall q :: q in H ==> q in r
  {
    if |S| == 0 then H
    else
      var insertPosition := IndexOfSeq(H, B);
      if |S| == 1 then InsertAtSeq(H, S[0], insertPosition)
      else
        var f := FarthestIndex(A, B, S);
        var P := S[f];
        var rest := RemoveAtSeq(S, f);
        var H1 := InsertAtSeq(H, P, insertPosition);
        var leftAP := Side(A, P, rest, 1);
        var leftPB := Side(P, B, rest, 1);
        HullSetSpec(P, B, leftPB, HullSetSpec(A, P, leftAP, H1))
  }

  /** The two extreme points removed from the input by position, both
      positions taken before either removal, as `quickhull` is written.
      When the first position is below the second, the second removal
      hits the point that followed the intended one. */
  function RemoveBoth(s: seq<Point>, first: nat, second: nat): (r: seq<Point>)
    requires first < |s| && second < |s| && |s| >= 2
    ensures |r| == |s| - 2
    ensures forall q :: q in r ==> q in s
  {
    RemoveAtSeqShifts(s, first);
    RemoveAtSeqShifts(RemoveAtSeq(s, first), second);
    RemoveAtSeq(RemoveAtSeq(s, first), second)
  }

  /** The two extreme points removed as intended: the later position
      first, so the earlier one still names the same point, and a
      position shared by both extremes only once. */
  function RemoveExtremes(s: seq<Point>, i: nat, j: nat): (r: seq<Point>)
    requires i < |s| && j < |s|
    ensures |r| == if i == j then |s| - 1 else |s| - 2
  {
    if i == j then RemoveAtSeq(s, i)
    else if i < j then RemoveAtSeq(RemoveAtSeq(s, j), i)
    else RemoveAtSeq(RemoveAtSeq(s, i), j)
  }

  /** The hull `quickhull` builds from the extremes A and B and the other
      points `rest`: the edge A->B refined with the points at location +1
      (the C code's `rightSet`), then B->A with those at -1 (`leftSet`).
      Collinear points are dropped. */
  function HullFrom(A: Point, B: Point, rest: seq<Point>): seq<Point>
  {
    var rightSet := Side(A, B, rest, 1);
    var leftSet := Side(A, B, rest, -1);
    HullSetSpec(B, A, leftSet, HullSetSpec(A, B, rightSet, [A, B]))
  }

  /** What `quickhull(src, dest)` leaves in an empty `dest`, given the
      contents of `src`, with the extremes removed as intended. */
  function QuickHullSpec(src: seq<Point>): seq<Point>
  {
    if |src| < 3 then src
    else
      var minPoint, maxPoint := FirstMinX(src), FirstMaxX(src);
      HullFrom(src[minPoint], src[maxPoint], RemoveExtremes(src, minPoint, maxPoint))
  }

  /** `quickhull` as written, with its double removal by stale positions. */
  function QuickHullAsWritten(src: seq<Point>): seq<Point>
  {
    if |src| < 3 then src
    else
      var minPoint, maxPoint := FirstMinX(src), FirstMaxX(src);
      HullFrom(src[minPoint], src[maxPoint], RemoveBoth(src, minPoint, maxPoint))
  }

  /** The scan of `hullSet` for the point of `pts` farthest from A-B. */
  method Farthest(A: Point, B: Point, pts: Polygon) returns (furthestPoint: int)
    requires pts.Valid() && pts.size > 0
    ensures furthestPoint == FarthestIndex(A, B, pts.Contents())
  {
    ghost var S := pts.Contents();
    var dist := IntMin;
    furthestPoint := -1;
    var i := 0;
    while i < pts.Size()
      invariant 0 <= i <= |S|
      invariant i == 0 ==> dist == IntMin
      invariant i > 0 ==> 0 <= furthestPoint < i
      invariant i > 0 ==> furthestPoint == FarthestIndex(A, B, S[..i])
      invariant i > 0 ==> dist == Distance(A, B, S[furthestPoint])
    {
      var p := pts.Get(i).value;
      var distance := Distance(A, B, p);
      assert S[..i + 1][..i] == S[..i];
      if distance > dist {
        dist := distance;
        furthestPoint := i;
      }
      i := i + 1;
    }
    assert S[..|S|] == S;
  }

  /** A new polygon holding, in order, the points of `pts` strictly left
      of X->Y (the two collecting loops of `hullSet`). */
  method LeftOf(X: Point, Y: Point, pts: Polygon) returns (out: Polygon)
    requires pts.Valid()
    ensures fresh(out) && fresh(out.points) && out.Valid()
    ensures out.Contents() == Side(X, Y, pts.Contents(), 1)
  {
    ghost var S := pts.Contents();
    out := new Polygon.Create();
    var i := 0;
    while i < pts.Size()
      invariant 0 <= i <= |S|
      invariant fresh(out) && fresh(out.points) && out.Valid()
      invariant out.Contents() == Side(X, Y, S[..i], 1)
    {
      var M := pts.Get(i).value;
      assert S[..i + 1][..i] == S[..i];
      if Location(X, Y, M) == 1 {
        out.Add(M);
      }
      i := i + 1;
    }
    assert S[..|S|] == S;
  }

  /** Takes the point at `k` out of `pts` and inserts it into `hull` at
      `insertPosition` (the Get, Remove_At, Insert_At steps of `hullSet`). */
  method MoveToHull(pts: Polygon, k: int, hull: Polygon, insertPosition: int) returns (P: Point)
    requires pts.Valid() && hull.Valid()
    requires pts != hull && pts.points != hull.points
    requires 0 <= k < pts.size && 0 <= insertPosition <= hull.size
    modifies pts, pts.points, hull, hull.points
    ensures pts.Valid() && hull.Valid()
    ensures pts.points == old(pts.points)
    ensures hull.points == old(hull.points) || fresh(hull.points)
    ensures P == old(pts.Contents())[k]
    ensures pts.Contents() == RemoveAtSeq(old(pts.Contents()), k)
    ensures hull.Contents() == InsertAtSeq(old(hull.Contents()), P, insertPosition)
  {
    P := pts.Get(k).value;
    var _ := pts.RemoveAt(k);
    var _ := hull.InsertAt(P, insertPosition);
  }

  /** `hullSet`: refines the hull edge A->B with the points of `pts`. The
      farthest point goes into the hull just before B and the points
      outside the two new edges are refined in turn. */
  method HullSet(A: Point, B: Point, pts: Polygon, hull: Polygon)
    requires pts.Valid() && hull.Valid()
    requires pts != hull && pts.points != hull.points
    requires pts.size > 0 ==> B in hull.Contents()
    modifies pts, pts.points, hull, hull.points
    decreases pts.size, 1
    ensures pts.Valid() && hull.Valid()
    ensures pts.points == old(pts.points)
    ensures hull.points == old(hull.points) || fresh(hull.points)
    ensures hull.Contents() == HullSetSpec(A, B, old(pts.Contents()), old(hull.Contents()))
    ensures old(pts.size) == 0 ==> pts.Contents() == old(pts.Contents())
    ensures old(pts.size) > 0 ==>
      pts.Contents() == RemoveAtSeq(old(pts.Contents()), FarthestIndex(A, B, old(pts.Contents())))
  {
    ghost var n := pts.size;
    var insertPosition := hull.IndexOf(B);
    if pts.Size() == 0 {
      return;
    }
    if pts.Size() == 1 {
      MoveSole(pts, hull, insertPosition);
      return;
    }
    var P, leftSetAP, leftSetPB := Pivot(A, B, pts, hull, insertPosition);
    HullBothSides(A, P, B, leftSetAP, leftSetPB, hull, n);
  }

  /** The one-point case of `hullSet`: the only point of `pts`, found again
      by `Polygon_indexOf`, moves into the hull at `insertPosition`. */
  method MoveSole(pts: Polygon, hull: Polygon, insertPosition: int)
    requires pts.Valid() && hull.Valid()
    requires pts != hull && pts.points != hull.points
    requires pts.size == 1 && 0 <= insertPosition <= hull.size
    modifies pts, pts.points, hull, hull.points
    ensures pts.Valid() && hull.Valid()
    ensures pts.points == old(pts.points)
    ensures hull.points == old(hull.points) || fresh(hull.points)
    ensures pts.Contents() == []
    ensures hull.Contents() == InsertAtSeq(old(hull.Contents()), old(pts.Contents())[0], insertPosition)
  {
    var p := pts.Get(0).value;
    var at := pts.IndexOf(p);
    var _ := MoveToHull(pts, at, hull, insertPosition);
  }

  /** The first half of the recursive step of `hullSet`: moves the point
      farthest from AB into the hull, just before B, and collects the
      remaining points left of AP and left of PB. */
  method Pivot(A: Point, B: Point, pts: Polygon, hull: Polygon, insertPosition: int)
      returns (P: Point, leftSetAP: Polygon, leftSetPB: Polygon)
    requires pts.Valid() && hull.Valid()
    requires pts != hull && pts.points != hull.points
    requires pts.size > 0 && 0 <= insertPosition <= hull.size
    modifies pts, pts.points, hull, hull.points
    ensures pts.Valid() && hull.Valid()
    ensures pts.points == old(pts.points)
    ensures hull.points == old(hull.points) || fresh(hull.points)
    ensures P == old(pts.Contents())[FarthestIndex(A, B, old(pts.Contents()))]
    ensures pts.Contents() == RemoveAtSeq(old(pts.Contents()), FarthestIndex(A, B, old(pts.Contents())))
    ensures hull.Contents() == InsertAtSeq(old(hull.Contents()), P, insertPosition)
    ensures fresh(leftSetAP) && fresh(leftSetAP.points) && leftSetAP.Valid()
    ensures fresh(leftSetPB) && fresh(leftSetPB.points) && leftSetPB.Valid()
    ensures leftSetAP != leftSetPB && leftSetAP.points != leftSetPB.points
    ensures leftSetAP.points != hull.points && leftSetPB.points != hull.points
    ensures leftSetAP.Contents() == Side(A, P, pts.Contents(), 1)
    ensures leftSetPB.Contents() == Side(P, B, pts.Contents(), 1)
  {
    var furthestPoint := Farthest(A, B, pts);
    P := MoveToHull(pts, furthestPoint, hull, insertPosition);
    leftSetAP := LeftOf(A, P, pts);
    leftSetPB := LeftOf(P, B, pts);
  }

  /** The two recursive calls of `hullSet`: first the points left of AP,
      then the points left of PB, into the same hull. */
  method HullBothSides(A: Point, P: Point, B: Point, leftSetAP: Polygon, leftSetPB: Polygon,
                       hull: Polygon, ghost bound: nat)
    requires leftSetAP.Valid() && leftSetPB.Valid() && hull.Valid()
    requires leftSetAP != hull && leftSetAP.points != hull.points
    requires leftSetPB != hull && leftSetPB.points != hull.points
    requires leftSetAP != leftSetPB && leftSetAP.points != leftSetPB.points
    requires leftSetAP.size < bound && leftSetPB.size < bound
    requires P in hull.Contents() && B in hull.Contents()
    modifies leftSetAP, leftSetAP.points, leftSetPB, leftSetPB.points, hull, hull.points
    decreases bound, 0
    ensures hull.Valid()
    ensures hull.points == old(hull.points) || fresh(hull.points)
    ensures hull.Contents() == HullSetSpec(P, B, old(leftSetPB.Contents()),
                                           HullSetSpec(A, P, old(leftSetAP.Contents()), old(hull.Contents())))
  {
    HullSet(A, P, leftSetAP, hull);
    HullSet(P, B, leftSetPB, hull);
  }

  /** The scan of `quickhull` for the first leftmost and the first
      rightmost point. Index -1 plays the part of the C code's INT_MAX /
      INT_MIN sentinels: no point seen yet. */
  method Extremes(src: Polygon) returns (minPoint: int, maxPoint: int)
    requires src.Valid() && src.size > 0
    ensures minPoint == FirstMinX(src.Contents())
    ensures maxPoint == FirstMaxX(src.Contents())
  {
    ghost var S := src.Contents();
    minPoint, maxPoint := -1, -1;
    var minX, maxX := 0, 0;
    var i := 0;
    while i < src.Size()
      invariant 0 <= i <= |S|
      invariant i == 0 ==> minPoint == -1 && maxPoint == -1
      invariant i > 0 ==> 0 <= minPoint < i && 0 <= maxPoint < i
      invariant i > 0 ==> minPoint == FirstMinX(S[..i]) && minX == S[minPoint].x
      invariant i > 0 ==> maxPoint == FirstMaxX(S[..i]) && maxX == S[maxPoint].x
    {
      var p := src.Get(i).value;
      assert S[..i + 1][..i] == S[..i];
      if minPoint == -1 || p.x < minX {
        minX := p.x;
        minPoint := i;
      }
      if maxPoint == -1 || p.x > maxX {
        maxX := p.x;
        maxPoint := i;
      }
      i := i + 1;
    }
    assert S[..|S|] == S;
  }

  /** The split of `quickhull`: new polygons holding, in order, the points
      of `pts` right of A->B (`leftSet`) and left of it (`rightSet`);
      collinear points go to neither. */
  method Partition(A: Point, B: Point, pts: Polygon) returns (leftSet: Polygon, rightSet: Polygon)
    requires pts.Valid()
    ensures fresh(leftSet) && fresh(leftSet.points) && leftSet.Valid()
    ensures fresh(rightSet) && fresh(rightSet.points) && rightSet.Valid()
    ensures leftSet != rightSet && leftSet.points != rightSet.points
    ensures leftSet.Contents() == Side(A, B, pts.Contents(), -1)
    ensures rightSet.Contents() == Side(A, B, pts.Contents(), 1)
  {
    ghost var S := pts.Contents();
    leftSet := new Polygon.Create();
    rightSet := new Polygon.Create();
    var i := 0;
    while i < pts.Size()
      invariant 0 <= i <= |S|
      invariant fresh(leftSet) && fresh(leftSet.points) && leftSet.Valid()
      invariant fresh(rightSet) && fresh(rightSet.points) && rightSet.Valid()
      invariant leftSet != rightSet && leftSet.points != rightSet.points
      invariant leftSet.Contents() == Side(A, B, S[..i], -1)
      invariant rightSet.Contents() == Side(A, B, S[..i], 1)
    {
      var p := pts.Get(i).value;
      assert S[..i + 1][..i] == S[..i];
      if Location(A, B, p) == -1 {
        leftSet.Add(p);
      } else if Location(A, B, p) == 1 {
        rightSet.Add(p);
      }
      i := i + 1;
    }
    assert S[..|S|] == S;
  }

  /** quickhull: builds the hull of `src` into `dest`, which must be empty.
      `src` loses its two extreme points when it has three or more. */
  method Run(src: Polygon, dest: Polygon) returns (outcome: Outcome)
    requires src.Valid() && dest.Valid()
    requires src != dest && src.points != dest.points
    modifies src, src.points, dest, dest.points
    ensures src.Valid() && dest.Valid()
    ensures src.points == old(src.points)
    ensures dest.points == old(dest.points) || fresh(dest.points)
    ensures outcome == Pass <==> old(dest.size) == 0
    ensures outcome != Pass ==>
      outcome == Fail(NonEmptyDestination) && unchanged(src) && unchanged(dest) &&
      unchanged(src.points) && unchanged(dest.points)
    ensures outcome == Pass ==> dest.Contents() == QuickHullSpec(old(src.Contents()))
    ensures outcome == Pass && old(src.size) < 3 ==> src.Contents() == old(src.Contents())
    ensures outcome == Pass && old(src.size) >= 3 ==>
      var s := old(src.Contents());
      src.Contents() == RemoveExtremes(s, FirstMinX(s), FirstMaxX(s))
  {
    if dest.Size() != 0 {
      return Fail(NonEmptyDestination);
    }
    if src.Size() < 3 {
      CopyAll(src, dest);
    } else {
      BuildHull(src, dest);
    }
    return Pass;
  }

  /** The branch of `quickhull` for fewer than three points: they are
      copied over in order. */
  method CopyAll(src: Polygon, dest: Polygon)
    requires src.Valid() && dest.Valid()
    requires src != dest && src.points != dest.points
    requires dest.size == 0
    modifies dest, dest.points
    ensures dest.Valid()
    ensures dest.points == old(dest.points) || fresh(dest.points)
    ensures dest.Contents() == src.Contents()
  {
    ghost var S := src.Contents();
    var i := 0;
    while i < src.Size()
      invariant 0 <= i <= |S|
      invariant dest.Valid() && dest.points != src.points
      invariant dest.points == old(dest.points) || fresh(dest.points)
      invariant dest.Contents() == S[..i]
      modifies dest, dest.points
    {
      dest.Add(src.Get(i).value);
      i := i + 1;
    }
    assert S[..|S|] == S;
  }

  /** The first steps of `quickhull` for three or more points: the first
      leftmost point A and the first rightmost point B start the hull and
      are removed from `src`. */
  method Seed(src: Polygon, dest: Polygon) returns (A: Point, B: Point)
    requires src.Valid() && dest.Valid()
    requires src != dest && src.points != dest.points
    requires dest.size == 0 && src.size >= 3
    modifies src, src.points, dest, dest.points
    ensures src.Valid() && dest.Valid()
    ensures src.points == old(src.points)
    ensures dest.points == old(dest.points) || fresh(dest.points)
    ensures A == old(src.Contents())[FirstMinX(old(src.Contents()))]
    ensures B == old(src.Contents())[FirstMaxX(old(src.Contents()))]
    ensures dest.Contents() == [A, B]
    ensures src.Contents() ==
      RemoveExtremes(old(src.Contents()), FirstMinX(old(src.Contents())), FirstMaxX(old(src.Contents())))
  {
    ghost var S := src.Contents();
    var minPoint, maxPoint := Extremes(src);
    A := src.Get(minPoint).value;
    B := src.Get(maxPoint).value;
    dest.Add(A);
    dest.Add(B);
    assert dest.Contents() == [A, B];
    // The later position goes first so that the earlier one still names
    // its point; a position shared by both extremes goes once.
    if minPoint < maxPoint {
      var _ := src.RemoveAt(maxPoint);
      var _ := src.RemoveAt(minPoint);
    } else if maxPoint < minPoint {
      var _ := src.RemoveAt(minPoint);
      var _ := src.RemoveAt(maxPoint);
    } else {
      var _ := src.RemoveAt(minPoint);
    }
  }

  /** The branch of `quickhull` for three or more points. */
  method BuildHull(src: Polygon, dest: Polygon)
    requires src.Valid() && dest.Valid()
    requires src != dest && src.points != dest.points
    requires dest.size == 0 && src.size >= 3
    modifies src, src.points, dest, dest.points
    ensures src.Valid() && dest.Valid()
    ensures src.points == old(src.points)
    ensures dest.points == old(dest.points) || fresh(dest.points)
    ensures dest.Contents() == QuickHullSpec(old(src.Contents()))
    ensures src.Contents() ==
      RemoveExtremes(old(src.Contents()), FirstMinX(old(src.Contents())), FirstMaxX(old(src.Contents())))
  {
    var A, B := Seed(src, dest);
    var leftSet, rightSet := Partition(A, B, src);
    HullBothSides(A, B, A, rightSet, leftSet, dest, src.size + 1);
  }

  // ---------------------------------------------------------------------
  // Properties of the specification functions

  /** The scan keeps the first point at the greatest distance: no point is
      farther, and every point before it is strictly nearer. */
  lemma {:induction false} FarthestIndexIsFirstMax(A: Point, B: Point, s: seq<Point>)
    requires |s| > 0
    ensures forall j :: 0 <= j < |s| ==> Distance(A, B, s[j]) <= Distance(A, B, s[FarthestIndex(A, B, s)])
    ensures forall j :: 0 <= j < FarthestIndex(A, B, s) ==> Distance(A, B, s[j]) < Distance(A, B, s[FarthestIndex(A, B, s)])
  {
    if |s| > 1 {
      var init := s[..|s| - 1];
      FarthestIndexIsFirstMax(A, B, init);
      assert forall j :: 0 <= j < |init| ==> init[j] == s[j];
    }
  }

  /** The strict comparison keeps the first point of least x. */
  lemma {:induction false} FirstMinXIsFirstMin(s: seq<Point>)
    requires |s| > 0
    ensures forall j :: 0 <= j < |s| ==> s[FirstMinX(s)].x <= s[j].x
    ensures forall j :: 0 <= j < FirstMinX(s) ==> s[FirstMinX(s)].x < s[j].x
  {
    if |s| > 1 {
      var init := s[..|s| - 1];
      FirstMinXIsFirstMin(init);
      assert forall j :: 0 <= j < |init| ==> init[j] == s[j];
    }
  }

  /** The strict comparison keeps the first point of greatest x. */
  lemma {:induction false} FirstMaxXIsFirstMax(s: seq<Point>)
    requires |s| > 0
    ensures forall j :: 0 <= j < |s| ==> s[j].x <= s[FirstMaxX(s)].x
    ensures forall j :: 0 <= j < FirstMaxX(s) ==> s[j].x < s[FirstMaxX(s)].x
  {
    if |s| > 1 {
      var init := s[..|s| - 1];
      FirstMaxXIsFirstMax(init);
      assert forall j :: 0 <= j < |init| ==> init[j] == s[j];
    }
  }

  /** Side takes a sequence one point at a time from the end. */
  lemma SideSnoc(X: Point, Y: Point, s: seq<Point>, p: Point, side: int)
    ensures Side(X, Y, s + [p], side) == Side(X, Y, s, side) + (if Location(X, Y, p) == side then [p] else [])
  {
    assert (s + [p])[..|s|] == s;
  }

  /** The points at location -1 against A->B are exactly the ones at +1
      against B->A, so `hullSet(B, A, leftSet, ...)` gets points left of
      its own edge. */
  lemma LeftSetIsLeftOfReverse(A: Point, B: Point, s: seq<Point>)
    ensures forall q :: q in Side(A, B, s, -1) <==> q in s && Location(B, A, q) == 1
  {
    SideMembers(A, B, s, -1);
    forall q | q in s
      ensures Location(A, B, q) == -1 <==> Location(B, A, q) == 1
    {
      LocationSwap(A, B, q);
    }
  }

  /** Against a degenerate edge from a point to itself nothing is on either
      side. */
  lemma {:induction false} SideOfPointIsEmpty(A: Point, s: seq<Point>, side: int)
    requires side != 0
    ensures Side(A, A, s, side) == []
  {
    if |s| > 0 {
      SideOfPointIsEmpty(A, s[..|s| - 1], side);
    }
  }

  /** `hullSet` with one point puts it immediately before B. */
  lemma HullSetSpecOnePoint(A: Point, B: Point, S: seq<Point>, H: seq<Point>)
    requires |S| == 1 && B in H
    ensures var r := HullSetSpec(A, B, S, H);
      var i := IndexOfSeq(H, B);
      |r| == |H| + 1 && r[i] == S[0] && r[i + 1] == B &&
      r[..i] == H[..i] && r[i + 1..] == H[i..]
  {
  }

  /** The hull only grows, strictly when the set is not empty. */
  lemma {:induction false} HullSetSpecGrows(A: Point, B: Point, S: seq<Point>, H: seq<Point>)
    requires |S| > 0 ==> B in H
    decreases |S|
    ensures |H| <= |HullSetSpec(A, B, S, H)|
    ensures |S| > 0 ==> |H| < |HullSetSpec(A, B, S, H)|
  {
    if |S| > 1 {
      var f := FarthestIndex(A, B, S);
      var P := S[f];
      var rest := RemoveAtSeq(S, f);
      var H1 := InsertAtSeq(H, P, IndexOfSeq(H, B));
      var leftAP := Side(A, P, rest, 1);
      HullSetSpecGrows(A, P, leftAP, H1);
      HullSetSpecGrows(P, B, Side(P, B, rest, 1), HullSetSpec(A, P, leftAP, H1));
    }
  }

  /** Each point of the hull was in it before or came from the set. */
  lemma {:induction false} HullSetSpecFrom(A: Point, B: Point, S: seq<Point>, H: seq<Point>)
    requires |S| > 0 ==> B in H
    decreases |S|
    ensures forall q :: q in HullSetSpec(A, B, S, H) ==> q in H || q in S
  {
    if |S| > 1 {
      var f := FarthestIndex(A, B, S);
      var P := S[f];
      var rest := RemoveAtSeq(S, f);
      var H1 := InsertAtSeq(H, P, IndexOfSeq(H, B));
      var leftAP := Side(A, P, rest, 1);
      var leftPB := Side(P, B, rest, 1);
      HullSetSpecFrom(A, P, leftAP, H1);
      HullSetSpecFrom(P, B, leftPB, HullSetSpec(A, P, leftAP, H1));
      SideMembers(A, P, rest, 1);
      SideMembers(P, B, rest, 1);
      RemoveAtSeqShifts(S, f);
      assert forall q :: q in H1 ==> q in H || q == P;
    }
  }

  /** Every point of the result comes from the input. */
  lemma HullFromPoints(A: Point, B: Point, rest: seq<Point>)
    ensures forall q :: q in HullFrom(A, B, rest) ==> q == A || q == B || q in rest
    ensures A in HullFrom(A, B, rest) && B in HullFrom(A, B, rest)
    ensures |HullFrom(A, B, rest)| >= 2
  {
    var rightSet := Side(A, B, rest, 1);
    var leftSet := Side(A, B, rest, -1);
    SideMembers(A, B, rest, 1);
    SideMembers(A, B, rest, -1);
    HullSetSpecFrom(A, B, rightSet, [A, B]);
    HullSetSpecFrom(B, A, leftSet, HullSetSpec(A, B, rightSet, [A, B]));
    HullSetSpecGrows(A, B, rightSet, [A, B]);
    HullSetSpecGrows(B, A, leftSet, HullSetSpec(A, B, rightSet, [A, B]));
  }

  /** Removing the extremes as intended takes away exactly those points. */
  lemma RemoveExtremesTakesThem(s: seq<Point>, i: nat, j: nat)
    requires i < |s| && j < |s|
    ensures i == j ==> multiset(RemoveExtremes(s, i, j)) + multiset{s[i]} == multiset(s)
    ensures i != j ==> multiset(RemoveExtremes(s, i, j)) + multiset{s[i], s[j]} == multiset(s)
  {
    if i < j {
      RemoveAtSeqMultiset(s, j);
      RemoveAtSeqShifts(s, j);
      RemoveAtSeqMultiset(RemoveAtSeq(s, j), i);
    } else if j < i {
      RemoveAtSeqMultiset(s, i);
      RemoveAtSeqShifts(s, i);
      RemoveAtSeqMultiset(RemoveAtSeq(s, i), j);
    } else {
      RemoveAtSeqMultiset(s, i);
    }
  }

  /** Every point left after removing the extremes was in the input. */
  lemma RemoveExtremesMembers(s: seq<Point>, i: nat, j: nat)
    requires i < |s| && j < |s|
    ensures forall q :: q in RemoveExtremes(s, i, j) ==> q in s
  {
    if i < j {
      RemoveAtSeqShifts(s, j);
      RemoveAtSeqShifts(RemoveAtSeq(s, j), i);
    } else if j < i {
      RemoveAtSeqShifts(s, i);
      RemoveAtSeqShifts(RemoveAtSeq(s, i), j);
    } else {
      RemoveAtSeqShifts(s, i);
    }
  }

  /** With the rightmost point before the leftmost one, as in the test
      input, the stale positions happen to be right. */
  lemma RemoveBothAgrees(s: seq<Point>, i: nat, j: nat)
    requires j < i < |s|
    ensures RemoveBoth(s, i, j) == RemoveExtremes(s, i, j)
  {
  }

  /** With fewer than three points the result is the input, in order;
      otherwise it holds the leftmost and the rightmost point and every
      point of it comes from the input. */
  lemma QuickHullSpecPoints(src: seq<Point>)
    ensures |src| < 3 ==> QuickHullSpec(src) == src
    ensures |src| >= 3 ==>
      src[FirstMinX(src)] in QuickHullSpec(src) && src[FirstMaxX(src)] in QuickHullSpec(src)
    ensures forall q :: q in QuickHullSpec(src) ==> q in src
  {
    if |src| >= 3 {
      var minPoint, maxPoint := FirstMinX(src), FirstMaxX(src);
      var rest := RemoveExtremes(src, minPoint, maxPoint);
      HullFromPoints(src[minPoint], src[maxPoint], rest);
      RemoveExtremesMembers(src, minPoint, maxPoint);
    }
  }

  /** Against an edge every point of `s` is collinear with, neither side
      collects anything. */
  lemma {:induction false} SideOfCollinearIsEmpty(A: Point, B: Point, s: seq<Point>, side: int)
    requires side != 0
    requires forall q :: q in s ==> Location(A, B, q) == 0
    ensures Side(A, B, s, side) == []
  {
    if |s| > 0 {
      assert s[|s| - 1] in s;
      assert forall q :: q in s[..|s| - 1] ==> q in s;
      SideOfCollinearIsEmpty(A, B, s[..|s| - 1], side);
    }
  }

  /** When every point is collinear with the leftmost and the rightmost
      one, only those two are kept. */
  lemma QuickHullSpecCollinear(src: seq<Point>)
    requires |src| >= 3
    requires forall q :: q in src ==> Location(src[FirstMinX(src)], src[FirstMaxX(src)], q) == 0
    ensures QuickHullSpec(src) == [src[FirstMinX(src)], src[FirstMaxX(src)]]
  {
    var minPoint, maxPoint := FirstMinX(src), FirstMaxX(src);
    var A, B := src[minPoint], src[maxPoint];
    var rest := RemoveExtremes(src, minPoint, maxPoint);
    RemoveExtremesMembers(src, minPoint, maxPoint);
    SideOfCollinearIsEmpty(A, B, rest, 1);
    SideOfCollinearIsEmpty(A, B, rest, -1);
    assert HullSetSpec(A, B, [], [A, B]) == [A, B];
  }

  /** As written, too, the hull holds the leftmost and the rightmost point
      and only input points. */
  lemma QuickHullAsWrittenPoints(src: seq<Point>)
    ensures |src| < 3 ==> QuickHullAsWritten(src) == src
    ensures |src| >= 3 ==>
      src[FirstMinX(src)] in QuickHullAsWritten(src) && src[FirstMaxX(src)] in QuickHullAsWritten(src)
    ensures forall q :: q in QuickHullAsWritten(src) ==> q in src
  {
    if |src| >= 3 {
      var minPoint, maxPoint := FirstMinX(src), FirstMaxX(src);
      HullFromPoints(src[minPoint], src[maxPoint], RemoveBoth(src, minPoint, maxPoint));
    }
  }

  /** When every point has the same x, A and B are both the first point
      and the result is that point twice. */
  lemma QuickHullSpecVertical(src: seq<Point>)
    requires |src| >= 3
    requires forall i :: 0 <= i < |src| ==> src[i].x == src[0].x
    ensures QuickHullSpec(src) == [src[0], src[0]]
  {
    FirstMinXIsFirstMin(src);
    FirstMaxXIsFirstMax(src);
    var rest := RemoveExtremes(src, 0, 0);
    SideOfPointIsEmpty(src[0], rest, 1);
    SideOfPointIsEmpty(src[0], rest, -1);
  }

  /** In the test input (12,32), (45,98), (65,12), (10,30) the leftmost
      point is the last one and the rightmost the third. */
  lemma TestCaseExtremes()
    ensures var src := [Point(12, 32), Point(45, 98), Point(65, 12), Point(10, 30)];
      FirstMinX(src) == 3 && FirstMaxX(src) == 2
  {
    var src := [Point(12, 32), Point(45, 98), Point(65, 12), Point(10, 30)];
    FirstMinXIsFirstMin(src);
    FirstMaxXIsFirstMax(src);
    assert forall j :: 0 <= j < 3 ==> src[3].x < src[j].x;
    assert forall j :: 0 <= j < |src| && j != 2 ==> src[j].x < src[2].x;
  }

  /** Both remaining test points lie at location +1 against
      (10,30)->(65,12), and (45,98) is the farther. */
  lemma TestCaseSplit()
    ensures var A, B := Point(10, 30), Point(65, 12);
      var rest := [Point(12, 32), Point(45, 98)];
      Side(A, B, rest, 1) == rest && Side(A, B, rest, -1) == [] && FarthestIndex(A, B, rest) == 1
  {
  }

  /** Refining (10,30)->(65,12) with the two points puts (45,98) between
      them; (12,32) is then inside and dropped. */
  lemma TestCaseRefine()
    ensures var A, P, B, Q := Point(10, 30), Point(45, 98), Point(65, 12), Point(12, 32);
      HullSetSpec(A, B, [Q, P], [A, B]) == [A, P, B]
  {
    var A, P, B, Q := Point(10, 30), Point(45, 98), Point(65, 12), Point(12, 32);
    TestCaseSplit();
    assert RemoveAtSeq([Q, P], 1) == [Q];
    assert InsertAtSeq([A, B], P, 1) == [A, P, B];
    assert Side(A, P, [Q], 1) == [];
    assert Side(P, B, [Q], 1) == [];
  }

  /** The QuickHull test case: the four points (12,32), (45,98), (65,12),
      (10,30) give the hull (10,30), (45,98), (65,12). */
  lemma QuickHullTestCase()
    ensures QuickHullSpec([Point(12, 32), Point(45, 98), Point(65, 12), Point(10, 30)])
         == [Point(10, 30), Point(45, 98), Point(65, 12)]
  {
    var src := [Point(12, 32), Point(45, 98), Point(65, 12), Point(10, 30)];
    var A, P, B, Q := Point(10, 30), Point(45, 98), Point(65, 12), Point(12, 32);
    TestCaseExtremes();
    TestCaseSplit();
    TestCaseRefine();
    assert RemoveExtremes(src, 3, 2) == [Q, P];
  }

  /** The code as written gives the same hull on the test input, since
      there the rightmost point comes before the leftmost one. */
  lemma QuickHullAsWrittenTestCase()
    ensures QuickHullAsWritten([Point(12, 32), Point(45, 98), Point(65, 12), Point(10, 30)])
         == [Point(10, 30), Point(45, 98), Point(65, 12)]
  {
    var src := [Point(12, 32), Point(45, 98), Point(65, 12), Point(10, 30)];
    TestCaseExtremes();
    RemoveBothAgrees(src, 3, 2);
    QuickHullTestCase();
  }

  /** In the input (0,0), (10,0), (5,5), (5,-5) the leftmost point comes
      first and the rightmost second. */
  lemma CounterexampleExtremes()
    ensures var src := [Point(0, 0), Point(10, 0), Point(5, 5), Point(5, -5)];
      FirstMinX(src) == 0 && FirstMaxX(src) == 1
  {
    var src := [Point(0, 0), Point(10, 0), Point(5, 5), Point(5, -5)];
    FirstMinXIsFirstMin(src);
    FirstMaxXIsFirstMax(src);
    assert forall j :: 0 < j < |src| ==> src[0].x < src[j].x;
    assert forall j :: 0 <= j < |src| && j != 1 ==> src[j].x < src[1].x;
  }

  /** As written, `quickhull` loses a hull vertex when the leftmost point
      comes before the rightmost one: for (0,0), (10,0), (5,5), (5,-5) the
      second removal takes (5,5), which lies left of A->B, instead of B. */
  lemma DoubleRemovalLosesVertex(src: seq<Point>)
    requires src == [Point(0, 0), Point(10, 0), Point(5, 5), Point(5, -5)]
    ensures Location(src[0], src[1], src[2]) == 1
    ensures RemoveBoth(src, FirstMinX(src), FirstMaxX(src)) == [src[1], src[3]]
    ensures QuickHullAsWritten(src) == [src[3], src[0], src[1]]
  {
    CounterexampleVertexIsLeft();
    CounterexampleExtremes();
    CounterexampleRemoval();
    CounterexampleHullFrom();
  }

  /** (5,5) lies left of (0,0)->(10,0), so it belongs on the hull. */
  lemma CounterexampleVertexIsLeft()
    ensures Location(Point(0, 0), Point(10, 0), Point(5, 5)) == 1
  {
    assert Cross(Point(0, 0), Point(10, 0), Point(5, 5)) == 10 * 5 - 0 * 5;
  }

  /** The two removals by stale positions on the counterexample input. */
  lemma CounterexampleRemoval()
    ensures RemoveBoth([Point(0, 0), Point(10, 0), Point(5, 5), Point(5, -5)], 0, 1) == [Point(10, 0), Point(5, -5)]
  {
    var A, B, C, D := Point(0, 0), Point(10, 0), Point(5, 5), Point(5, -5);
    assert RemoveAtSeq([A, B, C, D], 0) == [B, C, D];
    assert RemoveAtSeq([B, C, D], 1) == [B, D];
  }

  /** With B itself and (5,-5) left over, only (5,-5) joins the hull, in
      front of A. */
  lemma CounterexampleHullFrom()
    ensures HullFrom(Point(0, 0), Point(10, 0), [Point(10, 0), Point(5, -5)])
         == [Point(5, -5), Point(0, 0), Point(10, 0)]
  {
    var A, B, D := Point(0, 0), Point(10, 0), Point(5, -5);
    assert Location(A, B, D) == -1;
    SideOfEndpointAndRight(A, B, D);
    CounterexampleLower();
    assert HullSetSpec(A, B, [], [A, B]) == [A, B];
  }

  /** With the edge's own endpoint B and a point D right of the edge,
      only D is collected, on the right. */
  lemma SideOfEndpointAndRight(A: Point, B: Point, D: Point)
    requires Location(A, B, D) == -1
    ensures Side(A, B, [B, D], 1) == [] && Side(A, B, [B, D], -1) == [D]
  {
    LocationAtEndpoints(A, B);
    SideSnoc(A, B, [], B, 1);
    SideSnoc(A, B, [], B, -1);
    SideSnoc(A, B, [B], D, 1);
    SideSnoc(A, B, [B], D, -1);
    assert [B] == [] + [B] && [B, D] == [B] + [D];
  }

  /** Refining (10,0)->(0,0) with (5,-5) alone puts it just before (0,0). */
  lemma CounterexampleLower()
    ensures var A, B, D := Point(0, 0), Point(10, 0), Point(5, -5);
      HullSetSpec(B, A, [D], [A, B]) == [D, A, B]
  {
    var A, B, D := Point(0, 0), Point(10, 0), Point(5, -5);
    assert IndexOfSeq([A, B], A) == 0;
    assert InsertAtSeq([A, B], D, 0) == [D, A, B];
  }

  /** With the removal corrected, the same input keeps (5,5) on the hull. */
  lemma CorrectedRemovalKeepsVertex()
    ensures QuickHullSpec([Point(0, 0), Point(10, 0), Point(5, 5), Point(5, -5)])
         == [Point(5, -5), Point(0, 0), Point(5, 5), Point(10, 0)]
  {
    var A, B, C, D := Point(0, 0), Point(10, 0), Point(5, 5), Point(5, -5);
    var src := [A, B, C, D];
    CounterexampleExtremes();
    assert RemoveExtremes(src, 0, 1) == [C, D];
    assert Side(A, B, [C, D], 1) == [C];
    assert Side(A, B, [C, D], -1) == [D];
    assert InsertAtSeq([A, B], C, 1) == [A, C, B];
    assert InsertAtSeq([A, C, B], D, 0) == [D, A, C, B];
  }
}
