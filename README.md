# QuickHull in Dafny

A model of a small C implementation of the QuickHull convex-hull algorithm.
It has two parts:

- **`polygon.dfy`, module `Polygons`.**
  - Integer points and the two orientation predicates `Point_Location` and `Point_Distance`.
  - The growable point vector `struct Polygon`, modelled as the class `Polygon` over an `array<Point>`.
    Its `capacity`, `size` and `points` fields are updated in place.
    The ghost view `Contents()` is `points[..size]`.
  - Each vector operation (create, size, indexOf, reshape, add, insert-at, pop, remove-at, get) is a method or function.
    - `IndexOf`, `InsertAt` and `RemoveAt` are proved against functions on sequences: `IndexOfSeq`, `InsertAtSeq` and `RemoveAtSeq`.
    - `Create`, `Size`, `Get`, `Reshape`, `Add` and `Pop` state their results and new state directly.
- **`quickhull.dfy`, module `QuickHull`.**
  - The engine: `quickhull` (here `Run`) and its recursive helper `hullSet` (here `HullSet`).
    Both take points out of polygons and insert them into others in place, as the C code does.
    The two departures listed below are the exceptions.
  - Each is proved to leave in the hull exactly what a functional specification computes.
    `HullSetSpec` specifies `hullSet`; `QuickHullSpec` and `HullFrom` specify `quickhull`.
  - Lemmas state what the specifications promise:
    - the first min/max choices;
    - that the sides are split correctly;
    - that the hull only grows and holds only input points;
    - the behaviour when all points share one x coordinate, or all lie on one line;
    - the expected output of the repository's own test.

The C program stops the process (`exit`) on its error paths. The model returns those errors instead:
- `Outcome.Fail(...)` or `Result.Failure(...)`, with the state unchanged.
- The error kinds are `IndexOutOfBounds`, `EmptyPolygon` and `NonEmptyDestination`.

The C bound checks reject only `idx < 0 || idx > size`, and the model keeps that:
- `Get(size)` reads the slot just past the points in use.
- `RemoveAt(size)` on a non-empty polygon drops the last point.

There are two deliberate departures from the code as written. Each is listed under Findings and modelled both ways.
1. **`Polygon_Insert_At`'s shift loop.** It starts one slot too high, and that extra write can land past the buffer.
   - The model (`ShiftUp`) shifts from the old size instead, and proves the slots it writes are `ShiftTargets(size, idx)`, all inside the buffer.
   - The logical contents are the same either way.
2. **`quickhull`'s removal of the two extreme points.** It removes them by positions computed before either removal.
   - The engine (`Seed`, `BuildHull`, `Run`) removes the later position first, so both removals hit the intended points.
   - `QuickHullSpec` is that corrected specification.
   - `QuickHullAsWritten` models the code as written.
   - The two agree whenever the rightmost point comes before the leftmost one, as in the repository's test (`RemoveBothAgrees`).

## Model

| member | source | states |
|---|---|---|
| Polygons.Location | src/polygon.c:30-45 | the orientation is always +1, 0 or -1 (left, collinear, right), as documented in polygon.h:76-84 |
| Polygons.LocationAtEndpoints | src/polygon.c:30-45 | a segment's endpoints are collinear with it: the location is 0 at A and at B |
| Polygons.LocationSwap | src/polygon.c:30-45 | swapping the segment's endpoints flips the sign of the orientation |
| Polygons.Distance | src/polygon.c:17-27 | the distance is never negative |
| Polygons.DistanceIsAbsCross | src/polygon.c:17-27 | the distance is the absolute value of the cross product whose sign `Location` takes, so it is 0 exactly when the point is collinear |
| Polygons.IndexOfSeq | src/polygon.h:105-113 | the result is -1 exactly when the point is absent; otherwise it is a valid index holding the point |
| Polygons.IndexOfSeqIsFirst | src/polygon.c:60-67 | no index below the one found holds the point, so the first match is returned |
| Polygons.RemoveAtSeqShifts | src/polygon.c:128-145 | points before `idx` stay put, later ones move down by one, and with `idx == size` the last point is the one dropped; no new point appears |
| Polygons.RemoveAtSeqMultiset | src/polygon.c:140-144 | removing at a position inside the polygon takes away exactly the point at it |
| Polygons.InsertThenRemove | src/polygon.c:96-115 | after an insertion the point sits at `idx`, the length grows by one, and removing at `idx` gives back the old contents |
| Polygons.ShiftTargets | src/polygon.c:110-112 | the downward loop from `top` to `idx+1` writes exactly the slots `top, top-1, ..., idx+1` |
| Polygons.InsertAtWritesPastBuffer | src/polygon.c:104-112 | as written, when one slot is free the shift loop's first write is to slot `capacity`, past the buffer |
| Polygons.ShiftTargetsInBounds | src/polygon.c:110-112 | a shift started at the old size writes only inside the buffer and above the insertion point |
| Polygons.Polygon.Create | src/polygon.c:48-52 | a new polygon is empty with capacity 16 (`INITIAL_CAP`, polygon.h:19-20) |
| Polygons.Polygon.Size | src/polygon.c:55-57 | the size is the number of points held |
| Polygons.Polygon.Get | src/polygon.c:148-155 | succeeds exactly when `0 <= idx <= size`, returning the point at `idx`; otherwise fails with an index error |
| Polygons.Polygon.IndexOf | src/polygon.c:60-67 | the linear search returns the first index of the point, or -1 exactly when it is absent |
| Polygons.Polygon.Reshape | src/polygon.c:70-83 | capacity is multiplied by 2 (`GROWTH_RATE`, polygon.h:21-22); every old slot, and so every point, is kept |
| Polygons.Polygon.Add | src/polygon.c:86-93 | the contents become the old contents plus the new point; capacity doubles only when the polygon was full |
| Polygons.Polygon.ShiftUp | src/polygon.c:110-112 | the shift loop, started at the old size: the points at `idx .. size-1` move up one slot, nothing else changes, and the slots it writes are exactly `ShiftTargets(size, idx)`, all inside the buffer |
| Polygons.Polygon.Place | src/polygon.c:108-114 | with a free slot, one more point is in use and the contents become the old ones with `a` at `idx` |
| Polygons.Polygon.InsertAt | src/polygon.c:96-115 | succeeds exactly when `0 <= idx <= size`, then the contents are the old ones with the point at `idx`; capacity doubles only when full; on an index error nothing changes |
| Polygons.Polygon.Pop | src/polygon.c:118-125 | fails on an empty polygon; otherwise drops only the last point and leaves the buffer and capacity alone |
| Polygons.Polygon.RemoveAt | src/polygon.c:128-145 | an index error when `idx < 0 \|\| idx > size`; otherwise an empty-polygon error when size is 0; otherwise the point at `idx` (the last one when `idx == size`) is removed; on error nothing changes |
| QuickHull.SideMembers | src/quickhull.c:60-76 | a point is collected for a side exactly when it is in the set and has that location |
| QuickHull.FarthestIndexIsFirstMax | src/quickhull.c:39-50 | the chosen point is at maximal distance and every earlier point is strictly nearer |
| QuickHull.FirstMinXIsFirstMin | src/quickhull.c:116-131 | the chosen leftmost point has the least x and every earlier point has a larger x |
| QuickHull.FirstMaxXIsFirstMax | src/quickhull.c:116-131 | the chosen rightmost point has the greatest x and every earlier point has a smaller x |
| QuickHull.Farthest | src/quickhull.c:39-50 | the scan returns the first index of a point farthest from AB |
| QuickHull.LeftOf | src/quickhull.c:56-76 | a fresh polygon holding, in order, exactly the points strictly left of the edge |
| QuickHull.MoveToHull | src/quickhull.c:52-54 | the point at `k` leaves the set and is inserted into the hull at `insertPosition` |
| QuickHull.HullSet | src/quickhull.c:24-80 | the hull becomes `HullSetSpec` of the old set and hull; an empty set leaves everything unchanged; otherwise the set loses its farthest point |
| QuickHull.MoveSole | src/quickhull.c:32-37 | a set's single point moves into the hull at the position B had on entry |
| QuickHull.Pivot | src/quickhull.c:39-76 | the farthest point moves in before B and two fresh sets hold the remaining points left of AP and left of PB |
| QuickHull.HullBothSides | src/quickhull.c:78-79 | the hull becomes AP refined with its set, then PB refined with its set |
| QuickHull.HullSetSpecOnePoint | src/quickhull.c:32-37 | a single point is inserted immediately before B, everything else keeping its place |
| QuickHull.HullSetSpecGrows | src/quickhull.c:27-79 | the hull never shrinks, and grows strictly when the set is not empty |
| QuickHull.HullSetSpecFrom | src/quickhull.c:27-79 | every hull point was already in the hull or came from the set |
| QuickHull.LeftSetIsLeftOfReverse | src/quickhull.c:160-173 | the points at location -1 against A->B are exactly those at +1 against B->A, so `hullSet(B, A, leftSet, ...)` gets points left of its edge |
| QuickHull.SideOfPointIsEmpty | src/quickhull.c:160-169 | against an edge from a point to itself, no point is on either side |
| QuickHull.RemoveBoth | src/quickhull.c:142-144 | the removal as written, by two positions taken before either removal: two points fewer, and every remaining point was in the input |
| QuickHull.QuickHullAsWrittenPoints | src/quickhull.c:99-176 | of `QuickHullAsWritten`, `quickhull` as written: fewer than three points are copied as they are; otherwise the result holds the leftmost and the rightmost point; it holds only input points |
| QuickHull.QuickHullAsWrittenTestCase | src/quickhull.c:188-221 | the code as written also gives (10,30), (45,98), (65,12) on the test input |
| QuickHull.Extremes | src/quickhull.c:116-131 | the scan returns the first leftmost and the first rightmost index |
| QuickHull.Partition | src/quickhull.c:154-169 | two fresh polygons hold, in order, the points right of A->B (`leftSet`) and left of it (`rightSet`); collinear points go to neither |
| QuickHull.Run | src/quickhull.c:99-176 | refuses a non-empty `dest` with nothing changed; otherwise `dest` becomes `QuickHullSpec` of the old `src`, and with three or more points `src` loses its leftmost and rightmost point, once when they are the same position |
| QuickHull.CopyAll | src/quickhull.c:106-113 | `dest` becomes an in-order copy of `src` |
| QuickHull.Seed | src/quickhull.c:133-144 | `dest` becomes exactly `[A, B]` with A the first leftmost and B the first rightmost point; `src` then loses its leftmost and rightmost point, once when they are the same position, removed as intended (`RemoveExtremes`) rather than by the stale positions of lines 143-144 |
| QuickHull.BuildHull | src/quickhull.c:115-174 | `dest` becomes `QuickHullSpec` of the old `src` |
| QuickHull.RemoveExtremesTakesThem | src/quickhull.c:142-144 | removing the extremes takes away exactly the leftmost and rightmost points (once when they coincide) |
| QuickHull.RemoveExtremesMembers | src/quickhull.c:142-144 | every point left after the removal was in the input |
| QuickHull.RemoveBothAgrees | src/quickhull.c:142-144 | when the rightmost point comes before the leftmost one, the removal as written equals the intended one |
| QuickHull.HullFromPoints | src/quickhull.c:139-173 | the hull contains A and B, has at least two points, and every point is A, B or a remaining input point |
| QuickHull.QuickHullSpecPoints | src/quickhull.c:99-176 | fewer than three points are copied as they are; otherwise the hull holds both extremes and only input points |
| QuickHull.SideOfCollinearIsEmpty | src/quickhull.c:160-169 | when every point is collinear with the edge, neither side collects anything |
| QuickHull.QuickHullSpecCollinear | src/quickhull.c:116-173 | when every point is collinear with the leftmost and the rightmost one, the result is exactly those two points |
| QuickHull.QuickHullSpecVertical | src/quickhull.c:116-173 | when all x are equal the result is the first point twice |
| QuickHull.TestCaseExtremes | src/quickhull.c:195-198 | in the test input the leftmost point is the fourth and the rightmost the third |
| QuickHull.TestCaseSplit | src/quickhull.c:195-198 | both remaining test points are at location +1 against (10,30)->(65,12), none at -1, and (45,98) is the farther |
| QuickHull.TestCaseRefine | src/quickhull.c:195-198 | refining (10,30)->(65,12) with the remaining points puts (45,98) between them and drops (12,32) |
| QuickHull.QuickHullTestCase | src/quickhull.c:188-221 | the test input (12,32), (45,98), (65,12), (10,30) gives exactly (10,30), (45,98), (65,12) |
| QuickHull.CounterexampleExtremes | src/quickhull.c:116-131 | for (0,0), (10,0), (5,5), (5,-5) the leftmost point is first and the rightmost second |
| QuickHull.DoubleRemovalLosesVertex | src/quickhull.c:142-144 | as written, for `src` = (0,0), (10,0), (5,5), (5,-5): (5,5) is left of A->B, yet the removals leave (10,0), (5,-5) and the hull comes out as (5,-5), (0,0), (10,0) |
| QuickHull.CounterexampleHullFrom | src/quickhull.c:160-173 | with B itself and (5,-5) left over, only (5,-5) joins the hull, in front of A |
| QuickHull.CorrectedRemovalKeepsVertex | src/quickhull.c:142-144 | with the corrected removal the same input gives (5,-5), (0,0), (5,5), (10,0) |

## Left out

- C `int` arithmetic: coordinates and cross products are unbounded integers, so overflow in `Point_Distance` and `Point_Location` (polygon.c:19-21, 32) is not modelled.
- The `INT_MAX` / `INT_MIN` sentinels of the extreme-point scan are modelled as "no point seen yet". With every x equal to `INT_MAX` the C code keeps `minPoint == -1`, and with every x equal to `INT_MIN` it keeps `maxPoint == -1` (quickhull.c:118-119, 123, 127). The model cannot express either, since integers are unbounded.
- Polygons.Polygon.Size: the `size_t` to `int` conversion is the identity here; sizes above `INT_MAX` are not modelled.
- Allocation failure in `Polygon_Create` and `Polygon_Reshape`: `malloc` / `realloc` is taken always to succeed, so the error exit at polygon.c:79-82 is left out.
- Polygons.Polygon.Get: reading at `idx == size` when the polygon is full reads outside the buffer in C; the model requires a free slot in that case.
- Polygons.Polygon.InsertAt: does not perform the C loop's extra write at the new size (see Findings); the contents it produces are the same.
- QuickHull.Run: removes the extreme points as intended rather than as written (see Findings); `QuickHull.QuickHullAsWritten` is the code as written.
- QuickHull.Run: requires `src` and `dest` to be different polygons. The aliased call `quickhull(&P, &P)` is not modelled. In C it fails with the non-empty-destination error when P holds points, and does nothing when P is empty.
- QuickHull.Seed: removes the two extremes as intended, the later position first and a shared position once, rather than by the stale positions of quickhull.c:143-144. As written, with `minPoint < maxPoint < size - 1` the C code removes the point after B and keeps B. With all x equal it removes `src[0]` and `src[1]`. `QuickHull.RemoveBoth` is the removal as written.
- QuickHull.BuildHull: `dest` becomes `QuickHullSpec`, which uses the corrected removal, rather than the C result. The two agree when the rightmost point comes before the leftmost one (`QuickHull.RemoveBothAgrees`). `QuickHull.QuickHullAsWritten` is the C result.
- `Polygon_Print`, `main` and the `printf` calls of `QuickHull_Test`: console output. The test's input and expected output are the lemma `QuickHullTestCase`.
- The `printf` + `exit` error paths are error results, not process termination.
- The temporary polygons are never freed in C; the leaks are not observable under garbage collection.
- The geometric theorem that every input point lies inside the returned polygon is not stated. The model proves membership, growth, side and extreme-point properties only.
- Idempotence is not stated: that running the hull on its own output returns the same points would need that geometric theorem.

## Findings

| source | as written | input that shows it | evidently intended | confidence | as-written member | corrected member |
|---|---|---|---|---|---|---|
| src/polygon.c:108-112 | `size` is incremented before the shift loop, so the loop starts at the new size and writes `points[new size]` | a polygon with `size == capacity - 1` (e.g. 15 points in 16 slots), any `0 <= idx <= size`: no reshape, first write to `points[16]` | shift from the old size down to `idx + 1`, staying inside the buffer | not executed | Polygons.InsertAtWritesPastBuffer | Polygons.Polygon.ShiftUp |
| src/quickhull.c:143-144 | removes `minPoint` and then `maxPoint`, both positions computed before the first removal | (0,0), (10,0), (5,5), (5,-5): the second removal takes (5,5) instead of (10,0), and the hull is (5,-5), (0,0), (10,0) | remove the two extremes themselves, and the hull is (5,-5), (0,0), (5,5), (10,0) | not executed | QuickHull.DoubleRemovalLosesVertex | QuickHull.CorrectedRemovalKeepsVertex |
