# charade: geometry and touch tables in Dafny

This project models the computational core of charade, an X11 touch-gesture
experiment, in Dafny. It covers three pieces.

- **Geometry** (`geometry.dfy`, `hull.dfy`). These are the planar point-set routines of
  `geometry.c`: the centroid, the bounding-box center, the vector primitives, the
  strict right-turn test, the x-comparator used to sort, the monotone-chain convex
  hull, and the box built from a hull's local extremes.
- **Dense touch table** (`charade.dfy`). This is the table of `charade.c`: parallel id and
  point arrays whose first `touches` entries are live. A touch is appended at the
  end and removed by moving the last live entry into the hole. Events begin,
  update and end touches.
- **Slot touch table** (`gesture.dfy`). This is the table of `gesture.c`: a fixed array of
  slots where id -1 marks a free slot. It includes the centroid and the
  sentinel-bounded bounding-box center over the live slots.

`events.dfy` holds the abstract XInput event that both tables react to. It also holds
`Step`, the outcome of handling an event: either the next table, or `Abort`
when one of the source's `assert` calls would fail.

The C `double` coordinates are modelled as `real`. Arrays are modelled as sequences, and the
routines as pure functions or as methods whose loops mirror the C loops.
Each method is proved equal to a reference definition, and the properties
are lemmas about those definitions. The geometry and gesture methods match
`SumCoord`, `MinCoord`, `CentroidOf`, `BboxCenterOf`, `ScanResult` and
`LivePoints`. `Hull.BuildChain` matches `ChainOf`, the pruning pass written as a
recursive function. `Hull.JoinedChains` and `Hull.ConvexHull` match `HullOf`, the
two passes joined. The chain and outline properties (`IsChainOver`,
`IsHullOutline`, `EdgesBound`) are proved about `ChainOf` and `HullOf`. On their
own they describe a shape that other point lists also have; the equality with
the reference definition is what pins the result down.

The model follows what the code does, including where that differs from what its names suggest:

- `points_oriented_bbox` does not run rotating calipers. It picks the last local
  minimum and maximum on each axis, in cyclic order, and emits an axis-aligned
  4-corner box.
- The hull is ordered with the source's `right_turn` sign convention
  (`cross(p,q)+cross(q,r)+cross(r,p) > 0`). The upper chain is followed by the
  interior of the lower chain. The two alternative formulas left in comments under
  `right_turn` (geometry.c:267-269) are the negation of that sum, so they would test
  the opposite turn. The model follows the live code.

## Model

| member | source | states |
|---|---|---|
| Geometry.Sub | geometry.c:101-104 | adding `q` back to `p - q` gives `p` |
| Geometry.Perp | geometry.c:76-79 | the perpendicular is orthogonal to `p` and has the same squared length |
| Geometry.Cross | geometry.c:93-96 | `point_cross(p,q)` (the dot product of `p` with `perp(q)`) equals `p.y*q.x - p.x*q.y` |
| Geometry.CrossAntisymmetric | geometry.c:84-96 | `cross(p,q) == -cross(q,p)` and `cross(p,p) == 0` |
| Geometry.DotSelf | geometry.c:84-87 | `point_dot` of a point with itself is never negative, and the dot product is symmetric |
| Geometry.RightTurn | geometry.c:263-266 | a strict right turn needs three pairwise distinct points |
| Geometry.RightTurnClosed | geometry.c:263-266 | the three-term sum is positive exactly when `(q.y-p.y)*(r.x-p.x) - (q.x-p.x)*(r.y-p.y)` is; this is the negation of the form left in a comment at geometry.c:269, so the commented-out form tests the opposite turn from the code |
| Geometry.RightTurnOfEdges | geometry.c:263-271 | the three-term sum of `right_turn` is positive exactly when the cross product of the edge vectors `q-p` and `r-p` is positive |
| Geometry.RightTurnStrict | geometry.c:263-271 | a collinear triple, or one with a repeated point, is never a right turn |
| Geometry.RightTurnRotateReverse | geometry.c:263-271 | rotating a triple keeps the turn; a right-turning triple read backwards is not a right turn |
| Geometry.MinCoordIsLeast | geometry.c:56-70 | the left-to-right strict-`<` minimum fold is a lower bound of every coordinate and is attained by some point |
| Geometry.MaxCoordIsGreatest | geometry.c:56-70 | the strict-`>` maximum fold is an upper bound of every coordinate and is attained by some point |
| Geometry.Centroid | geometry.c:27-41 | for 1 <= n, the result times n is the coordinate sum of the first n points; that is, the result is their mean |
| Geometry.BboxCenter | geometry.c:46-71 | the origin when n < 1; otherwise the midpoint of the attained minimum and maximum of each axis over the first n points |
| Geometry.SumCoordBounds | geometry.c:33-40 | a sum of values within [lo, hi] lies within [count*lo, count*hi] |
| Geometry.MeanBounds | geometry.c:33-40 | the mean of values within [lo, hi] lies within [lo, hi] |
| Geometry.CentroidWithinBounds | geometry.c:27-41 | the centroid lies between the minimum and maximum coordinate on each axis |
| Geometry.CentroidSingle | geometry.c:27-41 | the centroid of a single point is that point |
| Geometry.BboxCenterWithinBounds | geometry.c:56-70 | the bounding-box center lies between the minimum and maximum on each axis |
| Geometry.BboxCenterSingle | geometry.c:56-70 | the bounding-box center of a single point is that point |
| Hull.CompareX | geometry.c:253-261 | the comparator is negative, zero or positive exactly when `p.x` is less than, equal to or greater than `q.x` |
| Hull.CompareXPreorder | geometry.c:253-261 | the comparator is reflexive, antisymmetric in sign and transitive, so qsort's ordering is well defined up to ties |
| Hull.InsertByX | geometry.c:288-291 | inserting into an x-sorted sequence keeps it sorted and adds exactly that point to the multiset |
| Hull.SortByX | geometry.c:288-291 | every point array has an x-sorted permutation, so the sorted copy the hull needs always exists |
| Hull.CompareXY | geometry.c:253-261 | the corrected comparator: it agrees with `points_compare_x` whenever the x coordinates differ, orders equal x by y, and returns 0 exactly for equal points |
| Hull.LexCopyIsXCopy | geometry.c:288-291 | a copy sorted by (x, y) is one of the x-sorted copies qsort with `points_compare_x` may produce |
| Hull.BuildChain | geometry.c:293-307 | the push-and-pop pass equals the recursive reference chain; it has at least two points, runs from the first to the last input point, is a subsequence of the input, and every three consecutive points make a strict right turn; over points in (x, y) order no input point lies strictly outside a chain edge whose end points span it |
| Hull.ChainOfFacts | geometry.c:300-323 | the reference chain of any pass is a strict right-turning subsequence from the first to the last point; for points in (x, y) order, either direction, no point lies outside the edge that spans it |
| Hull.ReverseLexSorted | geometry.c:316-323 | the lower pass, which reads the sorted points backwards, sees them in descending (x, y) order |
| Hull.JoinedChains | geometry.c:293-334 | both passes and the join: the result is the upper chain followed by the lower chain without its end points, its length is `ui + li - 2`, it is a hull outline, and with (x, y) order no sorted point lies outside the outline edge that spans it and the length is at most the number of sorted points |
| Hull.JoinBound | geometry.c:325-328 | joining two bounded chains bounds every edge of the outline, the closing edge from the last lower point back to the first point included |
| Hull.ConvexStep | geometry.c:263-266 | for four points in (x, y) order, if the first three and the last three turn right, then so do the first, second and fourth, and the first, third and fourth |
| Hull.ChainConvex | geometry.c:300-323 | a chain in (x, y) order, either direction, that turns right at every interior point is convex: every three of its points, taken in order, turn right |
| Hull.InteriorPositions | geometry.c:300-323 | the interior points of a pass's chain sit at distinct interior positions of the sorted points, each strictly left of the chord from the first to the last point the pass reads |
| Hull.HullLength | geometry.c:325-334 | with points in (x, y) order the two passes keep disjoint interior positions, one chain's left of the chord and the other's right of it, so the joined hull has at most as many points as the input |
| Hull.TransferBound | geometry.c:288-291 | a bound over the sorted copy carries over to the input it permutes |
| Hull.ConvexHull | geometry.c:277-335 | returns -1 for n < 0, an empty hull for 0, `[pts[0]]` for 1; for n >= 2 the hull equals the joined chains of the sorted copy and is an outline of at least 2 points; the count is the hull length; every hull point is an input point and the first has the least x; with a copy in (x, y) order no sorted point lies outside the edge that spans it, and the count is at most n |
| Hull.ConvexHullByXY | geometry.c:277-335 | with the sort corrected to break equal x by y: -1 and an empty hull for n < 0, an empty hull for 0, `[pts[0]]` for 1, and for n >= 2 the joined chains of the sorted copy, an outline; for every n >= 0 the count is the hull length and at most n, and no input point lies strictly outside the hull edge whose end points span it; every hull point is an input point and the first has the least x |
| Hull.TiedXDropsPoint | geometry.c:253-261 | the sorted order `[(0,0),(0,2),(0,1),(1,1)]` is one qsort with `points_compare_x` may return; both passes pop (0,2), the hull is `[(0,0),(0,1),(1,1)]`, and (0,2) lies strictly outside its edge from (0,1) to (1,1) |
| Hull.OutlineOfChains | geometry.c:309-334 | the upper chain followed by `llower[1..li-2]` is an outline whose closing chain runs over the reversed sorted order |
| Hull.OutlineMembers | geometry.c:325-328 | an outline starts at the first sorted point and consists of sorted points |
| Hull.OutlineFromInput | geometry.c:288-291 | with a sorted copy of the input, every outline point is an input point and the first has the least x of the input |
| Hull.ChainXMonotone | geometry.c:300-307 | a chain over x-sorted points never steps left |
| Hull.ReverseChainXAntitone | geometry.c:316-323 | a chain over the reversed sorted points never steps right |
| Hull.HullXProfile | geometry.c:325-334 | the hull climbs in x to a point of greatest x and then descends, starting at a point of least x |
| Hull.EndsAreExtremes | geometry.c:293-307 | the upper chain starts at a least-x point and ends at a greatest-x point |
| Hull.LocalExtremeExists | geometry.c:348-359 | every cyclic list has a local minimum and a local maximum on each axis |
| Hull.ScanResultSpec | geometry.c:347-359 | after i steps the scan holds the last local extreme met so far, or its initial 0 |
| Hull.LastExtremeFound | geometry.c:347-359 | after the whole list the scan holds the last local extreme on the axis |
| Hull.OrientedBbox | geometry.c:342-365 | l, r, b, t are the last local x-min, x-max, y-min and y-max vertices; the four corners are axis-aligned with x from `hull[l]`/`hull[r]` and y from `hull[t]`/`hull[b]` |
| Hull.ScanNonConvex | geometry.c:347-359 | on the non-convex list `[(0,0),(5,5),(3,0),(5,-5)]` the only last local x-minimum is vertex 2, while vertex 0 lies further left, so the box does not enclose the list |
| Charade.FindFrom | charade.c:311-315 | the scan from i returns the first live position at or after i holding the id, or -1 when there is none |
| Charade.TouchIndex | charade.c:309-316 | returns -1 exactly when the id is not among the live ids; otherwise the first live position holding it |
| Charade.AddTouch | charade.c:321-332 | requires a free slot; the new id and point go at the old count, the count grows by one and no other entry changes |
| Charade.RemoveTouch | charade.c:337-346 | the count drops by one; a removed entry below the new count is replaced by the former last id and point; nothing else changes |
| Charade.UpdateTouch | charade.c:351-357 | only the point at the index changes; ids and the count stay |
| Charade.HandleEvent | charade.c:362-405 | TouchBegin aborts exactly when the table is full and otherwise appends the touch; TouchEnd and TouchUpdate abort exactly when the id is not live, and otherwise remove that pair from the live multiset or rewrite its point; other events change nothing; the count stays within the arrays |
| Charade.AddPreservesLive | charade.c:321-332 | adding appends exactly one live pair to the live sequence |
| Charade.AddThenFind | charade.c:309-332 | after adding an id, get_touch_index finds it at a position no later than the old count |
| Charade.RemoveKeepsOthers | charade.c:337-346 | removal keeps the multiset of live (id, point) pairs, minus exactly the removed pair |
| Charade.RemoveForgetsId | charade.c:337-346 | with distinct live ids, a removed id is no longer found and the ids stay distinct |
| Charade.AddKeepsDistinct | charade.c:321-332 | adding an id not yet live keeps the live ids distinct |
| Charade.UpdateKeepsIndices | charade.c:351-357 | after an update every id is found at the same position as before |
| Gesture.InitSlots | gesture.c:57-67 | after the init loop every slot is (-1, 0, 0) and no slot is live |
| Gesture.NoneLive | gesture.c:65-67 | slots without a non-negative id contribute no live point |
| Gesture.FindFrom | gesture.c:336-340 | the scan from i returns the first slot at or after i holding the id, or -1 when there is none |
| Gesture.SlotIndex | gesture.c:334-341 | returns -1 exactly when no slot holds the id; otherwise the first slot that does, so -1 finds the first free slot |
| Gesture.AddTouch | gesture.c:346-357 | requires a free slot; the first free slot gets the id and position, and every other slot is unchanged |
| Gesture.RemoveTouch | gesture.c:363-366 | only the slot's id becomes -1; its position and every other slot stay |
| Gesture.HandleEvent | gesture.c:371-414 | TouchBegin aborts exactly when no slot is free, and otherwise writes (detail, x, y) into the first free slot and leaves every other slot alone; TouchEnd and TouchUpdate abort exactly when no slot holds the id; TouchEnd sets only that slot's id to -1 and keeps its position, after which the id is found only in a later slot, if at all; TouchUpdate rewrites only that slot's position and keeps all ids and the live count; live ids change the count by +1 on begin and -1 on end; other events change nothing |
| Gesture.LiveCountUpdate | gesture.c:354-365 | overwriting one slot changes the live count by the change in that slot's liveness |
| Gesture.AddCountsOne | gesture.c:346-357 | adding a touch with a non-negative id adds one live slot; a negative id adds none |
| Gesture.RemoveCountsOne | gesture.c:363-366 | freeing a live slot removes one live slot |
| Gesture.AddThenFind | gesture.c:334-357 | after adding an id, get_touch_index finds it no later than the slot it was put in |
| Gesture.RemoveForgetsSlot | gesture.c:363-366 | after freeing the first slot with a live id, that id is found only in a later slot, if at all |
| Gesture.GetCentroid | gesture.c:236-252 | with a live slot, the result is the centroid of the live slots' positions; free slots are ignored |
| Gesture.GetBboxCenter | gesture.c:258-281 | the result is the midpoint of the live extremes widened by the starting bounds 9999999 and 0 |
| Gesture.SentinelEmpty | gesture.c:263-280 | with no live slot the result is (4999999.5, 4999999.5) |
| Gesture.SentinelInRange | gesture.c:263-280 | when every coordinate lies in [0, 9999999] the sentinels never win and the result is the plain bounding-box center |
| Gesture.SentinelBelowRange | gesture.c:263-280 | when every live coordinate is negative, the starting maxima 0 win, so the result is half the minimum on each axis, which differs from the plain bounding-box center |
| Gesture.SentinelAboveRange | gesture.c:263-280 | when every live coordinate exceeds 9999999, the starting minima 9999999 win, so the result is the midpoint of 9999999 and the maximum on each axis, which differs from the plain bounding-box center |
| Gesture.BboxMatchesGeometry | gesture.c:258-281 | for live slots within [0, 9999999], get_bbox_center agrees with points_bbox_center over the live positions |

## Left out

- The X11, XInput and Xft plumbing is not modelled. This covers device discovery, grabs, windows, drawing, the event loop and
  `main`, all of which are foreign calls and I/O. `handle_xi_event` is modelled only as a table transition
  on an abstract event (type, touch id, coordinates). Raising the window and accepting the touch are not modelled.
- The smallest-enclosing-circle code (`points_enclosing_center` and the `circle_*` helpers) is not modelled. It relies on
  `sqrt` and on exact floating-point equality.
- `point_distance` and `point_unit` are not modelled; both rely on `sqrt`.
- `polygon_area` is not modelled: it is declared in geometry.h, but no body exists in the source files.
- `qsort` itself is not modelled. The sorted copy is a parameter of `Hull.ConvexHull`, constrained to be an x-sorted permutation
  of the input. `Hull.SortByX` shows that one always exists. The order of points with equal x is left open, as
  qsort does not fix it.
- `malloc`, `calloc` and `free`, and the asserts on their results, are not modelled. IEEE rounding is not modelled either:
  doubles are reals, so sums and quotients are exact.
- The division by the live count at gesture.c:326 is display-only and is not modelled.
- The centroid call at charade.c:294 passes three arguments, which does not match the two-argument `points_centroid` of
  geometry.c. It is part of drawing and is not modelled; `Geometry.Centroid` follows geometry.c.
- Geometry.Centroid: requires n >= 1, because the source divides by n without a guard.
- Gesture.GetCentroid: requires at least one live slot, because the source divides by the live count without a guard.
  Its only caller returns early when no touch is live.
- Hull.ConvexHull: does not state that the hull encloses the input for every sorted copy, because that is false: with
  `points_compare_x` qsort may leave equal-x points in an order that makes both passes pop an extreme point (see
  `Hull.TiedXDropsPoint` under Findings). The enclosure is proved for the (x, y) order, in `Hull.ConvexHullByXY`.
  The bound `count <= n` is likewise proved only for the (x, y) order (`Hull.HullLength`). Its proof rests on each chain
  being convex, which needs the points in (x, y) order. With equal-x points in another order a chain need not be convex,
  and no proof of the bound for that case is attempted.
- Hull.ConvexHullByXY: states enclosure edge by edge, for the input points an edge spans in the (x, y) order. That a point
  lies inside the whole polygon is not stated.
- Hull.OrientedBbox: requires 1 <= n, because the source reads `hull[0]` even for n == 0. It does not state that the box
  encloses the list, because the scan keeps the last local extreme, not the global one, and on a non-convex list those
  differ (see `Hull.ScanNonConvex`). For a convex hull the enclosure would need a convexity argument not modelled here.
- Charade.HandleEvent: the return value 1 for a failing `add_touch` cannot occur, because `add_touch` always returns 0, so it
  is not modelled.

## Findings

| source | as written | input that shows it | evidently intended | confidence | as-written member | corrected member |
|---|---|---|---|---|---|---|
| geometry.c:253-261, 291 | `points_compare_x` orders by x alone, so qsort may leave points of equal x in any order, and a pass can then pop an extreme point as the middle of a straight triple | input `[(0,0),(0,2),(0,1),(1,1)]`, which is already in x order: the hull is `[(0,0),(0,1),(1,1)]`, and (0,2) lies strictly outside its edge from (0,1) to (1,1) | break ties by y, as the monotone-chain algorithm assumes; then no input point lies outside the hull edge that spans it | high, not executed | Hull.TiedXDropsPoint | Hull.ConvexHullByXY |
