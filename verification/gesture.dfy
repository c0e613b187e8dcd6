/**
 The slot touch table of gesture.c: a fixed array of `ntouches` slots, each an
 id and a position. An id of -1 marks a free slot; the aggregates look only at
 slots with a non-negative id.
 */
module Gesture {
  import opened Geometry
  import opened TouchEvents

  datatype Slot = Slot(id: int, x: real, y: real)

  /** The id that marks an unused slot. */
  const FREE: int := -1

  /** The starting bounds of get_bbox_center. */
  const SENTINEL_MIN: real := 9999999.0
  const SENTINEL_MAX: real := 0.0

  predicate IsLive(s: Slot)
  {
    s.id >= 0
  }

  /** The positions of the live slots, in slot order. */
  function LivePoints(s: seq<Slot>): seq<Point>
  {
    if |s| == 0 then []
    else
      var last := s[|s| - 1];
      LivePoints(s[..|s| - 1]) + (if IsLive(last) then [Point(last.x, last.y)] else [])
  }

  function LiveCount(s: seq<Slot>): nat
  {
    |LivePoints(s)|
  }

  predicate HasId(s: seq<Slot>, id: int)
  {
    exists j :: 0 <= j < |s| && s[j].id == id
  }

  // ---------------------------------------------------------------------
  // init_touch_device, the slot part
  // ---------------------------------------------------------------------

  /** The slot loop of init_touch_device: the array comes zeroed from calloc and
      every id is then set to FREE. */
  method InitSlots(ntouches: nat) returns (s: seq<Slot>)
    ensures |s| == ntouches
    ensures forall i :: 0 <= i < ntouches ==> s[i] == Slot(FREE, 0.0, 0.0)
    ensures LiveCount(s) == 0
  {
    s := seq(ntouches, _ => Slot(0, 0.0, 0.0));
    var i := 0;
    while i < ntouches
      invariant 0 <= i <= ntouches && |s| == ntouches
      invariant forall j :: 0 <= j < i ==> s[j] == Slot(FREE, 0.0, 0.0)
      invariant forall j :: i <= j < ntouches ==> s[j] == Slot(0, 0.0, 0.0)
    {
      s := s[i := s[i].(id := FREE)];
      i := i + 1;
    }
    NoneLive(s);
  }

  lemma {:induction false} NoneLive(s: seq<Slot>)
    requires forall i :: 0 <= i < |s| ==> !IsLive(s[i])
    ensures LivePoints(s) == []
  {
    if |s| > 0 {
      NoneLive(s[..|s| - 1]);
    }
  }

  // ---------------------------------------------------------------------
  // get_touch_index
  // ---------------------------------------------------------------------

  /** The scan of get_touch_index from slot i on. */
  function FindFrom(s: seq<Slot>, id: int, i: int): (r: int)
    requires 0 <= i <= |s|
    ensures r == -1 || (i <= r < |s| && s[r].id == id)
    ensures r == -1 <==> forall j :: i <= j < |s| ==> s[j].id != id
    ensures r != -1 ==> forall j :: i <= j < r ==> s[j].id != id
    decreases |s| - i
  {
    if i == |s| then -1
    else if s[i].id == id then i
    else FindFrom(s, id, i + 1)
  }

  /** get_touch_index: the first slot holding `id`, free or not, or -1. With
      FREE it finds the first free slot. */
  function SlotIndex(s: seq<Slot>, id: int): (r: int)
    ensures r == -1 <==> !HasId(s, id)
    ensures r != -1 ==> 0 <= r < |s| && s[r].id == id && forall j :: 0 <= j < r ==> s[j].id != id
  {
    FindFrom(s, id, 0)
  }

  // ---------------------------------------------------------------------
  // add_touch, remove_touch
  // ---------------------------------------------------------------------

  /** add_touch: the source asserts that a free slot exists and fills the first one. */
  function AddTouch(s: seq<Slot>, id: int, x: real, y: real): (s': seq<Slot>)
    requires HasId(s, FREE)
    ensures |s'| == |s|
    ensures var k := SlotIndex(s, FREE);
      && (forall j :: 0 <= j < k ==> s[j].id != FREE)
      && s[k].id == FREE
      && s'[k] == Slot(id, x, y)
      && (forall j :: 0 <= j < |s| && j != k ==> s'[j] == s[j])
  {
    var k := SlotIndex(s, FREE);
    s[k := Slot(id, x, y)]
  }

  /** remove_touch: frees the slot and keeps its stale position. */
  function RemoveTouch(s: seq<Slot>, idx: int): (s': seq<Slot>)
    requires 0 <= idx < |s|
    ensures |s'| == |s|
    ensures s'[idx].id == FREE && s'[idx].x == s[idx].x && s'[idx].y == s[idx].y
    ensures forall j :: 0 <= j < |s| && j != idx ==> s'[j] == s[j]
  {
    s[idx := s[idx].(id := FREE)]
  }

  // ---------------------------------------------------------------------
  // handle_xi_event, the table part
  // ---------------------------------------------------------------------

  /** The slot transition of handle_xi_event. A failed `assert` (no free slot on
      TouchBegin, an unknown id on TouchEnd or TouchUpdate) is an Abort; any other
      event type leaves the slots alone. */
  function HandleEvent(s: seq<Slot>, ev: Event): (r: Step<seq<Slot>>)
    ensures r.Next? ==> |r.table| == |s|
    ensures ev.evtype.TouchBegin? ==>
      (r.Abort? <==> !HasId(s, FREE))
      && (r.Next? ==> var k := SlotIndex(s, FREE);
            && r.table[k] == Slot(ev.detail, ev.x, ev.y)
            && (forall j :: 0 <= j < |s| && j != k ==> r.table[j] == s[j]))
      && (r.Next? && ev.detail >= 0 ==> LiveCount(r.table) == LiveCount(s) + 1)
    ensures ev.evtype.TouchEnd? ==>
      (r.Abort? <==> !HasId(s, ev.detail))
      && (r.Next? ==> var k := SlotIndex(s, ev.detail);
            && r.table[k] == s[k].(id := FREE)
            && (forall j :: 0 <= j < |s| && j != k ==> r.table[j] == s[j]))
      && (r.Next? ==> !HasId(r.table, ev.detail) || ev.detail == FREE || SlotIndex(r.table, ev.detail) > SlotIndex(s, ev.detail))
      && (r.Next? && ev.detail >= 0 ==> LiveCount(r.table) == LiveCount(s) - 1)
    ensures ev.evtype.TouchUpdate? ==>
      (r.Abort? <==> !HasId(s, ev.detail))
      && (r.Next? ==> var k := SlotIndex(s, ev.detail);
            && (forall j :: 0 <= j < |s| ==> r.table[j].id == s[j].id)
            && r.table[k].x == ev.x && r.table[k].y == ev.y
            && (forall j :: 0 <= j < |s| && j != k ==> r.table[j] == s[j])
            && LiveCount(r.table) == LiveCount(s))
    ensures ev.evtype.OtherEvent? ==> r == Next(s)
  {
    match ev.evtype
    case TouchBegin =>
      if HasId(s, FREE) then
        var s' := AddTouch(s, ev.detail, ev.x, ev.y);
        AddCountsOne(s, ev.detail, ev.x, ev.y);
        Next(s')
      else Abort
    case TouchEnd =>
      var idx := SlotIndex(s, ev.detail);
      if idx >= 0 then
        RemoveCountsOne(s, idx);
        RemoveForgetsSlot(s, idx);
        Next(RemoveTouch(s, idx))
      else Abort
    case TouchUpdate =>
      var idx := SlotIndex(s, ev.detail);
      if idx >= 0 then
        LiveCountUpdate(s, idx, s[idx].(x := ev.x, y := ev.y));
        Next(s[idx := s[idx].(x := ev.x, y := ev.y)])
      else Abort
    case OtherEvent(_) => Next(s)
  }

  // ---------------------------------------------------------------------
  // Live-count bookkeeping
  // ---------------------------------------------------------------------

  /** Overwriting one slot changes the live count by the change in that slot's liveness. */
  lemma {:induction false} LiveCountUpdate(s: seq<Slot>, i: int, v: Slot)
    requires 0 <= i < |s|
    ensures LiveCount(s[i := v]) == LiveCount(s) - (if IsLive(s[i]) then 1 else 0) + (if IsLive(v) then 1 else 0)
  {
    var n := |s|;
    var s' := s[i := v];
    if i == n - 1 {
      assert s'[..n - 1] == s[..n - 1];
    } else {
      assert s'[..n - 1] == s[..n - 1][i := v];
      LiveCountUpdate(s[..n - 1], i, v);
    }
  }

  /** Filling a free slot with a live id adds one live touch. */
  lemma AddCountsOne(s: seq<Slot>, id: int, x: real, y: real)
    requires HasId(s, FREE)
    ensures id >= 0 ==> LiveCount(AddTouch(s, id, x, y)) == LiveCount(s) + 1
    ensures id < 0 ==> LiveCount(AddTouch(s, id, x, y)) == LiveCount(s)
  {
    LiveCountUpdate(s, SlotIndex(s, FREE), Slot(id, x, y));
  }

  /** Freeing a live slot removes one live touch. */
  lemma RemoveCountsOne(s: seq<Slot>, idx: int)
    requires 0 <= idx < |s|
    ensures IsLive(s[idx]) ==> LiveCount(RemoveTouch(s, idx)) == LiveCount(s) - 1
    ensures !IsLive(s[idx]) ==> LiveCount(RemoveTouch(s, idx)) == LiveCount(s)
  {
    LiveCountUpdate(s, idx, s[idx].(id := FREE));
  }

  /** A touch just added is found again, no later than the slot it was put in. */
  lemma AddThenFind(s: seq<Slot>, id: int, x: real, y: real)
    requires HasId(s, FREE)
    ensures HasId(AddTouch(s, id, x, y), id)
    ensures SlotIndex(AddTouch(s, id, x, y), id) <= SlotIndex(s, FREE)
  {
    var k := SlotIndex(s, FREE);
    assert AddTouch(s, id, x, y)[k].id == id;
  }

  /** After freeing the first slot with an id, that id is found only further on, if at all. */
  lemma RemoveForgetsSlot(s: seq<Slot>, idx: int)
    requires 0 <= idx < |s|
    requires forall j :: 0 <= j < idx ==> s[j].id != s[idx].id
    ensures var s' := RemoveTouch(s, idx);
      s[idx].id != FREE ==> !HasId(s', s[idx].id) || SlotIndex(s', s[idx].id) > idx
  {
    var s' := RemoveTouch(s, idx);
    var k := SlotIndex(s', s[idx].id);
    if s[idx].id != FREE && k != -1 {
      assert k != idx;
      assert s'[k] == s[k];
    }
  }

  // ---------------------------------------------------------------------
  // get_centroid, get_bbox_center
  // ---------------------------------------------------------------------

  lemma LivePointsStep(s: seq<Slot>, i: int)
    requires 0 <= i < |s|
    ensures LivePoints(s[..i + 1])
            == LivePoints(s[..i]) + (if IsLive(s[i]) then [Point(s[i].x, s[i].y)] else [])
  {
    assert s[..i + 1][..i] == s[..i];
  }

  /** get_centroid: the mean position of the live slots. The source divides by
      the live count without a guard; its caller draws nothing when no touch is
      live, so a live slot is required here. */
  method GetCentroid(s: seq<Slot>) returns (cx: real, cy: real)
    requires LiveCount(s) >= 1
    ensures Point(cx, cy) == CentroidOf(LivePoints(s))
  {
    var n := 0;
    var tx, ty := 0.0, 0.0;
    var i := 0;
    while i < |s|
      invariant 0 <= i <= |s|
      invariant n == |LivePoints(s[..i])|
      invariant tx == SumCoord(LivePoints(s[..i]), X) && ty == SumCoord(LivePoints(s[..i]), Y)
    {
      LivePointsStep(s, i);
      if s[i].id >= 0 {
        var p := Point(s[i].x, s[i].y);
        FoldsAppend(LivePoints(s[..i]), p, X);
        FoldsAppend(LivePoints(s[..i]), p, Y);
        assert Coord(p, X) == s[i].x && Coord(p, Y) == s[i].y;
        assert LivePoints(s[..i + 1]) == LivePoints(s[..i]) + [p];
        tx := tx + s[i].x;
        ty := ty + s[i].y;
        n := n + 1;
      } else {
        assert LivePoints(s[..i + 1]) == LivePoints(s[..i]);
      }
      i := i + 1;
    }
    assert s[..i] == s;
    cx := tx / n as real;
    cy := ty / n as real;
  }

  function RealMin(a: real, b: real): real
  {
    if b < a then b else a
  }

  function RealMax(a: real, b: real): real
  {
    if b > a then b else a
  }

  /** What get_bbox_center computes in closed form: the live extremes widened to
      take in the starting bounds 9999999 (for the minimum) and 0 (for the maximum). */
  function SentinelBboxCenter(lp: seq<Point>): Point
  {
    if |lp| == 0 then Point((SENTINEL_MIN + SENTINEL_MAX) / 2.0, (SENTINEL_MIN + SENTINEL_MAX) / 2.0)
    else
      Point((RealMin(SENTINEL_MIN, MinCoord(lp, X)) + RealMax(SENTINEL_MAX, MaxCoord(lp, X))) / 2.0,
            (RealMin(SENTINEL_MIN, MinCoord(lp, Y)) + RealMax(SENTINEL_MAX, MaxCoord(lp, Y))) / 2.0)
  }

  /** The running bound after the points lp, starting from `init`. */
  function RunningMin(lp: seq<Point>, a: Axis, init: real): real
  {
    if |lp| == 0 then init else RealMin(init, MinCoord(lp, a))
  }

  function RunningMax(lp: seq<Point>, a: Axis, init: real): real
  {
    if |lp| == 0 then init else RealMax(init, MaxCoord(lp, a))
  }

  lemma RunningStep(lp: seq<Point>, p: Point, a: Axis)
    ensures RunningMin(lp + [p], a, SENTINEL_MIN)
            == if Coord(p, a) < RunningMin(lp, a, SENTINEL_MIN) then Coord(p, a) else RunningMin(lp, a, SENTINEL_MIN)
    ensures RunningMax(lp + [p], a, SENTINEL_MAX)
            == if Coord(p, a) > RunningMax(lp, a, SENTINEL_MAX) then Coord(p, a) else RunningMax(lp, a, SENTINEL_MAX)
  {
    FoldsAppend(lp, p, a);
    if |lp| == 0 {
      assert [p][..0] == [];
    }
  }

  /** get_bbox_center over the live slots, with the source's sentinel bounds. */
  method GetBboxCenter(s: seq<Slot>) returns (cx: real, cy: real)
    ensures Point(cx, cy) == SentinelBboxCenter(LivePoints(s))
  {
    var xmin, ymin := SENTINEL_MIN, SENTINEL_MIN;
    var xmax, ymax := SENTINEL_MAX, SENTINEL_MAX;
    var i := 0;
    while i < |s|
      invariant 0 <= i <= |s|
      invariant xmin == RunningMin(LivePoints(s[..i]), X, SENTINEL_MIN)
      invariant ymin == RunningMin(LivePoints(s[..i]), Y, SENTINEL_MIN)
      invariant xmax == RunningMax(LivePoints(s[..i]), X, SENTINEL_MAX)
      invariant ymax == RunningMax(LivePoints(s[..i]), Y, SENTINEL_MAX)
    {
      LivePointsStep(s, i);
      if s[i].id >= 0 {
        var p := Point(s[i].x, s[i].y);
        RunningStep(LivePoints(s[..i]), p, X);
        RunningStep(LivePoints(s[..i]), p, Y);
        assert Coord(p, X) == s[i].x && Coord(p, Y) == s[i].y;
        assert LivePoints(s[..i + 1]) == LivePoints(s[..i]) + [p];
        if s[i].x < xmin {
          xmin := s[i].x;
        }
        if s[i].x > xmax {
          xmax := s[i].x;
        }
        if s[i].y < ymin {
          ymin := s[i].y;
        }
        if s[i].y > ymax {
          ymax := s[i].y;
        }
      } else {
        assert LivePoints(s[..i + 1]) == LivePoints(s[..i]);
      }
      i := i + 1;
    }
    assert s[..i] == s;
    cx := (xmin + xmax) / 2.0;
    cy := (ymin + ymax) / 2.0;
  }

  /** With no live slot the sentinels themselves are averaged. */
  lemma SentinelEmpty(s: seq<Slot>)
    requires LiveCount(s) == 0
    ensures SentinelBboxCenter(LivePoints(s)) == Point(4999999.5, 4999999.5)
  {
  }

  /** When every live coordinate lies within [0, 9999999] the sentinels never
      win, and the result is the bounding-box center of the live points. */
  lemma SentinelInRange(lp: seq<Point>)
    requires |lp| >= 1
    requires forall i :: 0 <= i < |lp| ==> SENTINEL_MAX <= lp[i].x <= SENTINEL_MIN && SENTINEL_MAX <= lp[i].y <= SENTINEL_MIN
    ensures SentinelBboxCenter(lp) == BboxCenterOf(lp)
  {
    assert Coord(lp[0], X) == lp[0].x && Coord(lp[0], Y) == lp[0].y;
    MinCoordIsLeast(lp, X);
    MaxCoordIsGreatest(lp, X);
    MinCoordIsLeast(lp, Y);
    MaxCoordIsGreatest(lp, Y);
    var i :| 0 <= i < |lp| && Coord(lp[i], X) == MinCoord(lp, X);
    var j :| 0 <= j < |lp| && Coord(lp[j], X) == MaxCoord(lp, X);
    var k :| 0 <= k < |lp| && Coord(lp[k], Y) == MinCoord(lp, Y);
    var m :| 0 <= m < |lp| && Coord(lp[m], Y) == MaxCoord(lp, Y);
  }

  /** Below the range the starting maximum 0 wins: when every live coordinate is
      negative the result is halfway between the live minimum and 0, never the
      bounding-box center. One live touch at (-4, -4) yields (-2, -2). */
  lemma SentinelBelowRange(lp: seq<Point>)
    requires |lp| >= 1
    requires forall i :: 0 <= i < |lp| ==> lp[i].x < SENTINEL_MAX && lp[i].y < SENTINEL_MAX
    ensures SentinelBboxCenter(lp) == Point(MinCoord(lp, X) / 2.0, MinCoord(lp, Y) / 2.0)
    ensures SentinelBboxCenter(lp) != BboxCenterOf(lp)
  {
    MinCoordIsLeast(lp, X);
    MaxCoordIsGreatest(lp, X);
    MinCoordIsLeast(lp, Y);
    MaxCoordIsGreatest(lp, Y);
    var i :| 0 <= i < |lp| && Coord(lp[i], X) == MinCoord(lp, X);
    var j :| 0 <= j < |lp| && Coord(lp[j], X) == MaxCoord(lp, X);
    var k :| 0 <= k < |lp| && Coord(lp[k], Y) == MinCoord(lp, Y);
    var m :| 0 <= m < |lp| && Coord(lp[m], Y) == MaxCoord(lp, Y);
  }

  /** Above the range the starting minimum 9999999 wins: when every live
      coordinate exceeds it the result is halfway between 9999999 and the live
      maximum, never the bounding-box center. */
  lemma SentinelAboveRange(lp: seq<Point>)
    requires |lp| >= 1
    requires forall i :: 0 <= i < |lp| ==> lp[i].x > SENTINEL_MIN && lp[i].y > SENTINEL_MIN
    ensures SentinelBboxCenter(lp) == Point((SENTINEL_MIN + MaxCoord(lp, X)) / 2.0, (SENTINEL_MIN + MaxCoord(lp, Y)) / 2.0)
    ensures SentinelBboxCenter(lp) != BboxCenterOf(lp)
  {
    MinCoordIsLeast(lp, X);
    MaxCoordIsGreatest(lp, X);
    MinCoordIsLeast(lp, Y);
    MaxCoordIsGreatest(lp, Y);
    var i :| 0 <= i < |lp| && Coord(lp[i], X) == MinCoord(lp, X);
    var j :| 0 <= j < |lp| && Coord(lp[j], X) == MaxCoord(lp, X);
    var k :| 0 <= k < |lp| && Coord(lp[k], Y) == MinCoord(lp, Y);
    var m :| 0 <= m < |lp| && Coord(lp[m], Y) == MaxCoord(lp, Y);
  }

  /** The touch table and the geometry module agree: for live slots whose
      coordinates stay within the sentinels, get_bbox_center is points_bbox_center
      of the live positions. */
  lemma BboxMatchesGeometry(s: seq<Slot>)
    requires LiveCount(s) >= 1
    requires forall i :: 0 <= i < |s| && IsLive(s[i]) ==> SENTINEL_MAX <= s[i].x <= SENTINEL_MIN && SENTINEL_MAX <= s[i].y <= SENTINEL_MIN
    ensures SentinelBboxCenter(LivePoints(s)) == BboxCenterOf(LivePoints(s))
  {
    LivePointsInRange(s);
    SentinelInRange(LivePoints(s));
  }

  lemma {:induction false} LivePointsInRange(s: seq<Slot>)
    requires forall i :: 0 <= i < |s| && IsLive(s[i]) ==> SENTINEL_MAX <= s[i].x <= SENTINEL_MIN && SENTINEL_MAX <= s[i].y <= SENTINEL_MIN
    ensures forall i :: 0 <= i < |LivePoints(s)| ==>
      SENTINEL_MAX <= LivePoints(s)[i].x <= SENTINEL_MIN && SENTINEL_MAX <= LivePoints(s)[i].y <= SENTINEL_MIN
  {
    if |s| > 0 {
      LivePointsInRange(s[..|s| - 1]);
    }
  }
}
