/**
 The dense touch table of charade.c: parallel arrays `touchids` and
 `touchpts` of `nslots` entries, of which the first `touches` are live. A
 touch is appended at the end and removed by moving the last live entry into
 its place.
 */
module Charade {
  import opened Geometry
  import opened TouchEvents

  /** The touch-tracking fields of kbd_state; nslots is the length of the arrays. */
  datatype Table = Table(ids: seq<int>, pts: seq<Point>, touches: int)

  /** The arrays have nslots entries each and the live count stays within them. */
  predicate Valid(t: Table)
  {
    |t.ids| == |t.pts| && 0 <= t.touches <= |t.ids|
  }

  /** The live (id, point) entries, in array order. */
  function Live(t: Table): (l: seq<(int, Point)>)
    requires Valid(t)
    ensures |l| == t.touches
    ensures forall j :: 0 <= j < t.touches ==> l[j] == (t.ids[j], t.pts[j])
  {
    seq(t.touches, j requires 0 <= j < t.touches => (t.ids[j], t.pts[j]))
  }

  // ---------------------------------------------------------------------
  // get_touch_index
  // ---------------------------------------------------------------------

  /** The scan of get_touch_index from position i on. */
  function FindFrom(t: Table, id: int, i: int): (r: int)
    requires Valid(t) && 0 <= i <= t.touches
    ensures r == -1 || (i <= r < t.touches && t.ids[r] == id)
    ensures r == -1 <==> forall j :: i <= j < t.touches ==> t.ids[j] != id
    ensures r != -1 ==> forall j :: i <= j < r ==> t.ids[j] != id
    decreases t.touches - i
  {
    if i == t.touches then -1
    else if t.ids[i] == id then i
    else FindFrom(t, id, i + 1)
  }

  /** get_touch_index: the first live position holding `id`, or -1. Entries past
      the live count are never looked at. */
  function TouchIndex(t: Table, id: int): (r: int)
    requires Valid(t)
    ensures r == -1 <==> id !in t.ids[..t.touches]
    ensures r != -1 ==> 0 <= r < t.touches && t.ids[r] == id && id !in t.ids[..r]
  {
    var r := FindFrom(t, id, 0);
    assert r != -1 ==> t.ids[..t.touches][r] == id;
    r
  }

  // ---------------------------------------------------------------------
  // add_touch, remove_touch, update_touch
  // ---------------------------------------------------------------------

  /** add_touch: the source asserts that a slot is left, writes the new entry at
      the live count and increments it (its return value is always 0). */
  function AddTouch(t: Table, id: int, x: real, y: real): (t': Table)
    requires Valid(t) && t.touches < |t.ids|
    ensures Valid(t') && |t'.ids| == |t.ids|
    ensures t'.touches == t.touches + 1
    ensures t'.ids[t.touches] == id && t'.pts[t.touches] == Point(x, y)
    ensures forall j :: 0 <= j < |t.ids| && j != t.touches ==> t'.ids[j] == t.ids[j] && t'.pts[j] == t.pts[j]
  {
    Table(t.ids[t.touches := id], t.pts[t.touches := Point(x, y)], t.touches + 1)
  }

  /** remove_touch: the source asserts the index is live, decrements the count
      and, unless the removed entry was the last one, moves the last entry into
      the hole. */
  function RemoveTouch(t: Table, idx: int): (t': Table)
    requires Valid(t) && 0 <= idx < t.touches
    ensures Valid(t') && |t'.ids| == |t.ids|
    ensures t'.touches == t.touches - 1
    ensures idx < t'.touches ==> t'.ids[idx] == t.ids[t'.touches] && t'.pts[idx] == t.pts[t'.touches]
    ensures forall j :: 0 <= j < |t.ids| && j != idx ==> t'.ids[j] == t.ids[j] && t'.pts[j] == t.pts[j]
  {
    var last := t.touches - 1;
    if idx < last then Table(t.ids[idx := t.ids[last]], t.pts[idx := t.pts[last]], last)
    else t.(touches := last)
  }

  /** update_touch: the source asserts the index is live and rewrites that point only. */
  function UpdateTouch(t: Table, idx: int, x: real, y: real): (t': Table)
    requires Valid(t) && 0 <= idx < t.touches
    ensures Valid(t') && t'.ids == t.ids && t'.touches == t.touches
    ensures |t'.pts| == |t.pts| && t'.pts[idx] == Point(x, y)
    ensures forall j :: 0 <= j < |t.pts| && j != idx ==> t'.pts[j] == t.pts[j]
  {
    t.(pts := t.pts[idx := Point(x, y)])
  }

  // ---------------------------------------------------------------------
  // handle_xi_event, the table part
  // ---------------------------------------------------------------------

  /** The table transition of handle_xi_event. A failed `assert` (no slot left on
      TouchBegin, an unknown id on TouchEnd or TouchUpdate) is an Abort; any other
      event type leaves the table alone. */
  function HandleEvent(t: Table, ev: Event): (r: Step<Table>)
    requires Valid(t)
    ensures r.Next? ==> Valid(r.table) && |r.table.ids| == |t.ids|
    ensures ev.evtype.TouchBegin? ==>
      (r.Abort? <==> t.touches == |t.ids|)
      && (r.Next? ==> Live(r.table) == Live(t) + [(ev.detail, Point(ev.x, ev.y))])
    ensures ev.evtype.TouchEnd? ==>
      (r.Abort? <==> ev.detail !in t.ids[..t.touches])
      && (r.Next? ==> multiset(Live(r.table)) == multiset(Live(t)) - multiset{(ev.detail, t.pts[TouchIndex(t, ev.detail)])})
      && (r.Next? ==> var k, last := TouchIndex(t, ev.detail), t.touches - 1;
            && r.table.touches == last
            && (k < last ==> r.table.ids[k] == t.ids[last] && r.table.pts[k] == t.pts[last])
            && (k == last ==> r.table.ids == t.ids && r.table.pts == t.pts)
            && (forall j :: 0 <= j < |t.ids| && j != k ==> r.table.ids[j] == t.ids[j] && r.table.pts[j] == t.pts[j]))
    ensures ev.evtype.TouchUpdate? ==>
      (r.Abort? <==> ev.detail !in t.ids[..t.touches])
      && (r.Next? ==> r.table.ids == t.ids && r.table.touches == t.touches
                      && r.table.pts == t.pts[TouchIndex(t, ev.detail) := Point(ev.x, ev.y)])
    ensures ev.evtype.OtherEvent? ==> r == Next(t)
  {
    match ev.evtype
    case TouchBegin =>
      if t.touches < |t.ids| then
        AddPreservesLive(t, ev.detail, ev.x, ev.y);
        Next(AddTouch(t, ev.detail, ev.x, ev.y))
      else Abort
    case TouchEnd =>
      var idx := TouchIndex(t, ev.detail);
      if idx >= 0 then
        RemoveKeepsOthers(t, idx);
        Next(RemoveTouch(t, idx))
      else Abort
    case TouchUpdate =>
      var idx := TouchIndex(t, ev.detail);
      if idx >= 0 then Next(UpdateTouch(t, idx, ev.x, ev.y)) else Abort
    case OtherEvent(_) => Next(t)
  }

  // ---------------------------------------------------------------------
  // Properties
  // ---------------------------------------------------------------------

  /** Adding appends exactly one live entry and keeps the ones before it. */
  lemma AddPreservesLive(t: Table, id: int, x: real, y: real)
    requires Valid(t) && t.touches < |t.ids|
    ensures Live(AddTouch(t, id, x, y)) == Live(t) + [(id, Point(x, y))]
  {
  }

  /** A touch just added is found again. */
  lemma AddThenFind(t: Table, id: int, x: real, y: real)
    requires Valid(t) && t.touches < |t.ids|
    ensures 0 <= TouchIndex(AddTouch(t, id, x, y), id) <= t.touches
  {
    var t' := AddTouch(t, id, x, y);
    assert t'.ids[..t'.touches][t.touches] == id;
  }

  /** Removing keeps the multiset of live (id, point) pairs, less the removed pair. */
  lemma RemoveKeepsOthers(t: Table, idx: int)
    requires Valid(t) && 0 <= idx < t.touches
    ensures multiset(Live(RemoveTouch(t, idx))) == multiset(Live(t)) - multiset{(t.ids[idx], t.pts[idx])}
  {
    var l := Live(t);
    var l' := Live(RemoveTouch(t, idx));
    var last := t.touches - 1;
    assert l == l[..last] + [l[last]];
    if idx < last {
      assert l' == l[..last][idx := l[last]];
    } else {
      assert l' == l[..last];
    }
  }

  /** The live ids are pairwise distinct (the X server never reuses a live touch id). */
  predicate DistinctLive(t: Table)
    requires Valid(t)
  {
    forall i, j :: 0 <= i < j < t.touches ==> t.ids[i] != t.ids[j]
  }

  /** With distinct ids, once a touch is removed its id is no longer found, and
      the ids stay distinct. */
  lemma RemoveForgetsId(t: Table, id: int)
    requires Valid(t) && DistinctLive(t)
    requires TouchIndex(t, id) != -1
    ensures TouchIndex(RemoveTouch(t, TouchIndex(t, id)), id) == -1
    ensures DistinctLive(RemoveTouch(t, TouchIndex(t, id)))
  {
    var idx := TouchIndex(t, id);
    var t' := RemoveTouch(t, idx);
    forall j | 0 <= j < t'.touches
      ensures t'.ids[j] != id
    {
      if j == idx {
        assert t'.ids[j] == t.ids[t'.touches];
      }
    }
    assert id !in t'.ids[..t'.touches];
  }

  /** A touch id that is not live yet stays distinct when added. */
  lemma AddKeepsDistinct(t: Table, id: int, x: real, y: real)
    requires Valid(t) && DistinctLive(t) && t.touches < |t.ids|
    requires TouchIndex(t, id) == -1
    ensures DistinctLive(AddTouch(t, id, x, y))
  {
    assert forall j :: 0 <= j < t.touches ==> t.ids[..t.touches][j] == t.ids[j];
  }

  /** Updating moves no touch: every id is found where it was. */
  lemma UpdateKeepsIndices(t: Table, idx: int, x: real, y: real, id: int)
    requires Valid(t) && 0 <= idx < t.touches
    ensures TouchIndex(UpdateTouch(t, idx, x, y), id) == TouchIndex(t, id)
  {
  }
}
