/**
 The convex-hull and bounding-box routines of the geometry module: the
 x-ordering used for sorting, the monotone-chain hull and the box built from
 the local extremes of a hull.
 */
module Hull {
  import opened Geometry

  // ---------------------------------------------------------------------
  // Sorting by x (points_compare_x and the qsort call)
  // ---------------------------------------------------------------------

  /** points_compare_x: a three-way comparison of the x coordinates alone. */
  function CompareX(p: Point, q: Point): (c: int)
    ensures -1 <= c <= 1
    ensures c < 0 <==> p.x < q.x
    ensures c == 0 <==> p.x == q.x
  {
    if p.x < q.x then -1
    else if p.x > q.x then 1
    else 0
  }

  /** The comparator is a total preorder: reflexive, transitive, total, and it
      reverses sign when its arguments are swapped. */
  lemma CompareXPreorder(p: Point, q: Point, r: Point)
    ensures CompareX(p, p) == 0
    ensures CompareX(p, q) == -CompareX(q, p)
    ensures CompareX(p, q) <= 0 && CompareX(q, r) <= 0 ==> CompareX(p, r) <= 0
  {
  }

  predicate SortedByX(s: seq<Point>)
  {
    forall i, j :: 0 <= i < j < |s| ==> CompareX(s[i], s[j]) <= 0
  }

  /** What qsort with points_compare_x leaves behind: some permutation of the
      input that is ordered by x. Points with equal x may end up in any order. */
  predicate IsXSortedCopy(sorted: seq<Point>, s: seq<Point>)
  {
    multiset(sorted) == multiset(s) && SortedByX(sorted)
  }

  function InsertByX(p: Point, s: seq<Point>): (r: seq<Point>)
    requires SortedByX(s)
    ensures multiset(r) == multiset(s) + multiset{p}
    ensures SortedByX(r)
  {
    if |s| == 0 then [p]
    else if CompareX(p, s[0]) <= 0 then
      SortedPrepend(p, s);
      [p] + s
    else
      SortedTail(s);
      var rest := InsertByX(p, s[1..]);
      assert s == [s[0]] + s[1..];
      InsertKeepsLowerBound(s[0], p, s[1..], rest);
      SortedPrepend(s[0], rest);
      [s[0]] + rest
  }

  lemma SortedTail(s: seq<Point>)
    requires SortedByX(s) && |s| > 0
    ensures SortedByX(s[1..])
  {
    forall i, j | 0 <= i < j < |s| - 1
      ensures CompareX(s[1..][i], s[1..][j]) <= 0
    {
      assert s[1..][i] == s[i + 1] && s[1..][j] == s[j + 1];
    }
  }

  /** A point no greater in x than the head of a sorted sequence can go in front. */
  lemma SortedPrepend(h: Point, t: seq<Point>)
    requires SortedByX(t)
    requires |t| > 0 ==> h.x <= t[0].x
    ensures SortedByX([h] + t)
  {
    var r := [h] + t;
    forall i, j | 0 <= i < j < |r|
      ensures CompareX(r[i], r[j]) <= 0
    {
      if i == 0 && j > 1 {
        assert CompareX(t[0], t[j - 1]) <= 0;
      }
    }
  }

  /** A lower bound in x of a sequence and of a new point bounds the sequence with the point inserted. */
  lemma InsertKeepsLowerBound(h: Point, p: Point, t: seq<Point>, rest: seq<Point>)
    requires SortedByX([h] + t) && h.x <= p.x
    requires multiset(rest) == multiset(t) + multiset{p}
    ensures |rest| > 0 ==> h.x <= rest[0].x
  {
    if |rest| > 0 {
      assert rest[0] in multiset(rest);
      if rest[0] != p {
        assert rest[0] in multiset(t);
        var j :| 0 <= j < |t| && t[j] == rest[0];
        assert ([h] + t)[j + 1] == t[j];
        assert CompareX(([h] + t)[0], ([h] + t)[j + 1]) <= 0;
      }
    }
  }

  /** An insertion sort by x. It exists to show that every input has an x-sorted
      copy, so the precondition of ConvexHull excludes no point array. */
  function SortByX(s: seq<Point>): (r: seq<Point>)
    ensures IsXSortedCopy(r, s)
  {
    if |s| == 0 then []
    else
      assert s == [s[0]] + s[1..];
      InsertByX(s[0], SortByX(s[1..]))
  }

  // ---------------------------------------------------------------------
  // The (x, y) order: points_compare_x with ties broken by y
  // ---------------------------------------------------------------------

  /** p comes no later than q when points are ordered by x and then by y. */
  predicate LexLe(p: Point, q: Point)
  {
    p.x < q.x || (p.x == q.x && p.y <= q.y)
  }

  /** The comparator the monotone-chain algorithm needs: it agrees with
      points_compare_x whenever the x coordinates differ, and orders points of
      equal x by y. */
  function CompareXY(p: Point, q: Point): (c: int)
    ensures -1 <= c <= 1
    ensures c <= 0 <==> LexLe(p, q)
    ensures c == 0 <==> p == q
    ensures CompareX(p, q) != 0 ==> c == CompareX(p, q)
  {
    if p.x != q.x then CompareX(p, q)
    else if p.y < q.y then -1
    else if p.y > q.y then 1
    else 0
  }

  predicate LexSorted(s: seq<Point>)
  {
    forall i, j :: 0 <= i < j < |s| ==> LexLe(s[i], s[j])
  }

  predicate LexSortedDesc(s: seq<Point>)
  {
    forall i, j :: 0 <= i < j < |s| ==> LexLe(s[j], s[i])
  }

  /** Ordered by (x, y) one way or the other, as the two passes see the sorted points. */
  predicate LexMonotone(s: seq<Point>)
  {
    LexSorted(s) || LexSortedDesc(s)
  }

  /** What qsort with CompareXY leaves behind: the permutation of the input in (x, y) order. */
  predicate IsLexSortedCopy(sorted: seq<Point>, s: seq<Point>)
  {
    multiset(sorted) == multiset(s) && LexSorted(sorted)
  }

  /** A copy in (x, y) order is one of the copies qsort with points_compare_x may produce. */
  lemma LexCopyIsXCopy(sorted: seq<Point>, s: seq<Point>)
    requires IsLexSortedCopy(sorted, s)
    ensures IsXSortedCopy(sorted, s)
  {
    forall i, j | 0 <= i < j < |sorted|
      ensures CompareX(sorted[i], sorted[j]) <= 0
    {
      assert LexLe(sorted[i], sorted[j]);
    }
  }

  lemma ReverseLexSorted(s: seq<Point>)
    requires LexSorted(s)
    ensures LexSortedDesc(Reverse(s))
  {
    var r := Reverse(s);
    forall i, j | 0 <= i < j < |r|
      ensures LexLe(r[j], r[i])
    {
      assert r[j] == s[|s| - 1 - j] && r[i] == s[|s| - 1 - i];
    }
  }

  // ---------------------------------------------------------------------
  // Chains
  // ---------------------------------------------------------------------

  /** `idx` picks the elements of `t` out of `s` at strictly increasing positions. */
  ghost predicate Embeds(idx: seq<int>, t: seq<Point>, s: seq<Point>)
  {
    && |idx| == |t|
    && (forall k :: 0 <= k < |idx| ==> 0 <= idx[k] < |s| && t[k] == s[idx[k]])
    && (forall k :: 0 <= k < |idx| - 1 ==> idx[k] < idx[k + 1])
  }

  ghost predicate IsSubsequence(t: seq<Point>, s: seq<Point>)
  {
    exists idx :: Embeds(idx, t, s)
  }

  /** Every three consecutive points make a strict right turn. */
  predicate AllRightTurns(c: seq<Point>)
  {
    forall k :: 0 <= k < |c| - 2 ==> RightTurn(c[k], c[k + 1], c[k + 2])
  }

  /** A pruned chain over `s`: it runs from the first to the last point of `s`,
      keeps the order of `s`, and turns right at every interior point. */
  ghost predicate IsChainOver(c: seq<Point>, s: seq<Point>)
  {
    && |s| >= 2
    && 2 <= |c| <= |s|
    && c[0] == s[0]
    && c[|c| - 1] == s[|s| - 1]
    && IsSubsequence(c, s)
    && AllRightTurns(c)
  }

  function Reverse(s: seq<Point>): (r: seq<Point>)
    ensures |r| == |s|
    ensures forall i :: 0 <= i < |s| ==> r[i] == s[|s| - 1 - i]
  {
    if |s| == 0 then [] else Reverse(s[1..]) + [s[0]]
  }

  /** Pop the middle of the last three points while they fail to make a strict
      right turn; the end points stay. */
  function Prune(c: seq<Point>): (r: seq<Point>)
    ensures |c| >= 2 ==> 2 <= |r| <= |c| && r[0] == c[0] && r[|r| - 1] == c[|c| - 1]
    decreases |c|
  {
    if |c| > 2 && !RightTurn(c[|c| - 3], c[|c| - 2], c[|c| - 1]) then Prune(c[..|c| - 2] + [c[|c| - 1]])
    else c
  }

  /** The chain a pruning pass leaves after the first n points of s. */
  function ChainUpTo(s: seq<Point>, n: int): (r: seq<Point>)
    requires 2 <= n <= |s|
    ensures 2 <= |r| <= n && r[0] == s[0] && r[|r| - 1] == s[n - 1]
    decreases n
  {
    if n == 2 then [s[0], s[1]] else Prune(ChainUpTo(s, n - 1) + [s[n - 1]])
  }

  /** The chain a pruning pass leaves after all the points of s: the reference
      definition of BuildChain. */
  function ChainOf(s: seq<Point>): (r: seq<Point>)
    requires |s| >= 2
    ensures 2 <= |r| <= |s| && r[0] == s[0] && r[|r| - 1] == s[|s| - 1]
  {
    ChainUpTo(s, |s|)
  }

  /** p lies between a and b in the (x, y) order, whichever way the two are ordered. */
  predicate Spans(a: Point, p: Point, b: Point)
  {
    (LexLe(a, p) && LexLe(p, b)) || (LexLe(b, p) && LexLe(p, a))
  }

  /** No point of s lies strictly outside (to the left of) a chain edge whose end
      points span it. */
  predicate SpansBounded(c: seq<Point>, s: seq<Point>)
  {
    forall k, j {:trigger Spans(c[k], s[j], c[k + 1])} ::
      0 <= k < |c| - 1 && 0 <= j < |s| && Spans(c[k], s[j], c[k + 1]) ==>
        !RightTurn(c[k], s[j], c[k + 1])
  }

  /** The invariant behind SpansBounded, kept by every push and pop: every point of s whose position lies
      between the positions of two neighbouring chain points is on or inside the
      edge between them. */
  ghost predicate EdgesCover(idx: seq<int>, c: seq<Point>, s: seq<Point>)
  {
    forall k, j {:trigger RightTurn(c[k], s[j], c[k + 1])} ::
      0 <= k < |c| - 1 && k + 1 < |idx| && 0 <= idx[k] <= j <= idx[k + 1] && j < |s| ==>
        !RightTurn(c[k], s[j], c[k + 1])
  }

  /** One pruning pass of points_convex_hull: push each point and pop the middle
      of the last three while they fail to make a strict right turn. The source
      writes this loop twice, left to right for the upper chain and right to left
      for the lower chain; the second is this pass over the reversed order. */
  method BuildChain(s: seq<Point>) returns (chain: seq<Point>)
    requires |s| >= 2
    ensures chain == ChainOf(s)
    ensures IsChainOver(chain, s)
    ensures LexMonotone(s) ==> SpansBounded(chain, s)
  {
    chain := [s[0], s[1]];
    var i := 2;
    while i < |s|
      invariant 2 <= i <= |s|
      invariant chain == ChainUpTo(s, i)
    {
      chain := chain + [s[i]];
      while |chain| > 2 && !RightTurn(chain[|chain| - 3], chain[|chain| - 2], chain[|chain| - 1])
        invariant |chain| >= 2
        invariant Prune(chain) == ChainUpTo(s, i + 1)
        decreases |chain|
      {
        // Remove the middle point of the last three
        chain := chain[..|chain| - 2] + [chain[|chain| - 1]];
      }
      i := i + 1;
    }
    ChainOfFacts(s);
  }

  /** The reference chain runs through s in order, turns right at every interior
      point and, for points in (x, y) order, leaves no point outside an edge that
      spans it. */
  lemma ChainOfFacts(s: seq<Point>)
    requires |s| >= 2
    ensures IsChainOver(ChainOf(s), s)
    ensures LexMonotone(s) ==> SpansBounded(ChainOf(s), s)
  {
    ChainTurns(s, |s|);
    ChainEmbeds(s, |s|);
    if LexMonotone(s) {
      ChainCover(s, |s|);
      CoverSpans(ChainIdx(s, |s|), ChainOf(s), s);
    }
  }

  /** Pruning pops the same positions from the index list as from the chain. */
  ghost function PruneIdx(c: seq<Point>, cidx: seq<int>): seq<int>
    decreases |c|
  {
    if |c| > 2 && |cidx| == |c| && !RightTurn(c[|c| - 3], c[|c| - 2], c[|c| - 1])
    then PruneIdx(c[..|c| - 2] + [c[|c| - 1]], cidx[..|cidx| - 2] + [cidx[|cidx| - 1]])
    else cidx
  }

  /** The positions in s of the chain after n points. */
  ghost function ChainIdx(s: seq<Point>, n: int): seq<int>
    requires 2 <= n <= |s|
    decreases n
  {
    if n == 2 then [0, 1] else PruneIdx(ChainUpTo(s, n - 1) + [s[n - 1]], ChainIdx(s, n - 1) + [n - 1])
  }

  /** The chain after n points turns right at every interior point. */
  lemma {:induction false} ChainTurns(s: seq<Point>, n: int)
    requires 2 <= n <= |s|
    ensures AllRightTurns(ChainUpTo(s, n))
    decreases n
  {
    if n > 2 {
      var c := ChainUpTo(s, n - 1);
      ChainTurns(s, n - 1);
      PushTurns(c, s[n - 1]);
      PruneTurns(c + [s[n - 1]]);
    }
  }

  /** Pushing a point keeps the turns before it. */
  lemma PushTurns(c: seq<Point>, p: Point)
    requires AllRightTurns(c)
    ensures forall k :: 0 <= k < |c + [p]| - 3 ==> RightTurn((c + [p])[k], (c + [p])[k + 1], (c + [p])[k + 2])
  {
    var c' := c + [p];
    forall k | 0 <= k < |c'| - 3
      ensures RightTurn(c'[k], c'[k + 1], c'[k + 2])
    {
      assert c'[k] == c[k] && c'[k + 1] == c[k + 1] && c'[k + 2] == c[k + 2];
    }
  }

  /** Pruning completes the right turns of a chain that already turns right
      before its last three points. */
  lemma {:induction false} PruneTurns(c: seq<Point>)
    requires forall k :: 0 <= k < |c| - 3 ==> RightTurn(c[k], c[k + 1], c[k + 2])
    ensures AllRightTurns(Prune(c))
    decreases |c|
  {
    if |c| > 2 && !RightTurn(c[|c| - 3], c[|c| - 2], c[|c| - 1]) {
      var c' := c[..|c| - 2] + [c[|c| - 1]];
      forall k | 0 <= k < |c'| - 3
        ensures RightTurn(c'[k], c'[k + 1], c'[k + 2])
      {
        assert c'[k] == c[k] && c'[k + 1] == c[k + 1] && c'[k + 2] == c[k + 2];
      }
      PruneTurns(c');
    } else {
      LastTurnCompletes(c);
    }
  }

  /** The chain after n points sits at increasing positions of s, ending at n - 1. */
  lemma {:induction false} ChainEmbeds(s: seq<Point>, n: int)
    requires 2 <= n <= |s|
    ensures Embeds(ChainIdx(s, n), ChainUpTo(s, n), s)
    ensures ChainIdx(s, n)[|ChainIdx(s, n)| - 1] == n - 1
    ensures forall k :: 0 <= k < |ChainIdx(s, n)| ==> ChainIdx(s, n)[k] < n
    decreases n
  {
    if n > 2 {
      ChainEmbeds(s, n - 1);
      PushPruneEmbeds(ChainUpTo(s, n - 1), ChainIdx(s, n - 1), s, n - 1);
    }
  }

  /** One step of the pass keeps the positions increasing, ending at the pushed point. */
  lemma PushPruneEmbeds(c: seq<Point>, cidx: seq<int>, s: seq<Point>, i: int)
    requires 0 < i < |s| && |c| >= 1
    requires Embeds(cidx, c, s) && cidx[|cidx| - 1] == i - 1
    requires forall k :: 0 <= k < |cidx| ==> cidx[k] < i
    ensures Embeds(PruneIdx(c + [s[i]], cidx + [i]), Prune(c + [s[i]]), s)
    ensures PruneIdx(c + [s[i]], cidx + [i])[|PruneIdx(c + [s[i]], cidx + [i])| - 1] == i
    ensures forall k :: 0 <= k < |PruneIdx(c + [s[i]], cidx + [i])| ==> PruneIdx(c + [s[i]], cidx + [i])[k] <= i
  {
    PushEmbeds(cidx, c, s, i);
    PruneEmbeds(c + [s[i]], cidx + [i], s, i);
  }

  /** Popping keeps the positions increasing, and the last one in place. */
  lemma {:induction false} PruneEmbeds(c: seq<Point>, cidx: seq<int>, s: seq<Point>, i: int)
    requires |c| >= 2 && Embeds(cidx, c, s) && cidx[|cidx| - 1] == i
    requires forall k :: 0 <= k < |cidx| ==> cidx[k] <= i
    ensures Embeds(PruneIdx(c, cidx), Prune(c), s)
    ensures PruneIdx(c, cidx)[|PruneIdx(c, cidx)| - 1] == i
    ensures forall k :: 0 <= k < |PruneIdx(c, cidx)| ==> PruneIdx(c, cidx)[k] <= i
    decreases |c|
  {
    if |c| > 2 && !RightTurn(c[|c| - 3], c[|c| - 2], c[|c| - 1]) {
      PopEmbeds(cidx, c, s, i);
      PruneEmbeds(c[..|c| - 2] + [c[|c| - 1]], cidx[..|cidx| - 2] + [cidx[|cidx| - 1]], s, i);
    }
  }

  /** For points in (x, y) order, every point between the positions of two
      neighbouring chain points is on or inside the edge between them. */
  lemma {:induction false} ChainCover(s: seq<Point>, n: int)
    requires 2 <= n <= |s| && LexMonotone(s)
    ensures EdgesCover(ChainIdx(s, n), ChainUpTo(s, n), s)
    decreases n
  {
    if n == 2 {
      FirstEdgeCover(s);
    } else {
      ChainCover(s, n - 1);
      ChainCoverStep(s, n);
    }
  }

  lemma ChainCoverStep(s: seq<Point>, n: int)
    requires 2 < n <= |s| && LexMonotone(s)
    requires EdgesCover(ChainIdx(s, n - 1), ChainUpTo(s, n - 1), s)
    ensures EdgesCover(ChainIdx(s, n), ChainUpTo(s, n), s)
  {
    PushPruneCoverTo(s, n - 1, ChainUpTo(s, n - 1), ChainIdx(s, n - 1), ChainUpTo(s, n), ChainIdx(s, n));
  }

  /** PushPruneCover for the chain after i points, with the chain and positions after the step named. */
  lemma PushPruneCoverTo(s: seq<Point>, i: int, c: seq<Point>, cidx: seq<int>, c': seq<Point>, cidx': seq<int>)
    requires 2 <= i < |s| && LexMonotone(s)
    requires c == ChainUpTo(s, i) && cidx == ChainIdx(s, i)
    requires EdgesCover(cidx, c, s)
    requires c' == Prune(c + [s[i]]) && cidx' == PruneIdx(c + [s[i]], cidx + [i])
    ensures EdgesCover(cidx', c', s)
  {
    ChainEmbeds(s, i);
    PushPruneCover(c, cidx, s, i);
  }

  /** The first edge joins neighbours in s. */
  lemma FirstEdgeCover(s: seq<Point>)
    requires |s| >= 2
    ensures EdgesCover([0, 1], [s[0], s[1]], s)
  {
    var c, idx := [s[0], s[1]], [0, 1];
    forall k, j | 0 <= k < |c| - 1 && k + 1 < |idx| && 0 <= idx[k] <= j <= idx[k + 1] && j < |s|
      ensures !RightTurn(c[k], s[j], c[k + 1])
    {
      assert k == 0 && (j == 0 || j == 1);
    }
  }

  /** One step of the pass keeps every covered point inside. */
  lemma PushPruneCover(c: seq<Point>, cidx: seq<int>, s: seq<Point>, i: int)
    requires 0 < i < |s| && |c| >= 1 && LexMonotone(s)
    requires Embeds(cidx, c, s) && cidx[|cidx| - 1] == i - 1
    requires forall k :: 0 <= k < |cidx| ==> cidx[k] < i
    requires EdgesCover(cidx, c, s)
    ensures EdgesCover(PruneIdx(c + [s[i]], cidx + [i]), Prune(c + [s[i]]), s)
  {
    PushCover(cidx, c, s, i);
    PushEmbeds(cidx, c, s, i);
    PruneCover(c + [s[i]], cidx + [i], s);
  }

  /** Popping keeps every covered point inside. */
  lemma {:induction false} PruneCover(c: seq<Point>, cidx: seq<int>, s: seq<Point>)
    requires |c| >= 2 && Embeds(cidx, c, s) && LexMonotone(s)
    requires EdgesCover(cidx, c, s)
    ensures EdgesCover(PruneIdx(c, cidx), Prune(c), s)
    decreases |c|
  {
    if |c| > 2 && !RightTurn(c[|c| - 3], c[|c| - 2], c[|c| - 1]) {
      PopCover(cidx, c, s);
      PopStaysEmbedded(cidx, c, s);
      PruneCover(c[..|c| - 2] + [c[|c| - 1]], cidx[..|cidx| - 2] + [cidx[|cidx| - 1]], s);
    }
  }

  /** A chain that turns right everywhere before its last three points, and at them. */
  lemma LastTurnCompletes(c: seq<Point>)
    requires forall k :: 0 <= k < |c| - 3 ==> RightTurn(c[k], c[k + 1], c[k + 2])
    requires |c| > 2 ==> RightTurn(c[|c| - 3], c[|c| - 2], c[|c| - 1])
    ensures AllRightTurns(c)
  {
    forall k | 0 <= k < |c| - 2
      ensures RightTurn(c[k], c[k + 1], c[k + 2])
    {
      if k == |c| - 3 {
        assert c[k + 1] == c[|c| - 2] && c[k + 2] == c[|c| - 1];
      }
    }
  }

  /** Popping the middle of the last three points keeps the chain a subsequence
      of s with its last position in place. */
  lemma PopEmbeds(idx: seq<int>, c: seq<Point>, s: seq<Point>, i: int)
    requires |c| >= 3 && Embeds(idx, c, s) && idx[|idx| - 1] == i
    requires forall k :: 0 <= k < |idx| ==> idx[k] <= i
    ensures var c', idx' := c[..|c| - 2] + [c[|c| - 1]], idx[..|idx| - 2] + [idx[|idx| - 1]];
      && Embeds(idx', c', s) && idx'[|idx'| - 1] == i
      && (forall k :: 0 <= k < |idx'| ==> idx'[k] <= i)
  {
    PopStaysEmbedded(idx, c, s);
  }

  lemma PopStaysEmbedded(idx: seq<int>, c: seq<Point>, s: seq<Point>)
    requires |c| >= 3 && Embeds(idx, c, s)
    ensures Embeds(idx[..|idx| - 2] + [idx[|idx| - 1]], c[..|c| - 2] + [c[|c| - 1]], s)
  {
    var m := |c|;
    var idx' := idx[..m - 2] + [idx[m - 1]];
    forall k | 0 <= k < |idx'| - 1
      ensures idx'[k] < idx'[k + 1]
    {
      if k == m - 3 {
        assert idx[m - 3] < idx[m - 2] < idx[m - 1];
      }
    }
  }

  /** Pushing the next point of s keeps the chain a subsequence of s. */
  lemma PushEmbeds(idx: seq<int>, c: seq<Point>, s: seq<Point>, i: int)
    requires 0 < i < |s| && |c| >= 1
    requires Embeds(idx, c, s) && idx[|idx| - 1] == i - 1
    requires forall k :: 0 <= k < |idx| ==> idx[k] < i
    ensures var c', idx' := c + [s[i]], idx + [i];
      && Embeds(idx', c', s) && idx'[|idx'| - 1] == i
      && (forall k :: 0 <= k < |idx'| ==> idx'[k] <= i)
  {
  }

  /** Pushing the next point adds an edge between neighbours in s, which spans no other point. */
  lemma PushCover(idx: seq<int>, c: seq<Point>, s: seq<Point>, i: int)
    requires 0 < i < |s| && |c| >= 1
    requires Embeds(idx, c, s) && idx[|idx| - 1] == i - 1
    requires EdgesCover(idx, c, s)
    ensures EdgesCover(idx + [i], c + [s[i]], s)
  {
    var c', idx' := c + [s[i]], idx + [i];
    forall k, j | 0 <= k < |c'| - 1 && k + 1 < |idx'| && 0 <= idx'[k] <= j <= idx'[k + 1] && j < |s|
      ensures !RightTurn(c'[k], s[j], c'[k + 1])
    {
      if k == |c| - 1 {
        assert c'[k] == s[i - 1] && c'[k + 1] == s[i];
        assert j == i - 1 || j == i;
      } else {
        assert c'[k] == c[k] && c'[k + 1] == c[k + 1] && idx'[k] == idx[k] && idx'[k + 1] == idx[k + 1];
      }
    }
  }

  /** Popping the middle of the last three points keeps the invariant: the new
      edge covers the points of the two edges it replaces. */
  lemma PopCover(idx: seq<int>, c: seq<Point>, s: seq<Point>)
    requires |c| >= 3 && Embeds(idx, c, s) && LexMonotone(s)
    requires EdgesCover(idx, c, s)
    requires !RightTurn(c[|c| - 3], c[|c| - 2], c[|c| - 1])
    ensures EdgesCover(idx[..|idx| - 2] + [idx[|idx| - 1]], c[..|c| - 2] + [c[|c| - 1]], s)
  {
    var m := |c|;
    var c', idx' := c[..m - 2] + [c[m - 1]], idx[..m - 2] + [idx[m - 1]];
    forall k, j | 0 <= k < |c'| - 1 && k + 1 < |idx'| && 0 <= idx'[k] <= j <= idx'[k + 1] && j < |s|
      ensures !RightTurn(c'[k], s[j], c'[k + 1])
    {
      if k < m - 3 {
        assert c'[k] == c[k] && c'[k + 1] == c[k + 1] && idx'[k] == idx[k] && idx'[k + 1] == idx[k + 1];
      } else {
        assert c'[k] == c[m - 3] && c'[k + 1] == c[m - 1] && idx'[k] == idx[m - 3] && idx'[k + 1] == idx[m - 1];
        MergedEdge(idx, c, s, j);
      }
    }
  }

  /** The edge that replaces the last two after a pop. */
  lemma MergedEdge(idx: seq<int>, c: seq<Point>, s: seq<Point>, j: int)
    requires |c| >= 3 && Embeds(idx, c, s) && LexMonotone(s)
    requires EdgesCover(idx, c, s)
    requires !RightTurn(c[|c| - 3], c[|c| - 2], c[|c| - 1])
    requires idx[|c| - 3] <= j <= idx[|c| - 1]
    ensures !RightTurn(c[|c| - 3], s[j], c[|c| - 1])
  {
    var m := |c|;
    var a, b, e, p := c[m - 3], c[m - 2], c[m - 1], s[j];
    var ia, ib, ie := idx[m - 3], idx[m - 2], idx[m - 1];
    assert a == s[ia] && b == s[ib] && e == s[ie] && ia < ib < ie;
    if j <= ib {
      var k := m - 3;
      assert !RightTurn(c[k], s[j], c[k + 1]);
      if LexSorted(s) {
        assert LexLe(a, p) && LexLe(p, b) && LexLe(b, e);
        MergeFirst(a, p, b, e);
      } else {
        assert LexLe(p, a) && LexLe(b, p) && LexLe(e, b);
        MergeFirstDesc(a, p, b, e);
      }
    } else {
      var k := m - 2;
      assert !RightTurn(c[k], s[j], c[k + 1]);
      if LexSorted(s) {
        assert LexLe(a, b) && LexLe(b, p) && LexLe(p, e);
        MergeSecond(a, b, p, e);
      } else {
        assert LexLe(b, a) && LexLe(p, b) && LexLe(e, p);
        MergeSecondDesc(a, b, p, e);
      }
    }
  }

  /** With s in (x, y) order, a point spanned by two neighbouring chain points,
      and equal to neither, sits strictly between their positions. */
  lemma CoverSpans(idx: seq<int>, c: seq<Point>, s: seq<Point>)
    requires Embeds(idx, c, s) && LexMonotone(s)
    requires EdgesCover(idx, c, s)
    ensures SpansBounded(c, s)
  {
    forall k, j | 0 <= k < |c| - 1 && 0 <= j < |s| && Spans(c[k], s[j], c[k + 1])
      ensures !RightTurn(c[k], s[j], c[k + 1])
    {
      if s[j] != c[k] && s[j] != c[k + 1] {
        SpannedBetween(idx, c, s, k, j);
      }
    }
  }

  lemma SpannedBetween(idx: seq<int>, c: seq<Point>, s: seq<Point>, k: int, j: int)
    requires Embeds(idx, c, s) && LexMonotone(s)
    requires 0 <= k < |c| - 1 && 0 <= j < |s|
    requires Spans(c[k], s[j], c[k + 1]) && s[j] != c[k] && s[j] != c[k + 1]
    ensures idx[k] < j < idx[k + 1]
  {
    assert c[k] == s[idx[k]] && c[k + 1] == s[idx[k + 1]] && idx[k] < idx[k + 1];
  }

  // ---------------------------------------------------------------------
  // Why a pop keeps every covered point inside: the plane geometry
  // ---------------------------------------------------------------------

  /** The arithmetic of MergeFirst, with `a` moved to the origin. */
  lemma MergeFirstArith(px: real, py: real, qx: real, qy: real, rx: real, ry: real)
    requires 0.0 <= px <= qx <= rx
    requires qx == 0.0 ==> 0.0 <= py <= qy
    requires py * qx - px * qy <= 0.0
    requires qy * rx - qx * ry <= 0.0
    ensures py * rx - px * ry <= 0.0
  {
    if qx > 0.0 {
      assert (py * qx - px * qy) * rx <= 0.0;
      assert (qy * rx - qx * ry) * px <= 0.0;
      assert qx * (py * rx - px * ry) == (py * qx - px * qy) * rx + (qy * rx - qx * ry) * px;
    } else {
      assert px == 0.0;
      assert py * rx <= qy * rx;
    }
  }

  /** The arithmetic of MergeSecond, with `a` moved to the origin. */
  lemma MergeSecondArith(qx: real, qy: real, px: real, py: real, rx: real, ry: real)
    requires 0.0 <= qx <= px <= rx
    requires px == rx ==> py <= ry
    requires (py - qy) * (rx - qx) - (px - qx) * (ry - qy) <= 0.0
    requires qy * rx - qx * ry <= 0.0
    ensures py * rx - px * ry <= 0.0
  {
    var dx, dy, ex, ey := rx - qx, ry - qy, px - qx, py - qy;
    var g := qy * rx - qx * ry;
    if dx > 0.0 {
      assert (ey * dx - ex * dy) * rx <= 0.0;
      assert (dx - ex) * g <= 0.0;
      assert dx * (py * rx - px * ry) == (ey * dx - ex * dy) * rx + (dx - ex) * g;
    } else {
      assert px == rx;
      assert py * rx - px * ry == rx * (py - ry);
      assert rx * (py - ry) <= 0.0;
    }
  }

  /** For a <= p <= b <= c in (x, y) order: if p is on or inside the edge a-b, and
      b on or inside a-c, then p is on or inside a-c. */
  lemma MergeFirst(a: Point, p: Point, b: Point, c: Point)
    requires LexLe(a, p) && LexLe(p, b) && LexLe(b, c)
    requires !RightTurn(a, p, b) && !RightTurn(a, b, c)
    ensures !RightTurn(a, p, c)
  {
    RightTurnClosed(a, p, b);
    RightTurnClosed(a, b, c);
    RightTurnClosed(a, p, c);
    MergeFirstArith(p.x - a.x, p.y - a.y, b.x - a.x, b.y - a.y, c.x - a.x, c.y - a.y);
  }

  /** For a <= b <= p <= c in (x, y) order: if p is on or inside the edge b-c, and
      b on or inside a-c, then p is on or inside a-c. */
  lemma MergeSecond(a: Point, b: Point, p: Point, c: Point)
    requires LexLe(a, b) && LexLe(b, p) && LexLe(p, c)
    requires !RightTurn(b, p, c) && !RightTurn(a, b, c)
    ensures !RightTurn(a, p, c)
  {
    RightTurnClosed(b, p, c);
    RightTurnClosed(a, b, c);
    RightTurnClosed(a, p, c);
    var qx, qy, px, py, rx, ry := b.x - a.x, b.y - a.y, p.x - a.x, p.y - a.y, c.x - a.x, c.y - a.y;
    assert p.y - b.y == py - qy && c.x - b.x == rx - qx && p.x - b.x == px - qx && c.y - b.y == ry - qy;
    MergeSecondArith(qx, qy, px, py, rx, ry);
  }

  /** The point mirrored through the origin. */
  function Neg(p: Point): Point
  {
    Point(-p.x, -p.y)
  }

  /** Mirroring through the origin reverses the (x, y) order and keeps every turn. */
  lemma NegFlips(p: Point, q: Point, r: Point)
    ensures LexLe(Neg(p), Neg(q)) <==> LexLe(q, p)
    ensures RightTurn(Neg(p), Neg(q), Neg(r)) <==> RightTurn(p, q, r)
  {
    RightTurnClosed(p, q, r);
    RightTurnClosed(Neg(p), Neg(q), Neg(r));
    var ux, uy, vx, vy := q.x - p.x, q.y - p.y, r.x - p.x, r.y - p.y;
    assert (-uy) * (-vx) == uy * vx && (-ux) * (-vy) == ux * vy;
  }

  lemma MergeFirstDesc(a: Point, p: Point, b: Point, c: Point)
    requires LexLe(p, a) && LexLe(b, p) && LexLe(c, b)
    requires !RightTurn(a, p, b) && !RightTurn(a, b, c)
    ensures !RightTurn(a, p, c)
  {
    NegFlips(p, a, b);
    NegFlips(b, p, c);
    NegFlips(c, b, a);
    NegFlips(a, p, b);
    NegFlips(a, b, c);
    NegFlips(a, p, c);
    MergeFirst(Neg(a), Neg(p), Neg(b), Neg(c));
  }

  lemma MergeSecondDesc(a: Point, b: Point, p: Point, c: Point)
    requires LexLe(b, a) && LexLe(p, b) && LexLe(c, p)
    requires !RightTurn(b, p, c) && !RightTurn(a, b, c)
    ensures !RightTurn(a, p, c)
  {
    NegFlips(b, a, c);
    NegFlips(p, b, c);
    NegFlips(c, p, a);
    NegFlips(b, p, c);
    NegFlips(a, b, c);
    NegFlips(a, p, c);
    MergeSecond(Neg(a), Neg(b), Neg(p), Neg(c));
  }

  /** The shape of a hull returned by points_convex_hull: the upper chain over the
      sorted points, followed by the interior of the lower chain, which runs over
      the sorted points in reverse and so starts where the upper chain ends and
      ends where it starts. */
  ghost predicate IsHullOutline(hull: seq<Point>, xsorted: seq<Point>)
  {
    && |xsorted| >= 2
    && exists u :: (2 <= u <= |hull|
      && IsChainOver(hull[..u], xsorted)
      && IsChainOver([xsorted[|xsorted| - 1]] + hull[u..] + [xsorted[0]], Reverse(xsorted)))
  }

  /** The joined outline the two passes produce: the upper chain, then the lower
      chain without its two end points. The reference definition of JoinedChains. */
  function HullOf(xsorted: seq<Point>): (hull: seq<Point>)
    requires |xsorted| >= 2
    ensures |hull| >= 2 && hull[0] == xsorted[0]
  {
    var upper, lower := ChainOf(xsorted), ChainOf(Reverse(xsorted));
    upper + lower[1..|lower| - 1]
  }

  /** The vertex after the k-th, wrapping round to the first. */
  function NextVertex(hull: seq<Point>, k: int): Point
    requires 0 <= k < |hull|
  {
    if k + 1 < |hull| then hull[k + 1] else hull[0]
  }

  /** No point lies strictly outside an outline edge whose end points span it in
      the (x, y) order. For a convex outline in (x, y) order this is the
      enclosure a convex hull promises, edge by edge. */
  predicate EdgesBound(hull: seq<Point>, pts: seq<Point>)
  {
    forall k, j {:trigger Spans(hull[k], pts[j], NextVertex(hull, k))} ::
      0 <= k < |hull| && 0 <= j < |pts| && Spans(hull[k], pts[j], NextVertex(hull, k)) ==>
        !RightTurn(hull[k], pts[j], NextVertex(hull, k))
  }

  /** points_convex_hull. The input is passed by value, so it cannot change; the
      sorted copy is a parameter because qsort may order equal-x points either way. */
  method ConvexHull(pts: seq<Point>, n: int, xsorted: seq<Point>) returns (count: int, hull: seq<Point>)
    requires n <= |pts|
    requires n >= 2 ==> IsXSortedCopy(xsorted, pts[..n])
    ensures n < 0 ==> count == -1 && hull == []
    ensures n >= 0 ==> count == |hull|
    ensures n == 0 ==> hull == []
    ensures n == 1 ==> hull == [pts[0]]
    ensures n >= 2 ==> count >= 2 && IsHullOutline(hull, xsorted)
    ensures n >= 2 ==> hull == HullOf(xsorted)
    ensures n >= 2 && LexSorted(xsorted) ==> EdgesBound(hull, xsorted) && count <= n
    ensures n >= 1 ==> forall k :: 0 <= k < |hull| ==> hull[k] in pts[..n]
    ensures n >= 1 ==> forall k :: 0 <= k < n ==> hull[0].x <= pts[k].x
  {
    if n < 0 {
      return -1, [];
    }
    if n == 0 {
      return 0, [];
    }
    if n == 1 {
      return 1, [pts[0]];
    }
    SortedCopyLength(xsorted, pts[..n]);
    count, hull := JoinedChains(xsorted);
    OutlineFromInput(hull, xsorted, pts[..n]);
    forall k | 0 <= k < n
      ensures hull[0].x <= pts[k].x
    {
      assert pts[k] == pts[..n][k];
    }
  }

  /** points_convex_hull with a comparator that breaks equal x by y: the
      corrected sort. Then no input point lies outside the outline edge that spans
      it. */
  method ConvexHullByXY(pts: seq<Point>, n: int, sorted: seq<Point>) returns (count: int, hull: seq<Point>)
    requires n <= |pts|
    requires n >= 2 ==> IsLexSortedCopy(sorted, pts[..n])
    ensures n < 0 ==> count == -1 && hull == []
    ensures n >= 0 ==> count == |hull| <= n && EdgesBound(hull, pts[..n])
    ensures n == 0 ==> count == 0 && hull == []
    ensures n == 1 ==> hull == [pts[0]]
    ensures n >= 2 ==> |sorted| == n && hull == HullOf(sorted) && IsHullOutline(hull, sorted)
    ensures n >= 1 ==> forall k :: 0 <= k < |hull| ==> hull[k] in pts[..n]
    ensures n >= 1 ==> forall k :: 0 <= k < n ==> hull[0].x <= pts[k].x
  {
    if n >= 2 {
      LexCopyIsXCopy(sorted, pts[..n]);
      SortedCopyLength(sorted, pts[..n]);
    }
    count, hull := ConvexHull(pts, n, sorted);
    if n >= 2 {
      TransferBound(hull, sorted, pts[..n]);
    } else if n == 1 {
      SinglePointBound(pts[0], pts[..1]);
    }
  }

  /** A one-point outline: its only edge is the point itself, which spans only itself. */
  lemma SinglePointBound(p: Point, pts: seq<Point>)
    ensures EdgesBound([p], pts)
  {
    forall k, j | 0 <= k < 1 && 0 <= j < |pts| && Spans([p][k], pts[j], NextVertex([p], k))
      ensures !RightTurn([p][k], pts[j], NextVertex([p], k))
    {
      assert [p][k] == p && NextVertex([p], k) == p;
      assert pts[j] == p;
    }
  }

  /** With points_compare_x alone, qsort may leave equal-x points in input order.
      Here the input is already so ordered; the upper pass pops (0, 2) as the
      middle of a straight triple, and the lower pass pops it again, so the
      outline passes below it. */
  lemma TiedXDropsPoint(pts: seq<Point>)
    requires pts == [Point(0.0, 0.0), Point(0.0, 2.0), Point(0.0, 1.0), Point(1.0, 1.0)]
    ensures IsXSortedCopy(pts, pts)
    ensures HullOf(pts) == [pts[0], pts[2], pts[3]]
    ensures !EdgesBound(HullOf(pts), pts)
  {
    var a, b, c, d := pts[0], pts[1], pts[2], pts[3];
    assert pts == [a, b, c, d];
    TiedTurns(a, b, c, d);
    TiedUpper(a, b, c, d);
    TiedLower(a, b, c, d);
    TiedHull(a, b, c, d);
    TiedOutside(a, b, c, d);
    TiedSorted(a, b, c, d);
  }

  /** The turns the two passes test on the example. */
  lemma TiedTurns(a: Point, b: Point, c: Point, d: Point)
    requires a == Point(0.0, 0.0) && b == Point(0.0, 2.0) && c == Point(0.0, 1.0) && d == Point(1.0, 1.0)
    ensures !RightTurn(a, b, c) && RightTurn(a, c, d)
    ensures RightTurn(d, c, b) && !RightTurn(c, b, a) && !RightTurn(d, c, a)
    ensures RightTurn(c, b, d) && LexLe(c, b) && LexLe(b, d)
  {
    RightTurnClosed(a, b, c);
    RightTurnClosed(a, c, d);
    RightTurnClosed(d, c, b);
    RightTurnClosed(c, b, a);
    RightTurnClosed(d, c, a);
    RightTurnClosed(c, b, d);
  }

  lemma TiedUpper(a: Point, b: Point, c: Point, d: Point)
    requires !RightTurn(a, b, c) && RightTurn(a, c, d)
    ensures ChainOf([a, b, c, d]) == [a, c, d]
  {
    var pts := [a, b, c, d];
    assert ChainUpTo(pts, 2) == [a, b];
    PrunePops([a, b, c]);
    assert [a, b, c][..1] + [c] == [a, c];
    PruneKeeps([a, c]);
    assert ChainUpTo(pts, 3) == [a, c];
    PruneKeeps([a, c, d]);
  }

  lemma TiedLower(a: Point, b: Point, c: Point, d: Point)
    requires RightTurn(d, c, b) && !RightTurn(c, b, a) && !RightTurn(d, c, a)
    ensures ChainOf(Reverse([a, b, c, d])) == [d, a]
  {
    var rev := Reverse([a, b, c, d]);
    assert rev == [d, c, b, a];
    assert ChainUpTo(rev, 2) == [d, c];
    PruneKeeps([d, c, b]);
    assert ChainUpTo(rev, 3) == [d, c, b];
    PrunePops([d, c, b, a]);
    assert [d, c, b, a][..2] + [a] == [d, c, a];
    PrunePops([d, c, a]);
    assert [d, c, a][..1] + [a] == [d, a];
    PruneKeeps([d, a]);
    assert ChainOf(rev) == Prune(ChainUpTo(rev, 3) + [rev[3]]);
  }

  lemma TiedHull(a: Point, b: Point, c: Point, d: Point)
    requires ChainOf([a, b, c, d]) == [a, c, d] && ChainOf(Reverse([a, b, c, d])) == [d, a]
    ensures HullOf([a, b, c, d]) == [a, c, d]
  {
    assert HullOf([a, b, c, d]) == [a, c, d] + [d, a][1..1];
  }

  /** (0, 2) lies outside the edge from (0, 1) to (1, 1), which spans it. */
  lemma TiedOutside(a: Point, b: Point, c: Point, d: Point)
    requires LexLe(c, b) && LexLe(b, d) && RightTurn(c, b, d)
    ensures !EdgesBound([a, c, d], [a, b, c, d])
  {
    var pts, hull := [a, b, c, d], [a, c, d];
    assert hull[1] == c && pts[1] == b && NextVertex(hull, 1) == d;
    assert Spans(hull[1], pts[1], NextVertex(hull, 1));
  }

  /** The example is already in points_compare_x order. */
  lemma TiedSorted(a: Point, b: Point, c: Point, d: Point)
    requires a.x == 0.0 && b.x == 0.0 && c.x == 0.0 && d.x == 1.0
    ensures IsXSortedCopy([a, b, c, d], [a, b, c, d])
  {
  }

  lemma PrunePops(c: seq<Point>)
    requires |c| > 2 && !RightTurn(c[|c| - 3], c[|c| - 2], c[|c| - 1])
    ensures Prune(c) == Prune(c[..|c| - 2] + [c[|c| - 1]])
  {
  }

  lemma PruneKeeps(c: seq<Point>)
    requires |c| > 2 ==> RightTurn(c[|c| - 3], c[|c| - 2], c[|c| - 1])
    ensures Prune(c) == c
  {
  }

  lemma SortedCopyLength(sorted: seq<Point>, s: seq<Point>)
    requires IsXSortedCopy(sorted, s)
    ensures |sorted| == |s|
  {
    assert |sorted| == |multiset(sorted)| == |multiset(s)| == |s|;
  }

  /** The part of points_convex_hull after the sort: both pruning passes and the
      concatenation, returning ui + li - 2 and the joined points. */
  method JoinedChains(xsorted: seq<Point>) returns (count: int, hull: seq<Point>)
    requires |xsorted| >= 2
    ensures count == |hull| && IsHullOutline(hull, xsorted)
    ensures hull == HullOf(xsorted)
    ensures LexSorted(xsorted) ==> EdgesBound(hull, xsorted)
    ensures LexSorted(xsorted) ==> count <= |xsorted|
  {
    var upper := BuildChain(xsorted);
    var lower := BuildChain(Reverse(xsorted));
    hull := upper + lower[1..|lower| - 1];
    count := |upper| + |lower| - 2;
    OutlineOfChains(upper, lower, xsorted);
    if LexSorted(xsorted) {
      ReverseLexSorted(xsorted);
      JoinBound(upper, lower, xsorted);
      HullLength(xsorted);
    }
  }

  /** Joining two bounded chains bounds every edge of the outline, the closing
      edge included. */
  lemma JoinBound(upper: seq<Point>, lower: seq<Point>, xsorted: seq<Point>)
    requires |xsorted| >= 2 && |upper| >= 2 && |lower| >= 2
    requires upper[0] == xsorted[0] && upper[|upper| - 1] == xsorted[|xsorted| - 1]
    requires lower[0] == xsorted[|xsorted| - 1] && lower[|lower| - 1] == xsorted[0]
    requires SpansBounded(upper, xsorted) && SpansBounded(lower, Reverse(xsorted))
    ensures EdgesBound(upper + lower[1..|lower| - 1], xsorted)
  {
    var hull := upper + lower[1..|lower| - 1];
    var u, n := |upper|, |xsorted|;
    var rev := Reverse(xsorted);
    forall k, j | 0 <= k < |hull| && 0 <= j < n && Spans(hull[k], xsorted[j], NextVertex(hull, k))
      ensures !RightTurn(hull[k], xsorted[j], NextVertex(hull, k))
    {
      if k < u - 1 {
        assert hull[k] == upper[k] && NextVertex(hull, k) == upper[k + 1];
        assert Spans(upper[k], xsorted[j], upper[k + 1]);
      } else {
        var t := k - u + 1;
        assert hull[k] == lower[t] && NextVertex(hull, k) == lower[t + 1];
        var j' := n - 1 - j;
        assert rev[j'] == xsorted[j];
        assert Spans(lower[t], rev[j'], lower[t + 1]);
      }
    }
  }

  /** A bound over the sorted copy is a bound over the input it permutes. */
  lemma TransferBound(hull: seq<Point>, sorted: seq<Point>, pts: seq<Point>)
    requires multiset(sorted) == multiset(pts)
    requires EdgesBound(hull, sorted)
    ensures EdgesBound(hull, pts)
  {
    forall k, j | 0 <= k < |hull| && 0 <= j < |pts| && Spans(hull[k], pts[j], NextVertex(hull, k))
      ensures !RightTurn(hull[k], pts[j], NextVertex(hull, k))
    {
      assert pts[j] in multiset(sorted);
      var j' :| 0 <= j' < |sorted| && sorted[j'] == pts[j];
      assert Spans(hull[k], sorted[j'], NextVertex(hull, k));
    }
  }

  // ---------------------------------------------------------------------
  // Convexity of a chain, and why the hull has at most n points
  // ---------------------------------------------------------------------

  /** The arithmetic of ConvexStep, with `a` moved to the origin. */
  lemma ConvexStepArith(b1: real, b2: real, c1: real, c2: real, d1: real, d2: real)
    requires 0.0 <= b1 <= c1 <= d1
    requires c1 == b1 ==> b2 <= c2
    requires b2 * c1 - b1 * c2 > 0.0
    requires (c2 - b2) * (d1 - b1) - (c1 - b1) * (d2 - b2) > 0.0
    ensures b2 * d1 - b1 * d2 > 0.0
    ensures c2 * d1 - c1 * d2 > 0.0
  {
    var ebc, ebd, ecd := b2 * c1 - b1 * c2, b2 * d1 - b1 * d2, c2 * d1 - c1 * d2;
    var h := (c2 - b2) * (d1 - b1) - (c1 - b1) * (d2 - b2);
    if c1 == b1 {
      ProductNonPositive(b1, b2 - c2);
      assert false;
    }
    assert h == ecd + ebc - ebd;
    assert ebd * (c1 - b1) == ebc * (d1 - b1) + b1 * h;
    assert ecd * (c1 - b1) == ebc * (d1 - c1) + c1 * h;
    ProductPositive(ebc, d1 - b1);
    ProductNonNegative(b1, h);
    ProductNonNegative(ebc, d1 - c1);
    ProductPositive(c1, h);
    PositiveFactor(ebd, c1 - b1);
    PositiveFactor(ecd, c1 - b1);
  }

  lemma ProductNonPositive(a: real, b: real)
    requires a >= 0.0 && b <= 0.0
    ensures a * b <= 0.0
  {
  }

  lemma ProductNonNegative(a: real, b: real)
    requires a >= 0.0 && b >= 0.0
    ensures a * b >= 0.0
  {
  }

  lemma ProductPositive(a: real, b: real)
    requires a > 0.0 && b > 0.0
    ensures a * b > 0.0
  {
  }

  lemma PositiveFactor(a: real, b: real)
    requires b > 0.0 && a * b > 0.0
    ensures a > 0.0
  {
    if a <= 0.0 {
      ProductNonPositive(b, a);
    }
  }

  /** For a <= b <= c <= d in (x, y) order: if a, b, c and b, c, d turn right,
      then so do a, b, d and a, c, d. */
  lemma ConvexStep(a: Point, b: Point, c: Point, d: Point)
    requires LexLe(a, b) && LexLe(b, c) && LexLe(c, d)
    requires RightTurn(a, b, c) && RightTurn(b, c, d)
    ensures RightTurn(a, b, d) && RightTurn(a, c, d)
  {
    RightTurnClosed(a, b, c);
    RightTurnClosed(b, c, d);
    RightTurnClosed(a, b, d);
    RightTurnClosed(a, c, d);
    var b1, b2, c1, c2, d1, d2 := b.x - a.x, b.y - a.y, c.x - a.x, c.y - a.y, d.x - a.x, d.y - a.y;
    assert c.y - b.y == c2 - b2 && d.x - b.x == d1 - b1 && c.x - b.x == c1 - b1 && d.y - b.y == d2 - b2;
    ConvexStepArith(b1, b2, c1, c2, d1, d2);
  }

  lemma ConvexStepDesc(a: Point, b: Point, c: Point, d: Point)
    requires LexLe(b, a) && LexLe(c, b) && LexLe(d, c)
    requires RightTurn(a, b, c) && RightTurn(b, c, d)
    ensures RightTurn(a, b, d) && RightTurn(a, c, d)
  {
    NegFlips(b, a, c);
    NegFlips(c, b, d);
    NegFlips(d, c, a);
    NegFlips(a, b, c);
    NegFlips(b, c, d);
    NegFlips(a, b, d);
    NegFlips(a, c, d);
    ConvexStep(Neg(a), Neg(b), Neg(c), Neg(d));
  }

  /** ConvexStep on four points of a chain in either (x, y) order. */
  lemma ChainConvexStep(c: seq<Point>, i: int, j: int, k: int, l: int)
    requires LexMonotone(c) && 0 <= i < j < k < l < |c|
    requires RightTurn(c[i], c[j], c[k]) && RightTurn(c[j], c[k], c[l])
    ensures RightTurn(c[i], c[j], c[l]) && RightTurn(c[i], c[k], c[l])
  {
    if LexSorted(c) {
      ConvexStep(c[i], c[j], c[k], c[l]);
    } else {
      ConvexStepDesc(c[i], c[j], c[k], c[l]);
    }
  }

  /** A chain in (x, y) order that turns right at every interior point is
      convex: every three of its points, taken in order, turn right. */
  lemma {:induction false} ChainConvex(c: seq<Point>, i: int, j: int, k: int)
    requires LexMonotone(c) && AllRightTurns(c)
    requires 0 <= i < j < k < |c|
    ensures RightTurn(c[i], c[j], c[k])
    decreases k - i
  {
    if k == i + 2 {
      assert RightTurn(c[i], c[i + 1], c[i + 2]);
    } else if j < k - 1 {
      ChainConvex(c, i, j, k - 1);
      ChainConvex(c, j, k - 1, k);
      ChainConvexStep(c, i, j, k - 1, k);
    } else {
      ChainConvex(c, i, i + 1, j);
      ChainConvex(c, i + 1, j, k);
      ChainConvexStep(c, i, i + 1, j, k);
    }
  }

  lemma {:induction false} IncreasingBetween(idx: seq<int>, a: int, b: int)
    requires forall k :: 0 <= k < |idx| - 1 ==> idx[k] < idx[k + 1]
    requires 0 <= a < b < |idx|
    ensures idx[a] < idx[b]
    decreases b - a
  {
    if b > a + 1 {
      IncreasingBetween(idx, a, b - 1);
      assert idx[b - 1] < idx[b];
    }
  }

  /** A subsequence of points in (x, y) order is in that order too. */
  lemma EmbeddedMonotone(idx: seq<int>, t: seq<Point>, s: seq<Point>)
    requires Embeds(idx, t, s) && LexMonotone(s)
    ensures LexMonotone(t)
    ensures LexSorted(s) ==> LexSorted(t)
  {
    forall a, b | 0 <= a < b < |t|
      ensures idx[a] < idx[b]
    {
      IncreasingBetween(idx, a, b);
    }
  }

  /** An interior point of a convex chain from the first to the last point of s
      sits at an interior position of s, strictly left of the chord. */
  lemma ChordSide(idx: seq<int>, c: seq<Point>, s: seq<Point>, k: int)
    requires Embeds(idx, c, s) && LexMonotone(c) && AllRightTurns(c)
    requires |s| >= 2 && |c| >= 2 && c[0] == s[0] && c[|c| - 1] == s[|s| - 1] && idx[|idx| - 1] == |s| - 1
    requires 0 < k < |c| - 1
    ensures 0 < idx[k] < |s| - 1 && RightTurn(s[0], s[idx[k]], s[|s| - 1])
  {
    IncreasingBetween(idx, 0, k);
    IncreasingBetween(idx, k, |idx| - 1);
    ChainConvex(c, 0, k, |c| - 1);
  }

  /** The positions with x in t. */
  ghost function Positions(t: seq<int>): set<int>
  {
    set x | x in t
  }

  lemma {:induction false} DistinctPositions(t: seq<int>)
    requires forall a, b :: 0 <= a < b < |t| ==> t[a] != t[b]
    ensures |Positions(t)| == |t|
  {
    if |t| > 0 {
      var u := t[..|t| - 1];
      DistinctPositions(u);
      assert Positions(t) == Positions(u) + {t[|t| - 1]};
      assert t[|t| - 1] !in Positions(u);
    }
  }

  /** A set of integers within [lo, hi) has at most hi - lo members. */
  lemma {:induction false} BoundedSize(a: set<int>, lo: int, hi: int)
    requires lo <= hi
    requires forall x :: x in a ==> lo <= x < hi
    ensures |a| <= hi - lo
    decreases hi - lo
  {
    if lo == hi {
      assert a == {};
    } else {
      BoundedSize(a - {hi - 1}, lo, hi - 1);
    }
  }

  /** The positions in s of the pass's interior chain points, in increasing
      order, all strictly left of the chord from the first to the last point of s. */
  lemma InteriorPositions(s: seq<Point>) returns (ps: seq<int>)
    requires |s| >= 2 && LexMonotone(s)
    ensures |ps| == |ChainOf(s)| - 2
    ensures forall a, b :: 0 <= a < b < |ps| ==> ps[a] < ps[b]
    ensures forall a :: 0 <= a < |ps| ==> 0 < ps[a] < |s| - 1 && RightTurn(s[0], s[ps[a]], s[|s| - 1])
  {
    var c, idx := ChainOf(s), ChainIdx(s, |s|);
    ChainEmbeds(s, |s|);
    ChainTurns(s, |s|);
    EmbeddedMonotone(idx, c, s);
    ps := InteriorOf(idx, c, s);
  }

  /** The interior positions of a convex chain from the first to the last point of s. */
  lemma InteriorOf(idx: seq<int>, c: seq<Point>, s: seq<Point>) returns (ps: seq<int>)
    requires Embeds(idx, c, s) && LexMonotone(c) && AllRightTurns(c)
    requires |s| >= 2 && |c| >= 2 && c[0] == s[0] && c[|c| - 1] == s[|s| - 1] && idx[|idx| - 1] == |s| - 1
    ensures |ps| == |c| - 2
    ensures forall a, b :: 0 <= a < b < |ps| ==> ps[a] < ps[b]
    ensures forall a :: 0 <= a < |ps| ==> 0 < ps[a] < |s| - 1 && RightTurn(s[0], s[ps[a]], s[|s| - 1])
  {
    ps := idx[1..|idx| - 1];
    forall a, b | 0 <= a < b < |ps|
      ensures ps[a] < ps[b]
    {
      IncreasingBetween(idx, a + 1, b + 1);
    }
    forall a | 0 <= a < |ps|
      ensures 0 < ps[a] < |s| - 1 && RightTurn(s[0], s[ps[a]], s[|s| - 1])
    {
      ChordSide(idx, c, s, a + 1);
    }
  }

  /** Two sequences without repeats and without a common member join into one
      without repeats. */
  lemma JoinDistinct(u: seq<int>, v: seq<int>)
    requires forall a, b :: 0 <= a < b < |u| ==> u[a] != u[b]
    requires forall a, b :: 0 <= a < b < |v| ==> v[a] != v[b]
    requires forall a, b :: 0 <= a < |u| && 0 <= b < |v| ==> u[a] != v[b]
    ensures forall a, b :: 0 <= a < b < |u + v| ==> (u + v)[a] != (u + v)[b]
  {
    var w := u + v;
    forall a, b | 0 <= a < b < |w|
      ensures w[a] != w[b]
    {
      if b < |u| {
        assert w[a] == u[a] && w[b] == u[b];
      } else if a < |u| {
        assert w[a] == u[a] && w[b] == v[b - |u|];
      } else {
        assert w[a] == v[a - |u|] && w[b] == v[b - |u|];
      }
    }
  }

  /** For points in (x, y) order the two passes keep disjoint sets of interior
      positions: the upper chain's lie left of the chord from the first to the
      last sorted point and the lower chain's right of it. So the joined hull has
      at most one point per sorted point. */
  lemma HullLength(s: seq<Point>)
    requires |s| >= 2 && LexSorted(s)
    ensures |HullOf(s)| <= |s|
  {
    var n, r := |s|, Reverse(s);
    ReverseLexSorted(s);
    var up := InteriorPositions(s);
    var rev := InteriorPositions(r);
    var down := seq(|rev|, i requires 0 <= i < |rev| => n - 1 - rev[i]);
    forall b | 0 <= b < |down|
      ensures 0 < down[b] < n - 1 && RightTurn(s[n - 1], s[down[b]], s[0])
    {
      assert r[0] == s[n - 1] && r[rev[b]] == s[down[b]] && r[n - 1] == s[0];
    }
    forall a, b | 0 <= a < |up| && 0 <= b < |down|
      ensures up[a] != down[b]
    {
      RightTurnRotateReverse(s[n - 1], s[down[b]], s[0]);
    }
    JoinDistinct(up, down);
    var w := up + down;
    DistinctPositions(w);
    BoundedSize(Positions(w), 1, n - 1);
  }

  /** Joining the two chains as the source does gives a hull outline. */
  lemma OutlineOfChains(upper: seq<Point>, lower: seq<Point>, xsorted: seq<Point>)
    requires IsChainOver(upper, xsorted)
    requires IsChainOver(lower, Reverse(xsorted))
    ensures IsHullOutline(upper + lower[1..|lower| - 1], xsorted)
  {
    var n := |xsorted|;
    var hull := upper + lower[1..|lower| - 1];
    var u := |upper|;
    assert hull[..u] == upper;
    assert hull[u..] == lower[1..|lower| - 1];
    assert [xsorted[n - 1]] + hull[u..] + [xsorted[0]] == lower;
  }

  /** Every point of an outline is one of the sorted points. */
  lemma OutlineMembers(hull: seq<Point>, xsorted: seq<Point>)
    requires IsHullOutline(hull, xsorted)
    ensures |hull| >= 2 && hull[0] == xsorted[0]
    ensures forall k :: 0 <= k < |hull| ==> hull[k] in xsorted
  {
    var u := OutlineSplit(hull, xsorted);
    SplitMembers(hull, xsorted, u);
  }

  lemma SplitMembers(hull: seq<Point>, xsorted: seq<Point>, u: int)
    requires 2 <= u <= |hull| && |xsorted| >= 2
    requires IsSubsequence(hull[..u], xsorted)
    requires IsSubsequence([xsorted[|xsorted| - 1]] + hull[u..] + [xsorted[0]], Reverse(xsorted))
    ensures forall k :: 0 <= k < |hull| ==> hull[k] in xsorted
  {
    var n := |xsorted|;
    var upper := hull[..u];
    var lower := [xsorted[n - 1]] + hull[u..] + [xsorted[0]];
    SubsequenceMembers(upper, xsorted);
    SubsequenceMembers(lower, Reverse(xsorted));
    forall k | 0 <= k < |hull|
      ensures hull[k] in xsorted
    {
      if k < u {
        assert hull[k] == upper[k];
      } else {
        assert hull[k] == lower[k - u + 1];
        ReverseMember(xsorted, hull[k]);
      }
    }
  }

  /** The index where an outline's upper chain ends, with the facts about the two
      chains that the other lemmas use. */
  lemma OutlineSplit(hull: seq<Point>, xsorted: seq<Point>) returns (u: int)
    requires IsHullOutline(hull, xsorted)
    ensures 2 <= u <= |hull| && |xsorted| >= 2
    ensures hull[0] == xsorted[0] && hull[u - 1] == xsorted[|xsorted| - 1]
    ensures IsSubsequence(hull[..u], xsorted)
    ensures IsSubsequence([xsorted[|xsorted| - 1]] + hull[u..] + [xsorted[0]], Reverse(xsorted))
  {
    var n := |xsorted|;
    u :| 2 <= u <= |hull|
      && IsChainOver(hull[..u], xsorted)
      && IsChainOver([xsorted[n - 1]] + hull[u..] + [xsorted[0]], Reverse(xsorted));
    ChainOverEnds(hull[..u], xsorted);
    assert hull[0] == hull[..u][0] && hull[u - 1] == hull[..u][u - 1];
  }

  lemma ChainOverEnds(c: seq<Point>, s: seq<Point>)
    requires IsChainOver(c, s)
    ensures |c| >= 2 && c[0] == s[0] && c[|c| - 1] == s[|s| - 1] && IsSubsequence(c, s)
  {
  }

  lemma ReverseMember(s: seq<Point>, p: Point)
    requires p in Reverse(s)
    ensures p in s
  {
    var j :| 0 <= j < |s| && Reverse(s)[j] == p;
    assert s[|s| - 1 - j] == p;
  }

  /** Every point of an outline is an input point, and the outline starts at a
      point of least x. */
  lemma OutlineFromInput(hull: seq<Point>, xsorted: seq<Point>, pts: seq<Point>)
    requires IsHullOutline(hull, xsorted)
    requires IsXSortedCopy(xsorted, pts)
    ensures |hull| >= 2
    ensures forall k :: 0 <= k < |hull| ==> hull[k] in pts
    ensures forall k :: 0 <= k < |pts| ==> hull[0].x <= pts[k].x
  {
    OutlineMembers(hull, xsorted);
    forall k | 0 <= k < |hull|
      ensures hull[k] in pts
    {
      assert hull[k] in multiset(xsorted);
    }
    forall k | 0 <= k < |pts|
      ensures hull[0].x <= pts[k].x
    {
      assert pts[k] in multiset(xsorted);
      var j :| 0 <= j < |xsorted| && xsorted[j] == pts[k];
      if j > 0 {
        assert CompareX(xsorted[0], xsorted[j]) <= 0;
      }
    }
  }

  lemma SubsequenceMembers(t: seq<Point>, s: seq<Point>)
    requires IsSubsequence(t, s)
    ensures forall k :: 0 <= k < |t| ==> t[k] in s
  {
    var idx :| Embeds(idx, t, s);
    assert forall k :: 0 <= k < |t| ==> t[k] == s[idx[k]];
  }

  predicate XNondecreasing(c: seq<Point>)
  {
    forall k :: 0 <= k < |c| - 1 ==> c[k].x <= c[k + 1].x
  }

  predicate XNonincreasing(c: seq<Point>)
  {
    forall k :: 0 <= k < |c| - 1 ==> c[k].x >= c[k + 1].x
  }

  /** A chain over x-sorted points is x-monotone: it never steps left. This is
      what makes the two halves of the hull "monotone chains". */
  lemma ChainXMonotone(c: seq<Point>, s: seq<Point>)
    requires SortedByX(s)
    requires IsSubsequence(c, s)
    ensures XNondecreasing(c)
  {
    var idx :| Embeds(idx, c, s);
    forall k | 0 <= k < |c| - 1
      ensures c[k].x <= c[k + 1].x
    {
      assert c[k] == s[idx[k]] && c[k + 1] == s[idx[k + 1]];
      assert CompareX(s[idx[k]], s[idx[k + 1]]) <= 0;
    }
  }

  /** The same chain over the reversed order never steps right. */
  lemma ReverseChainXAntitone(c: seq<Point>, s: seq<Point>)
    requires SortedByX(s)
    requires IsSubsequence(c, Reverse(s))
    ensures XNonincreasing(c)
  {
    var r := Reverse(s);
    var idx :| Embeds(idx, c, r);
    forall k | 0 <= k < |c| - 1
      ensures c[k].x >= c[k + 1].x
    {
      var a, b := |s| - 1 - idx[k + 1], |s| - 1 - idx[k];
      assert c[k] == s[b] && c[k + 1] == s[a];
      assert CompareX(s[a], s[b]) <= 0;
    }
  }

  /** The hull climbs in x along the upper chain and then descends: it begins at
      a point of least x and turns back, at index u - 1, at a point of greatest x. */
  ghost predicate XProfileAt(hull: seq<Point>, xsorted: seq<Point>, u: int)
  {
    && 2 <= u <= |hull|
    && XNondecreasing(hull[..u])
    && XNonincreasing(hull[u - 1..])
    && (forall k :: 0 <= k < |xsorted| ==> hull[0].x <= xsorted[k].x <= hull[u - 1].x)
  }

  lemma HullXProfile(hull: seq<Point>, xsorted: seq<Point>)
    requires SortedByX(xsorted)
    requires IsHullOutline(hull, xsorted)
    ensures exists u :: XProfileAt(hull, xsorted, u)
  {
    var u := OutlineSplit(hull, xsorted);
    ProfileOfChains(hull, xsorted, u);
  }

  /** The x-profile at the index where the upper chain ends. */
  lemma ProfileOfChains(hull: seq<Point>, xsorted: seq<Point>, u: int)
    requires SortedByX(xsorted) && |xsorted| >= 2
    requires 2 <= u <= |hull|
    requires hull[0] == xsorted[0] && hull[u - 1] == xsorted[|xsorted| - 1]
    requires IsSubsequence(hull[..u], xsorted)
    requires IsSubsequence([xsorted[|xsorted| - 1]] + hull[u..] + [xsorted[0]], Reverse(xsorted))
    ensures XProfileAt(hull, xsorted, u)
  {
    ChainXMonotone(hull[..u], xsorted);
    LowerProfile(hull, xsorted, u);
    EndsAreExtremes(hull, xsorted, u);
  }

  /** From the turning point on, the hull follows the lower chain and never steps right. */
  lemma LowerProfile(hull: seq<Point>, xsorted: seq<Point>, u: int)
    requires SortedByX(xsorted) && |xsorted| >= 2
    requires 2 <= u <= |hull| && hull[u - 1] == xsorted[|xsorted| - 1]
    requires IsSubsequence([xsorted[|xsorted| - 1]] + hull[u..] + [xsorted[0]], Reverse(xsorted))
    ensures XNonincreasing(hull[u - 1..])
  {
    ReverseChainXAntitone([xsorted[|xsorted| - 1]] + hull[u..] + [xsorted[0]], xsorted);
    TailIsLowerPrefix(hull, u, xsorted[0]);
  }

  /** The hull from index u - 1 on is the lower chain without its last point. */
  lemma TailIsLowerPrefix(hull: seq<Point>, u: int, last: Point)
    requires 1 <= u <= |hull|
    ensures XNonincreasing([hull[u - 1]] + hull[u..] + [last]) ==> XNonincreasing(hull[u - 1..])
  {
    var lower := [hull[u - 1]] + hull[u..] + [last];
    if XNonincreasing(lower) {
      var t := hull[u - 1..];
      forall k | 0 <= k < |t| - 1
        ensures t[k].x >= t[k + 1].x
      {
        assert t[k] == lower[k] && t[k + 1] == lower[k + 1];
        assert lower[k].x >= lower[k + 1].x;
      }
    }
  }

  lemma EndsAreExtremes(hull: seq<Point>, xsorted: seq<Point>, u: int)
    requires SortedByX(xsorted) && |xsorted| >= 2
    requires 2 <= u <= |hull| && hull[0] == xsorted[0] && hull[u - 1] == xsorted[|xsorted| - 1]
    ensures forall k :: 0 <= k < |xsorted| ==> hull[0].x <= xsorted[k].x <= hull[u - 1].x
  {
    var n := |xsorted|;
    forall k | 0 <= k < n
      ensures hull[0].x <= xsorted[k].x <= hull[u - 1].x
    {
      if 0 < k {
        assert CompareX(xsorted[0], xsorted[k]) <= 0;
      }
      if k < n - 1 {
        assert CompareX(xsorted[k], xsorted[n - 1]) <= 0;
      }
    }
  }

  // ---------------------------------------------------------------------
  // The box of points_oriented_bbox
  // ---------------------------------------------------------------------

  /** Vertex i is no greater on axis `a` than its two cyclic neighbours. */
  predicate LocalMin(h: seq<Point>, n: int, i: int, a: Axis)
    requires 1 <= n <= |h| && 0 <= i < n
  {
    Coord(h[i], a) <= Coord(h[(i + n - 1) % n], a) && Coord(h[i], a) <= Coord(h[(i + 1) % n], a)
  }

  /** Vertex i is no less on axis `a` than its two cyclic neighbours. */
  predicate LocalMax(h: seq<Point>, n: int, i: int, a: Axis)
    requires 1 <= n <= |h| && 0 <= i < n
  {
    Coord(h[i], a) >= Coord(h[(i + n - 1) % n], a) && Coord(h[i], a) >= Coord(h[(i + 1) % n], a)
  }

  predicate LocalExtreme(h: seq<Point>, n: int, i: int, a: Axis, isMax: bool)
    requires 1 <= n <= |h| && 0 <= i < n
  {
    if isMax then LocalMax(h, n, i, a) else LocalMin(h, n, i, a)
  }

  /** The index the scan keeps: the last local minimum (maximum) on the axis. */
  predicate IsLastExtreme(h: seq<Point>, n: int, i: int, a: Axis, isMax: bool)
    requires 1 <= n <= |h|
  {
    && 0 <= i < n
    && LocalExtreme(h, n, i, a, isMax)
    && forall j :: i < j < n ==> !LocalExtreme(h, n, j, a, isMax)
  }

  /** A vertex of globally least (greatest) coordinate is a local extreme, so the
      scan always finds one. */
  lemma LocalExtremeExists(h: seq<Point>, n: int, a: Axis, isMax: bool)
    requires 1 <= n <= |h|
    ensures exists i :: 0 <= i < n && LocalExtreme(h, n, i, a, isMax)
  {
    var s := h[..n];
    if isMax {
      MaxCoordIsGreatest(s, a);
      var m := MaxCoord(s, a);
      var i :| 0 <= i < n && Coord(s[i], a) == m;
      var prev, next := (i + n - 1) % n, (i + 1) % n;
      assert Coord(s[prev], a) <= m && Coord(s[next], a) <= m;
      assert s[i] == h[i] && s[prev] == h[prev] && s[next] == h[next];
      assert LocalMax(h, n, i, a);
      assert LocalExtreme(h, n, i, a, isMax);
    } else {
      MinCoordIsLeast(s, a);
      var m := MinCoord(s, a);
      var i :| 0 <= i < n && Coord(s[i], a) == m;
      var prev, next := (i + n - 1) % n, (i + 1) % n;
      assert m <= Coord(s[prev], a) && m <= Coord(s[next], a);
      assert s[i] == h[i] && s[prev] == h[prev] && s[next] == h[next];
      assert LocalMin(h, n, i, a);
      assert LocalExtreme(h, n, i, a, isMax);
    }
  }

  /** What the scan holds after vertices 0..i-1: the last local extreme among
      them, or still its initial 0 when none has been met. */
  function ScanResult(h: seq<Point>, n: int, i: int, a: Axis, isMax: bool): int
    requires 1 <= n <= |h| && 0 <= i <= n
  {
    if i == 0 then 0
    else if LocalExtreme(h, n, i - 1, a, isMax) then i - 1
    else ScanResult(h, n, i - 1, a, isMax)
  }

  lemma {:induction false} ScanResultSpec(h: seq<Point>, n: int, i: int, a: Axis, isMax: bool)
    requires 1 <= n <= |h| && 0 <= i <= n
    ensures var k := ScanResult(h, n, i, a, isMax);
      && 0 <= k < n
      && (k == 0 || k < i)
      && (forall j :: k < j < i ==> !LocalExtreme(h, n, j, a, isMax))
      && ((exists j :: 0 <= j < i && LocalExtreme(h, n, j, a, isMax)) ==> k < i && LocalExtreme(h, n, k, a, isMax))
  {
    if i > 0 && !LocalExtreme(h, n, i - 1, a, isMax) {
      ScanResultSpec(h, n, i - 1, a, isMax);
      if exists j :: 0 <= j < i && LocalExtreme(h, n, j, a, isMax) {
        var j :| 0 <= j < i && LocalExtreme(h, n, j, a, isMax);
        assert j < i - 1;
      }
    }
  }

  /** After the whole cyclic list the scan holds the last local extreme, since
      one always exists. */
  lemma LastExtremeFound(h: seq<Point>, n: int, a: Axis, isMax: bool)
    requires 1 <= n <= |h|
    ensures IsLastExtreme(h, n, ScanResult(h, n, n, a, isMax), a, isMax)
  {
    LocalExtremeExists(h, n, a, isMax);
    ScanResultSpec(h, n, n, a, isMax);
  }

  /** points_oriented_bbox: in this revision it picks the last local x- and
      y-extremes of the cyclic vertex list and returns the axis-aligned box
      through them, corners in the order top-left, top-right, bottom-right,
      bottom-left (t is the last local y-maximum, b the last local y-minimum;
      on a list that is not convex these need not be the global extremes). */
  method OrientedBbox(hull: seq<Point>, n: int) returns (rect: seq<Point>, l: int, r: int, b: int, t: int)
    requires 1 <= n <= |hull|
    ensures IsLastExtreme(hull, n, l, X, false) && IsLastExtreme(hull, n, r, X, true)
    ensures IsLastExtreme(hull, n, b, Y, false) && IsLastExtreme(hull, n, t, Y, true)
    ensures |rect| == 4
    ensures rect[0].y == rect[1].y == hull[t].y && rect[2].y == rect[3].y == hull[b].y
    ensures rect[1].x == rect[2].x == hull[r].x && rect[0].x == rect[3].x == hull[l].x
  {
    t, b, l, r := 0, 0, 0, 0;
    var i := 0;
    while i < n
      invariant 0 <= i <= n
      invariant l == ScanResult(hull, n, i, X, false) && r == ScanResult(hull, n, i, X, true)
      invariant b == ScanResult(hull, n, i, Y, false) && t == ScanResult(hull, n, i, Y, true)
    {
      // The four tests compare vertex i with its cyclic neighbours (i + n - 1) % n and (i + 1) % n
      if LocalMin(hull, n, i, X) {
        l := i;
      }
      if LocalMax(hull, n, i, X) {
        r := i;
      }
      if LocalMin(hull, n, i, Y) {
        b := i;
      }
      if LocalMax(hull, n, i, Y) {
        t := i;
      }
      i := i + 1;
    }
    LastExtremeFound(hull, n, X, false);
    LastExtremeFound(hull, n, X, true);
    LastExtremeFound(hull, n, Y, false);
    LastExtremeFound(hull, n, Y, true);
    rect := [Point(hull[l].x, hull[t].y), Point(hull[r].x, hull[t].y),
             Point(hull[r].x, hull[b].y), Point(hull[l].x, hull[b].y)];
  }

  /** Without convexity the last local extreme need not be the global one: in
      this cyclic list the last local x-minimum is vertex 2, while vertex 0 lies
      further left, outside the box. */
  lemma ScanNonConvex()
    ensures var h := [Point(0.0, 0.0), Point(5.0, 5.0), Point(3.0, 0.0), Point(5.0, -5.0)];
      && IsLastExtreme(h, 4, 2, X, false)
      && (forall l :: IsLastExtreme(h, 4, l, X, false) ==> l == 2)
      && h[0].x < h[2].x
  {
    var h := [Point(0.0, 0.0), Point(5.0, 5.0), Point(3.0, 0.0), Point(5.0, -5.0)];
    assert LocalMin(h, 4, 2, X);
    assert !LocalMin(h, 4, 3, X);
  }
}
