/** Lazy deletes in the in-memory index: consolidation of the graph around deleted points, and compaction of the
    surviving points to the front. Location `max` holds the frozen start point. */
module Compaction {
  import opened Counting
  import opened Pruning

  // ----- consolidation -----

  ghost predicate AnyDeleted(list: seq<nat>, del: set<nat>) {
    exists k :: 0 <= k < |list| && list[k] in del
  }

  /** Candidates for the new list of i: its surviving neighbours and those of its deleted neighbours. */
  function Cands(g: seq<seq<nat>>, del: set<nat>, list: seq<nat>): (r: set<nat>) {
    if list == [] then {}
    else
      var y := list[|list| - 1];
      Cands(g, del, list[..|list| - 1])
      + if y !in del then {y} else if y < |g| then (set x | x in g[y] && x !in del) else {}
  }

  /** A surviving neighbour, or a surviving neighbour of a deleted neighbour. */
  ghost predicate CandEdge(g: seq<seq<nat>>, del: set<nat>, list: seq<nat>, x: nat) {
    x !in del && (x in list || exists y :: y in list && y in del && y < |g| && x in g[y])
  }

  ghost predicate CandEdges(g: seq<seq<nat>>, del: set<nat>, list: seq<nat>, cands: set<nat>) {
    forall x :: x in cands <==> CandEdge(g, del, list, x)
  }

  /** The candidates are exactly these. */
  lemma {:induction false} CandsAre(g: seq<seq<nat>>, del: set<nat>, list: seq<nat>)
    ensures CandEdges(g, del, list, Cands(g, del, list))
  {
    if list != [] {
      var t, z := list[..|list| - 1], list[|list| - 1];
      CandsAre(g, del, t);
      forall x
        ensures x in Cands(g, del, list) <==> CandEdge(g, del, list, x)
      {
        assert x in Cands(g, del, t) <==> CandEdge(g, del, t, x);
        assert forall y :: y in list <==> y in t || y == z;
      }
    }
  }

  lemma {:induction false} CandsSurvive(g: seq<seq<nat>>, del: set<nat>, list: seq<nat>, ok: set<nat>)
    requires forall k :: 0 <= k < |list| ==> list[k] in ok
    requires forall y, k :: 0 <= y < |g| && y in ok && 0 <= k < |g[y]| ==> g[y][k] in ok
    ensures forall x :: x in Cands(g, del, list) ==> x in ok && x !in del
  {
    if list != [] {
      CandsSurvive(g, del, list[..|list| - 1], ok);
    }
  }

  function Keep(ids: seq<nat>, i: nat, del: set<nat>): (r: seq<nat>)
    ensures |r| <= |ids| && forall x :: x in r <==> x in ids && x != i && x !in del
  {
    if ids == [] then []
    else
      var r, x := Keep(ids[..|ids| - 1], i, del), ids[|ids| - 1];
      assert forall y :: y in ids <==> y in ids[..|ids| - 1] || y == x;
      if x != i && x !in del then r + [x] else r
  }

  /** What consolidation makes of the list of i: nothing changes unless a neighbour is deleted. */
  ghost predicate NewList(g: seq<seq<nat>>, del: set<nat>, ps: Settings, i: nat, list: seq<nat>)
    requires i < |g|
  {
    if AnyDeleted(g[i], del)
    then exists p :: PoolFor(Cands(g, del, g[i]), i, ps.dist, p) && list == Keep(Ids(KeptOf(ps, p)), i, del)
    else list == g[i]
  }

  /** The whole graph after consolidation: points that survive get their new list, the others keep theirs. */
  ghost predicate Consolidated(g: seq<seq<nat>>, del: set<nat>, gone: set<nat>, ps: Settings, h: seq<seq<nat>>) {
    |h| == |g| && forall i :: 0 <= i < |g| ==> (if i in gone then h[i] == g[i] else NewList(g, del, ps, i, h[i]))
  }

  lemma NewListUnique(g: seq<seq<nat>>, del: set<nat>, ps: Settings, i: nat, a: seq<nat>, b: seq<nat>)
    requires i < |g| && NewList(g, del, ps, i, a) && NewList(g, del, ps, i, b)
    ensures a == b
  {
    if AnyDeleted(g[i], del) {
      var c := Cands(g, del, g[i]);
      var p :| PoolFor(c, i, ps.dist, p) && a == Keep(Ids(KeptOf(ps, p)), i, del);
      var q :| PoolFor(c, i, ps.dist, q) && b == Keep(Ids(KeptOf(ps, q)), i, del);
      SortedUnique(p, q);
    }
  }

  /** Consolidation is independent of the order in which points are processed: any two results agree. */
  lemma OrderIndependent(g: seq<seq<nat>>, del: set<nat>, gone: set<nat>, ps: Settings, h: seq<seq<nat>>,
                         h': seq<seq<nat>>)
    requires Consolidated(g, del, gone, ps, h) && Consolidated(g, del, gone, ps, h')
    ensures h == h'
  {
    forall i | 0 <= i < |g|
      ensures h[i] == h'[i]
    {
      hide NewList;
      if i !in gone {
        NewListUnique(g, del, ps, i, h[i], h'[i]);
      }
    }
  }

  /** Collect the candidates of one list, noting whether a neighbour is deleted. */
  method CollectCands(g: seq<seq<nat>>, del: set<nat>, list: seq<nat>) returns (modified: bool, cands: set<nat>)
    requires forall k :: 0 <= k < |list| ==> list[k] < |g|
    ensures modified <==> AnyDeleted(list, del)
    ensures cands == Cands(g, del, list)
  {
    modified, cands := false, {};
    for k := 0 to |list|
      invariant modified <==> AnyDeleted(list[..k], del)
      invariant cands == Cands(g, del, list[..k])
    {
      assert list[..k + 1][..k] == list[..k];
      assert AnyDeleted(list[..k + 1], del) <==> AnyDeleted(list[..k], del) || list[k] in del by {
        if AnyDeleted(list[..k], del) {
          var j :| 0 <= j < k && list[..k][j] in del;
          assert list[..k + 1][j] in del;
        }
        if list[k] in del {
          assert list[..k + 1][k] in del;
        }
      }
      if list[k] in del {
        modified := true;
        cands := cands + set x | x in g[list[k]] && x !in del;
      } else {
        cands := cands + {list[k]};
      }
    }
    assert list[..|list|] == list;
  }

  /** The pool of a candidate set, collected in some order and sorted. */
  method BuildPool(cands: set<nat>, i: nat, dist: Distance) returns (p: seq<Candidate>)
    ensures PoolFor(cands, i, dist, p)
  {
    p := [];
    var left := cands;
    while left != {}
      invariant left <= cands && PoolFor(cands - left, i, dist, p)
    {
      var x :| x in left;
      var c := Candidate(x, dist(i, x));
      p := Insert(p, c);
      left := left - {x};
    }
    assert cands - left == cands;
  }

  /** Process all points in any order, each list updated in place. */
  method ConsolidateGraph(g0: seq<seq<nat>>, del: set<nat>, gone: set<nat>, ps: Settings)
    returns (g: seq<seq<nat>>)
    requires del <= gone
    requires forall i, k :: 0 <= i < |g0| && 0 <= k < |g0[i]| ==> g0[i][k] < |g0|
    ensures Consolidated(g0, del, gone, ps, g)
  {
    g := g0;
    var todo := Range(0, |g0|);
    while todo != {}
      invariant |g| == |g0| && forall i :: i in todo ==> i < |g0|
      invariant forall i :: 0 <= i < |g0| && (i in todo || i in gone) ==> g[i] == g0[i]
      invariant forall i :: 0 <= i < |g0| && i !in todo && i !in gone ==> NewList(g0, del, ps, i, g[i])
    {
      hide NewList;
      var i :| i in todo;
      if i !in gone {
        var list := ConsolidatePoint(g0, g, del, gone, ps, i);
        g := g[i := list];
      }
      todo := todo - {i};
    }
  }

  /** The new list of one point. The lists of deleted points are never changed, so reading the graph as it is now gives
      the same as reading the graph as it was. */
  method ConsolidatePoint(g0: seq<seq<nat>>, g: seq<seq<nat>>, del: set<nat>, gone: set<nat>, ps: Settings,
                          i: nat)
    returns (list: seq<nat>)
    requires del <= gone && i < |g| == |g0| && i !in gone && g[i] == g0[i]
    requires forall j :: 0 <= j < |g0| && j in gone ==> g[j] == g0[j]
    requires forall i, k :: 0 <= i < |g0| && 0 <= k < |g0[i]| ==> g0[i][k] < |g0|
    ensures NewList(g0, del, ps, i, list)
  {
    var modified, cands := CollectCands(g, del, g[i]);
    SameCands(g0, g, del, g[i]);
    if !modified {
      return g[i];
    }
    var p := BuildPool(cands, i, ps.dist);
    var result := OccludeList(ps, p);
    list := Keep(Ids(result), i, del);
  }

  lemma {:induction false} SameCands(g0: seq<seq<nat>>, g: seq<seq<nat>>, del: set<nat>, list: seq<nat>)
    requires |g| == |g0| && forall j :: 0 <= j < |g0| && j in del ==> g[j] == g0[j]
    ensures Cands(g, del, list) == Cands(g0, del, list)
  {
    if list != [] {
      SameCands(g0, g, del, list[..|list| - 1]);
    }
  }

  /** No list of a surviving point leads to a deleted point, to the point itself or out of the graph. */
  lemma NoEdgeToDeleted(g: seq<seq<nat>>, del: set<nat>, gone: set<nat>, ps: Settings,
                        h: seq<seq<nat>>, ok: set<nat>, i: nat, k: nat)
    requires Consolidated(g, del, gone, ps, h)
    requires forall y, j :: 0 <= y < |g| && y in ok && 0 <= j < |g[y]| ==> g[y][j] in ok
    requires i < |g| && i in ok && i !in gone && k < |h[i]|
    ensures h[i][k] in ok && h[i][k] !in del && (AnyDeleted(g[i], del) ==> h[i][k] != i && |h[i]| <= ps.range)
  {
    if AnyDeleted(g[i], del) {
      var c := Cands(g, del, g[i]);
      CandsSurvive(g, del, g[i], ok);
      var p: seq<Candidate> :| PoolFor(c, i, ps.dist, p) && h[i] == Keep(Ids(KeptOf(ps, p)), i, del);
      KeptIsFrom(ps, p);
      assert h[i][k] in Ids(KeptOf(ps, p));
    }
  }

  lemma {:induction false} KeepDrops(ids: seq<nat>, i: nat, del: set<nat>)
    requires Distinct(ids) && forall k :: 0 <= k < |ids| ==> ids[k] !in del
    ensures |Keep(ids, i, del)| == |ids| - if i in ids then 1 else 0
  {
    if ids != [] {
      var n := |ids| - 1;
      assert ids[n] !in ids[..n];
      assert i in ids <==> i in ids[..n] || i == ids[n];
      KeepDrops(ids[..n], i, del);
    }
  }

  lemma {:induction false} KeepIs(ids: seq<nat>, i: nat, del: set<nat>)
    requires Distinct(ids) && forall k :: 0 <= k < |ids| ==> ids[k] !in del
    ensures WithoutLate(ids, i, 0, Keep(ids, i, del))
  {
    if ids != [] {
      var n := |ids| - 1;
      KeepIs(ids[..n], i, del);
      if ids[n] == i {
        assert i !in ids[..n] && ids[..n] + ids[n + 1..] == ids[..n];
      } else {
        LateSnoc(ids, i, 0, Keep(ids[..n], i, del));
      }
    }
  }

  /** The kept entry that stands for x. */
  lemma CoverOf(ps: Settings, i: nat, cands: set<nat>, p: seq<Candidate>, r: seq<Candidate>, last: real, x: nat)
    returns (y: nat)
    requires PoolFor(cands, i, ps.dist, p) && x in cands && forall a, b :: 0.0 <= ps.dist(a, b)
    requires forall t :: 0 <= t < |p| ==>
               p[t] in r || exists q :: 0 <= q < t && p[q] in r && Occludes(p, ps.dist, q, t, last)
    ensures y in cands && y in Ids(r)
    ensures y == x || Shadows(ps, i, x, y, last)
  {
    hide PoolFor, Occludes, SortedPool, Shadows;
    PoolForUse(cands, i, ps.dist, p);
    PoolForHas(cands, i, ps.dist, p, x);
    var t :| 0 <= t < |p| && p[t] == Candidate(x, ps.dist(i, x));
    if p[t] in r {
      y := x;
      IdOf(r, p[t]);
    } else {
      var q :| 0 <= q < t && p[q] in r && Occludes(p, ps.dist, q, t, last);
      y := p[q].id;
      IdOf(r, p[q]);
      OccludesShadows(ps, i, p, q, t, last);
    }
  }

  /** The occlusion never lets the point itself, at its own distance, stand for another candidate. */
  lemma CandCovered(ps: Settings, del: set<nat>, i: nat, cands: set<nat>, p: seq<Candidate>, r: seq<Candidate>,
                    last: real, x: nat)
    requires PoolFor(cands, i, ps.dist, p) && x in cands && x != i && 1.0 <= last
    requires (forall y :: y in cands ==> y !in del)
    requires forall a, b :: 0.0 <= ps.dist(a, b)
    requires forall t :: 0 <= t < |p| ==>
               p[t] in r || exists q :: 0 <= q < t && p[q] in r && Occludes(p, ps.dist, q, t, last)
    ensures var list := Keep(Ids(r), i, del); x in list || Shadowed(ps, i, x, list, last)
  {
    hide PoolFor, Occludes, Shadows;
    var y := CoverOf(ps, i, cands, p, r, last, x);
    if y == i {
      NoSelfShadow(ps, i, x, last);
    }
  }

  lemma NoSelfShadow(ps: Settings, i: nat, x: nat, a: real)
    requires 1.0 <= a && 0.0 <= ps.dist(i, x)
    ensures !Shadows(ps, i, x, i, a)
  {
    assert (a - 1.0) * ps.dist(i, x) >= 0.0;
  }

  lemma PoolCovers(ps: Settings, del: set<nat>, i: nat, cands: set<nat>, p: seq<Candidate>)
    returns (kept: seq<nat>, last: real)
    requires PoolFor(cands, i, ps.dist, p) && forall y :: y in cands ==> y !in del
    requires forall x, y :: 0.0 <= ps.dist(x, y)
    ensures RebuiltFrom(ps, i, cands, p, kept, last, Keep(Ids(KeptOf(ps, p)), i, del))
  {
    hide PoolFor, KeptOf, Occludes, Keep, Shadowed, Covers, WithoutLate;
    var r := KeptOf(ps, p);
    var list := Keep(Ids(r), i, del);
    PoolForUse(cands, i, ps.dist, p);
    PoolForSize(cands, i, ps.dist, p);
    KeptIsFrom(ps, p);
    KeptIdsDistinct(ps, p);
    forall k | 0 <= k < |r|
      ensures Ids(r)[k] !in del
    {
      assert r[k] in p;
    }
    KeepDrops(Ids(r), i, del);
    KeepIs(Ids(r), i, del);
    kept, last := KeptCovers(ps, p);
    assert Ids(r) == KeptAs(p, kept);
    if |cands| <= ps.maxc && 1.0 <= ps.alpha && |list| + 1 < ps.range {
      forall x | x in cands && x != i
        ensures x in list || Shadowed(ps, i, x, list, last)
      {
        CandCovered(ps, del, i, cands, p, r, last, x);
      }
    }
  }

  /** The list is what the occlusion keeps of the candidates, without the point itself. With room for one more entry,
      every candidate other than the point itself is in the list or made redundant by a nearer entry of it, at a level
      within a factor 1.2 of alpha. */
  ghost predicate RebuiltFrom(ps: Settings, i: nat, cands: set<nat>, p: seq<Candidate>, kept: seq<nat>, last: real,
                              list: seq<nat>) {
    && PoolFor(cands, i, ps.dist, p) && Covers(ps, p, kept, |kept| >= ps.range, last) && |kept| <= ps.range
    && (forall k :: 0 <= k < |kept| ==> kept[k] < |p|) && WithoutLate(KeptAs(p, kept), i, 0, list)
    && (|cands| <= ps.maxc && 1.0 <= ps.alpha && |list| + 1 < ps.range ==>
          && 1.0 <= last <= ps.alpha < last * 1.2
          && forall x :: x in cands && x != i ==> x in list || Shadowed(ps, i, x, list, last))
  }

  /** A rebuilt list is made from the surviving neighbours and those of the deleted neighbours, and covers them. */
  lemma RebuiltCovers(g: seq<seq<nat>>, del: set<nat>, ps: Settings, i: nat, cands: set<nat>, list: seq<nat>)
    returns (p: seq<Candidate>, kept: seq<nat>, last: real)
    requires i < |g| && NewList(g, del, ps, i, list) && AnyDeleted(g[i], del) && CandEdges(g, del, g[i], cands)
    requires forall x, y :: 0.0 <= ps.dist(x, y)
    ensures RebuiltFrom(ps, i, cands, p, kept, last, list)
  {
    hide PoolFor, RebuiltFrom, KeptOf, Keep;
    CandsAre(g, del, g[i]);
    assert Cands(g, del, g[i]) == cands;
    p :| PoolFor(cands, i, ps.dist, p) && list == Keep(Ids(KeptOf(ps, p)), i, del);
    kept, last := PoolCovers(ps, del, i, cands, p);
  }

  // ----- compaction -----

  /** The number of survivors before x: the new location of a survivor. */
  function Rank(live: set<nat>, x: nat): (r: nat)
    ensures r <= x
  {
    if x == 0 then 0 else Rank(live, x - 1) + if x - 1 in live then 1 else 0
  }

  function NewLoc(live: set<nat>, max: nat, x: nat): (r: nat) {
    if x in live then Rank(live, x) else max
  }

  lemma {:induction false} RankGrows(live: set<nat>, x: nat, y: nat)
    requires x <= y
    ensures Rank(live, x) <= Rank(live, y) && (x < y && x in live ==> Rank(live, x) < Rank(live, y))
  {
    if x < y {
      RankGrows(live, x, y - 1);
    }
  }

  /** Every rank is taken by a survivor. */
  lemma {:induction false} RankOnto(live: set<nat>, y: nat, r: nat) returns (x: nat)
    requires r < Rank(live, y)
    ensures x < y && x in live && Rank(live, x) == r
  {
    if y - 1 in live && r == Rank(live, y - 1) {
      x := y - 1;
    } else {
      x := RankOnto(live, y - 1, r);
    }
  }

  lemma {:induction false} RankCard(live: set<nat>, y: nat)
    ensures Rank(live, y) == |set x | x in live && x < y|
  {
    if y == 0 {
      assert (set x | x in live && x < y) == {};
    } else {
      RankCard(live, y - 1);
      var a, b := set x | x in live && x < y, set x | x in live && x < y - 1;
      assert a == if y - 1 in live then b + {y - 1} else b;
    }
  }

  function Renumbered(live: set<nat>, max: nat, list: seq<nat>): (r: seq<nat>)
    ensures |r| == |list| && forall k :: 0 <= k < |r| ==> r[k] == NewLoc(live, max, list[k])
  {
    seq(|list|, k requires 0 <= k < |list| => NewLoc(live, max, list[k]))
  }

  /** The new locations, by one pass over all locations. */
  method NewLocations(live: set<nat>, max: nat) returns (newLoc: seq<nat>, n: nat)
    requires forall x :: x in live ==> x < max
    ensures |newLoc| == max + 1 && n == Rank(live, max)
    ensures forall x :: 0 <= x <= max ==> newLoc[x] == NewLoc(live, max, x)
  {
    newLoc, n := seq(max + 1, _ => max), 0;
    for x := 0 to max + 1
      invariant |newLoc| == max + 1 && n == Rank(live, x)
      invariant forall y :: 0 <= y < x ==> newLoc[y] == NewLoc(live, max, y)
      invariant forall y :: x <= y <= max ==> newLoc[y] == max
    {
      if x in live {
        newLoc := newLoc[x := n];
        n := n + 1;
      }
    }
    assert Rank(live, max + 1) == Rank(live, max);
  }

  /** Survivors before `upto` sit at their new location with renumbered lists. */
  ghost predicate Placed<V>(g0: seq<seq<nat>>, d0: seq<V>, live: set<nat>, max: nat, upto: nat, g: seq<seq<nat>>,
                            d: seq<V>)
    requires |g| == |g0| == |d| == |d0| == max + 1 && upto <= max + 1
  {
    forall x :: 0 <= x < upto && x in live ==> PlacedAt(g0[x], d0[x], live, max, g, d, Rank(live, x))
  }

  ghost predicate PlacedAt<V>(list: seq<nat>, v: V, live: set<nat>, max: nat, g: seq<seq<nat>>, d: seq<V>, r: nat) {
    r < |g| && r < |d| && g[r] == Renumbered(live, max, list) && d[r] == v
  }

  ghost predicate Cleared(g: seq<seq<nat>>, from: nat, to: nat) {
    forall y :: from <= y < to && y < |g| ==> g[y] == []
  }

  ghost predicate Untouched<V>(g0: seq<seq<nat>>, d0: seq<V>, from: nat, g: seq<seq<nat>>, d: seq<V>)
    requires |g| == |g0| == |d| == |d0|
  {
    forall y :: from <= y < |g| ==> g[y] == g0[y] && d[y] == d0[y]
  }

  /** After the locations before `upto` are processed: survivors among them have moved, the places between the last of
      them and `upto` are cleared, and the rest is untouched. */
  ghost predicate Moved<V>(g0: seq<seq<nat>>, d0: seq<V>, live: set<nat>, max: nat, upto: nat, g: seq<seq<nat>>,
                           d: seq<V>) {
    && |g| == |g0| == |d| == |d0| == max + 1 && upto <= max
    && Placed(g0, d0, live, max, upto, g, d) && Cleared(g, Rank(live, upto), upto) && Untouched(g0, d0, upto, g, d)
  }

  /** The list of x, renumbered, swapped with what is at its new place. */
  function Swapped(g: seq<seq<nat>>, r: nat, x: nat, list: seq<nat>): (g': seq<seq<nat>>)
    requires r <= x < |g|
    ensures |g'| == |g| && g'[r] == list && (r < x ==> g'[x] == g[r])
    ensures forall y :: 0 <= y < |g| && y != r && y != x ==> g'[y] == g[y]
  {
    if r == x then g[x := list] else g[x := g[r]][r := list]
  }

  lemma MovePlaces<V>(g0: seq<seq<nat>>, d0: seq<V>, live: set<nat>, max: nat, x: nat, g: seq<seq<nat>>, d: seq<V>,
                      g': seq<seq<nat>>, d': seq<V>)
    requires |g| == |g0| == |d| == |d0| == max + 1 && x < max && x in live && Placed(g0, d0, live, max, x, g, d)
    requires |g'| == |d'| == max + 1 && forall y :: 0 <= y < Rank(live, x) ==> g'[y] == g[y] && d'[y] == d[y]
    requires PlacedAt(g0[x], d0[x], live, max, g', d', Rank(live, x))
    ensures Placed(g0, d0, live, max, x + 1, g', d')
  {
    hide Renumbered, Rank;
    forall y | 0 <= y < x && y in live
      ensures PlacedAt(g0[y], d0[y], live, max, g', d', Rank(live, y))
    {
      RankGrows(live, y, x);
      assert PlacedAt(g0[y], d0[y], live, max, g, d, Rank(live, y));
    }
  }

  lemma MoveLive<V>(g0: seq<seq<nat>>, d0: seq<V>, live: set<nat>, max: nat, x: nat, g: seq<seq<nat>>, d: seq<V>)
    requires Moved(g0, d0, live, max, x, g, d) && x in live && x < max
    ensures var r := Rank(live, x);
            Moved(g0, d0, live, max, x + 1, Swapped(g, r, x, Renumbered(live, max, g0[x])), d[r := d[x]])
  {
    hide Renumbered, Rank, Placed, Swapped;
    var r, list := Rank(live, x), Renumbered(live, max, g0[x]);
    RankStep(live, x);
    MovePlaces(g0, d0, live, max, x, g, d, Swapped(g, r, x, list), d[r := d[x]]);
  }

  lemma ClearDead<V>(g0: seq<seq<nat>>, d0: seq<V>, live: set<nat>, max: nat, x: nat, g: seq<seq<nat>>, d: seq<V>)
    requires Moved(g0, d0, live, max, x, g, d) && x !in live && x < max
    ensures Moved(g0, d0, live, max, x + 1, g[x := []], d)
  {
    hide Renumbered, Rank;
    RankStep(live, x);
    forall y | 0 <= y < x && y in live
      ensures PlacedAt(g0[y], d0[y], live, max, g[x := []], d, Rank(live, y))
    {
      RankGrows(live, y, x);
      assert PlacedAt(g0[y], d0[y], live, max, g, d, Rank(live, y));
    }
  }

  ghost predicate ListSurvives(list: seq<nat>, live: set<nat>, max: nat) {
    forall k :: 0 <= k < |list| ==> list[k] in live || list[k] == max
  }

  /** Renumber one list; a neighbour whose new location is above its old one makes the index abort. */
  method RenumberList(list: seq<nat>, newLoc: seq<nat>, live: set<nat>, max: nat) returns (ok: bool, r: seq<nat>)
    requires |newLoc| == max + 1 && forall x :: 0 <= x <= max ==> newLoc[x] == NewLoc(live, max, x)
    requires forall k :: 0 <= k < |list| ==> list[k] <= max
    ensures ok <==> ListSurvives(list, live, max)
    ensures ok ==> r == Renumbered(live, max, list)
  {
    r := list;
    for k := 0 to |list|
      invariant |r| == |list| && forall j :: 0 <= j < k ==> r[j] == NewLoc(live, max, list[j])
      invariant forall j :: k <= j < |list| ==> r[j] == list[j]
      invariant forall j :: 0 <= j < k ==> list[j] in live || list[j] == max
    {
      if newLoc[r[k]] > r[k] {
        assert list[k] !in live && list[k] != max;
        return false, r;
      }
      r := r[k := newLoc[r[k]]];
    }
    ok := true;
  }

  /** The swap loop of compact_data. */
  method MoveAll<V>(g0: seq<seq<nat>>, d0: seq<V>, live: set<nat>, max: nat, newLoc: seq<nat>)
    returns (ok: bool, g: seq<seq<nat>>, d: seq<V>)
    requires |g0| == |d0| == max + 1 && |newLoc| == max + 1
    requires forall x :: 0 <= x <= max ==> newLoc[x] == NewLoc(live, max, x)
    requires (forall x :: x in live ==> x < max) && forall i, k :: 0 <= i <= max && 0 <= k < |g0[i]| ==> g0[i][k] <= max
    ensures ok <==> forall i :: 0 <= i <= max && (i in live || i == max) ==> ListSurvives(g0[i], live, max)
    ensures ok ==> |g| == max + 1 && Moved(g0, d0, live, max, max, g[max := g0[max]], d)
                   && g[max] == Renumbered(live, max, g0[max])
  {
    hide ListSurvives, Moved, Renumbered, Rank, NewLoc;
    g, d := g0, d0;
    MovedStart(g0, d0, live, max);
    for x := 0 to max
      invariant Moved(g0, d0, live, max, x, g, d)
      invariant forall i :: 0 <= i < x && i in live ==> ListSurvives(g0[i], live, max)
    {
      NewLocFacts(live, max, x);
      MovedNext(g0, d0, live, max, x, g, d);
      if newLoc[x] < max {
        var list;
        ok, list := RenumberList(g[x], newLoc, live, max);
        if !ok {
          return;
        }
        MoveLive(g0, d0, live, max, x, g, d);
        ghost var before, data := g, d;
        g := g[x := list];
        if newLoc[x] != x {
          g := g[newLoc[x] := g[x]][x := g[newLoc[x]]];
          d := d[newLoc[x] := d[x]];
        }
        assert g == Swapped(before, newLoc[x], x, list);
        assert d == data[newLoc[x] := data[x]];
      } else {
        ClearDead(g0, d0, live, max, x, g, d);
        g := g[x := []];
      }
    }
    MovedNext(g0, d0, live, max, max, g, d);
    var list;
    ok, list := RenumberList(g[max], newLoc, live, max);
    if ok {
      ghost var before := g;
      g := g[max := list];
      assert g[max := g0[max]] == before;
    }
  }

  lemma NewLocFacts(live: set<nat>, max: nat, x: nat)
    requires x < max
    ensures x in live ==> NewLoc(live, max, x) == Rank(live, x) < max
    ensures x !in live ==> NewLoc(live, max, x) == max
  {
  }

  lemma RankStep(live: set<nat>, x: nat)
    ensures Rank(live, x + 1) == Rank(live, x) + if x in live then 1 else 0
  {
  }

  lemma MovedStart<V>(g0: seq<seq<nat>>, d0: seq<V>, live: set<nat>, max: nat)
    requires |g0| == |d0| == max + 1
    ensures Moved(g0, d0, live, max, 0, g0, d0)
  {
  }

  /** The next location is still as it was. */
  lemma MovedNext<V>(g0: seq<seq<nat>>, d0: seq<V>, live: set<nat>, max: nat, x: nat, g: seq<seq<nat>>, d: seq<V>)
    requires Moved(g0, d0, live, max, x, g, d)
    ensures |g| == |d| == |g0| == max + 1 && x <= max && g[x] == g0[x]
  {
  }
}
