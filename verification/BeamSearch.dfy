/** The disk index's beam search with a fixed list size: in each round up to `beamWidth` unexpanded entries are taken
    from the pool, their records are read together, and their neighbour lists are absorbed one after another. */
module BeamSearch {
  import opened Counting
  import opened NeighborPool
  import opened CandidatePool
  import opened BestFirstSearch

  ghost predicate Disjoint(s: seq<nat>, done: set<nat>) {
    (forall i :: 0 <= i < |s| ==> s[i] !in done) && (forall i, j :: 0 <= i < j < |s| ==> s[i] != s[j])
  }

  lemma SettledSend(pool: seq<Neighbor>, m: nat)
    requires m < |pool| && Settled(pool, m)
    ensures Settled(pool[m := pool[m].(flag := false)], m + 1)
  {
  }

  /** Take the first unexpanded entries from position k on, as many as fit the beam: everything before `cut` is settled,
      nothing after it has changed. */
  method GatherFrontier(graph: seq<seq<nat>>, dist: nat -> real, L: nat, best: array<Neighbor>, l: nat, seen: set<nat>,
                        k: nat, beamWidth: nat, ghost init: set<nat>, ghost done: set<nat>)
    returns (frontier: seq<nat>, ghost cut: nat)
    requires k < l <= L < best.Length && Settled(best[..l], if beamWidth > 0 then k else 0)
    requires Consistent(graph, dist, L, init, best[..l], seen, done, done)
    modifies best
    ensures Consistent(graph, dist, L, init, best[..l], seen, done + Members(frontier), done)
    ensures |frontier| <= beamWidth && Disjoint(frontier, done)
    ensures Settled(best[..l], if beamWidth > 0 then k + 1 else 0)
    ensures forall i :: 0 <= i < |frontier| ==> frontier[i] < |graph|
    ensures k <= cut <= l && (|frontier| == beamWidth || cut == l) && (beamWidth > 0 ==> Settled(best[..l], cut))
    ensures forall i :: cut <= i < l ==> best[i] == old(best[i])
  {
    hide Consistent, Settled;
    frontier := [];
    var marker: nat, numSeen: nat := k, 0;
    assert done + Members(frontier) == done;
    while marker < l && |frontier| < beamWidth && numSeen < beamWidth
      invariant k <= marker <= l && Settled(best[..l], if beamWidth > 0 then marker else 0)
      invariant numSeen == |frontier| <= beamWidth
      invariant beamWidth > 0 && |frontier| == beamWidth ==> marker > k
      invariant Consistent(graph, dist, L, init, best[..l], seen, done + Members(frontier), done)
      invariant Disjoint(frontier, done) && forall i :: 0 <= i < |frontier| ==> frontier[i] < |graph|
      invariant forall i :: marker <= i < l ==> best[i] == old(best[i])
    {
      ghost var pool := best[..l];
      assert pool[marker] == best[marker];
      if best[marker].flag {
        numSeen := numSeen + 1;
        SendKeeps(graph, dist, L, init, pool, seen, done + Members(frontier), done, marker);
        SettledSend(pool, marker);
        assert Members(frontier + [best[marker].id]) == Members(frontier) + {best[marker].id};
        assert done + Members(frontier + [best[marker].id]) == done + Members(frontier) + {best[marker].id};
        frontier := frontier + [best[marker].id];
        best[marker] := best[marker].(flag := false);
        assert best[..l] == pool[marker := pool[marker].(flag := false)];
      } else {
        SettledSkipIf(pool, marker, beamWidth > 0);
      }
      marker := marker + 1;
    }
    cut := marker;
    SettledDown(best[..l], if beamWidth > 0 then marker else 0, if beamWidth > 0 then k + 1 else 0);
  }

  lemma SettledDown(pool: seq<Neighbor>, m: nat, k: nat)
    requires Settled(pool, m) && k <= m
    ensures Settled(pool, k)
  {
  }

  /** Process the records that were read, in order. `exact` is the distance by full coordinates, which only the list of
      expanded nodes uses. */
  method ExpandFrontier(graph: seq<seq<nat>>, dist: nat -> real, exact: nat -> real, L: nat, best: array<Neighbor>,
                        l0: nat, seen0: set<nat>, expanded0: seq<Neighbor>, frontier: seq<nat>, ghost init: set<nat>,
                        ghost done: set<nat>)
    returns (ok: bool, l: nat, seen: set<nat>, nk: nat, expanded: seq<Neighbor>)
    requires l0 <= L < best.Length && Disjoint(frontier, done) && Listing(exact, expanded0, done)
    requires Consistent(graph, dist, L, init, best[..l0], seen0, done + Members(frontier), done)
    requires forall i :: 0 <= i < |frontier| ==> frontier[i] < |graph|
    modifies best
    ensures l <= L && nk <= l && (!ok ==> !WellFormed(graph))
    ensures ok ==> Consistent(graph, dist, L, init, best[..l], seen, done + Members(frontier), done + Members(frontier))
    ensures ok ==> Listing(exact, expanded, done + Members(frontier)) && (frontier == [] ==> expanded == expanded0)
    ensures ok ==> GrownFrom(Found(old(best[..l0]), seen0, l0), Found(best[..l], seen, nk))
  {
    hide Consistent, Listing, GrownFrom;
    ghost var f := Found(best[..l0], seen0, l0);
    ghost var sent := done + Members(frontier);
    l, seen, nk, expanded := l0, seen0, l0, expanded0;
    GrownRefl(f);
    assert done + Members(frontier[..0]) == done;
    for j := 0 to |frontier|
      invariant l <= L && nk <= l
      invariant Consistent(graph, dist, L, init, best[..l], seen, sent, done + Members(frontier[..j]))
      invariant Listing(exact, expanded, done + Members(frontier[..j])) && (j == 0 ==> expanded == expanded0)
      invariant GrownFrom(f, Found(best[..l], seen, nk))
    {
      var id := frontier[j];
      ghost var g := Found(best[..l], seen, nk);
      assert frontier[..j + 1] == frontier[..j] + [id];
      assert Members(frontier[..j + 1]) == Members(frontier[..j]) + {id};
      assert done + Members(frontier[..j + 1]) == done + Members(frontier[..j]) + {id};
      var e := Neighbor(id, exact(id), true, false);
      ListingAdd(exact, expanded, done + Members(frontier[..j]), e);
      expanded := expanded + [e];
      ok, l, seen, nk := Expand(graph, dist, L, best, l, seen, nk, id, init, sent, done + Members(frontier[..j]));
      if !ok {
        return;
      }
      GrownTrans(f, g, Found(best[..l], seen, nk));
    }
    ok := true;
    assert frontier[..|frontier|] == frontier;
  }

  /** do_beam_search. With a beam of at least one the search stops at the same kind of fixed point as the sequential
      loop; an empty beam expands nothing. */
  method DoBeamSearch(graph: seq<seq<nat>>, dist: nat -> real, exact: nat -> real, L: nat, init: seq<nat>,
                      beamWidth: nat)
    returns (ok: bool, pool: seq<Neighbor>, expanded: seq<Neighbor>, ghost start: set<nat>, ghost done: set<nat>)
    requires L >= 1 && init != [] && InRange(Members(init), |graph|)
    ensures !ok ==> !WellFormed(graph)
    ensures start <= Members(init) && (ok ==> start == Members(init) || |pool| == L)
    ensures ok && beamWidth >= 1 ==> FixedPoint(graph, dist, L, start, pool, done)
    ensures ok ==> Listing(exact, expanded, done)
    ensures ok && beamWidth == 0 ==> expanded == []
  {
    hide Consistent, Settled, Listing, FixedPoint, GrownFrom;
    var best := new Neighbor[10 * L](i => Neighbor(0, 0.0, false, false));
    expanded, pool, done := [], [], {};
    ListingNone(exact);
    var l, seen := InitPool(graph, dist, L, init, best);
    start := seen;
    var k: nat := 0;
    SettledNone(best[..l]);
    while k < l
      invariant k <= l <= L && Settled(best[..l], if beamWidth > 0 then k else 0) && (start == Members(init) || l == L)
      invariant Consistent(graph, dist, L, start, best[..l], seen, done, done)
      invariant Listing(exact, expanded, done) && (beamWidth == 0 ==> expanded == [])
      decreases Unseen(|graph|, seen), l - k
    {
      ok, l, seen, k, expanded, done := Round(graph, dist, exact, L, best, l, seen, k, beamWidth, expanded, start,
                                              done);
      if !ok {
        return;
      }
    }
    pool := best[..l];
    ok := true;
    if beamWidth > 0 {
      ExitFixed(graph, dist, L, start, pool, seen, done);
    }
  }

  /** One round: gather, expand, and move to the next position. */
  method Round(graph: seq<seq<nat>>, dist: nat -> real, exact: nat -> real, L: nat, best: array<Neighbor>, l0: nat,
               seen0: set<nat>, k0: nat, beamWidth: nat, expanded0: seq<Neighbor>, ghost init: set<nat>,
               ghost done0: set<nat>)
    returns (ok: bool, l: nat, seen: set<nat>, k: nat, expanded: seq<Neighbor>, ghost done: set<nat>)
    requires k0 < l0 <= L < best.Length && Settled(best[..l0], if beamWidth > 0 then k0 else 0)
    requires Consistent(graph, dist, L, init, best[..l0], seen0, done0, done0) && Listing(exact, expanded0, done0)
    modifies best
    ensures !ok ==> !WellFormed(graph)
    ensures ok ==> l0 <= l <= L && k <= l && Settled(best[..l], if beamWidth > 0 then k else 0)
    ensures ok ==> Consistent(graph, dist, L, init, best[..l], seen, done, done) && Listing(exact, expanded, done)
    ensures ok && beamWidth == 0 ==> expanded == expanded0
    ensures ok ==> Unseen(|graph|, seen) < Unseen(|graph|, seen0)
                   || (Unseen(|graph|, seen) == Unseen(|graph|, seen0) && l == l0 && k == k0 + 1)
  {
    hide Consistent, Settled, Listing, GrownFrom;
    ghost var cut;
    var frontier;
    frontier, cut := GatherFrontier(graph, dist, L, best, l0, seen0, k0, beamWidth, init, done0);
    ghost var f := Found(best[..l0], seen0, l0);
    var nk: nat;
    ok, l, seen, nk, expanded := ExpandFrontier(graph, dist, exact, L, best, l0, seen0, expanded0, frontier, init,
                                                done0);
    done := done0 + Members(frontier);
    k := if nk <= k0 then nk else k0 + 1;
    if ok {
      if beamWidth > 0 {
        SettledAfter(f, Found(best[..l], seen, nk), k0);
      } else {
        SettledNone(best[..l]);
      }
      GrownSizes(f, Found(best[..l], seen, nk));
      SeenInRange(graph, dist, L, init, best[..l], seen, done, done);
      UnseenShrinks(|graph|, seen0, seen);
    }
  }

  lemma SettledSkipIf(pool: seq<Neighbor>, m: nat, counted: bool)
    requires m < |pool| && Settled(pool, if counted then m else 0) && !pool[m].flag
    ensures Settled(pool, if counted then m + 1 else 0)
  {
  }

  lemma GrownSizes(f: Found, g: Found)
    requires GrownFrom(f, g)
    ensures |f.pool| <= |g.pool| && f.seen <= g.seen && (g.seen == f.seen ==> |g.pool| == |f.pool| && g.nk == f.nk)
  {
  }
}
