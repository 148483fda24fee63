/** Greedy search over the proximity graph: the sequential best-first loop of the in-memory index and the beam loop of
    the disk index. Both keep the same invariant and stop at the same kind of fixed point. */
module BestFirstSearch {
  import opened Counting
  import opened NeighborPool
  import opened CandidatePool

  ghost predicate InRange(s: set<nat>, n: nat) {
    forall x :: x in s ==> x < n
  }

  ghost predicate WellFormed(graph: seq<seq<nat>>) {
    forall e :: 0 <= e < |graph| ==> InRange(Members(graph[e]), |graph|)
  }

  /** The start points and the neighbours of the expanded nodes. */
  ghost function Discovered(graph: seq<seq<nat>>, init: set<nat>, done: set<nat>): (r: set<nat>)
    requires InRange(done, |graph|)
    ensures forall x :: x in r <==> x in init || exists e :: e in done && x in Members(graph[e])
  {
    init + set e, y | e in done && y in Members(graph[e]) :: y
  }

  ghost predicate FlagsTell(pool: seq<Neighbor>, sent: set<nat>) {
    forall i :: 0 <= i < |pool| ==> (pool[i].flag <==> pool[i].id !in sent)
  }

  /** The invariant of all three searches. `sent` holds the ids chosen for expansion, `done` those whose neighbour list
      has been absorbed. */
  ghost predicate Consistent(graph: seq<seq<nat>>, dist: nat -> real, L: nat, init: set<nat>, pool: seq<Neighbor>,
                             seen: set<nat>, sent: set<nat>, done: set<nat>) {
    && 1 <= |pool| <= L && NearestPool(dist, L, pool, seen) && FlagsTell(pool, sent)
    && done <= sent <= seen && InRange(seen, |graph|) && seen == Discovered(graph, init, done)
  }

  lemma DiscoveredAdd(graph: seq<seq<nat>>, init: set<nat>, done: set<nat>, n: nat)
    requires InRange(done, |graph|) && n < |graph|
    ensures Discovered(graph, init, done + {n}) == Discovered(graph, init, done) + Members(graph[n])
  {
  }

  lemma GrownFlags(f: Found, g: Found, sent: set<nat>)
    requires GrownFrom(f, g) && FlagsTell(f.pool, sent) && sent <= f.seen
    ensures FlagsTell(g.pool, sent)
  {
    forall i | 0 <= i < |g.pool|
      ensures g.pool[i].flag <==> g.pool[i].id !in sent
    {
      assert OldOrFresh(f, g.pool[i]);
    }
  }

  /** Choosing an entry for expansion. */
  lemma SendKeeps(graph: seq<seq<nat>>, dist: nat -> real, L: nat, init: set<nat>, pool: seq<Neighbor>, seen: set<nat>,
                  sent: set<nat>, done: set<nat>, k: nat)
    requires Consistent(graph, dist, L, init, pool, seen, sent, done) && k < |pool| && pool[k].flag
    ensures pool[k].id in seen && pool[k].id !in sent && pool[k].id < |graph|
    ensures Consistent(graph, dist, L, init, pool[k := pool[k].(flag := false)], seen, sent + {pool[k].id}, done)
  {
    var r := pool[k := pool[k].(flag := false)];
    forall x | InPool(pool, x)
      ensures InPool(r, x)
    {
      var i :| 0 <= i < |pool| && pool[i].id == x;
      assert r[i].id == x;
    }
    hide Discovered;
  }

  /** Absorbing the list of a chosen node. */
  lemma ExpandKeeps(graph: seq<seq<nat>>, dist: nat -> real, L: nat, init: set<nat>, f: Found, sent: set<nat>,
                    done: set<nat>, n: nat)
    requires Consistent(graph, dist, L, init, f.pool, f.seen, sent, done)
    requires n in sent && n < |graph| && InRange(Members(graph[n]), |graph|)
    ensures var g := Absorb(dist, L, f, graph[n]);
            Consistent(graph, dist, L, init, g.pool, g.seen, sent, done + {n}) && GrownFrom(f, g)
  {
    AbsorbKeeps(dist, L, f, graph[n]);
    DiscoveredAdd(graph, init, done, n);
    var g := Absorb(dist, L, f, graph[n]);
    hide NearestPool, Absorb, Discovered, GrownFrom, FlagsTell;
    GrownFlags(f, g, sent);
  }

  /** Everything in the pool has been expanded, the pool holds the L nearest of all that was discovered, and a
      neighbour of a pool member is itself in the pool or no nearer than any entry. */
  ghost predicate FixedPoint(graph: seq<seq<nat>>, dist: nat -> real, L: nat, init: set<nat>, pool: seq<Neighbor>,
                             expanded: set<nat>) {
    && InRange(expanded, |graph|) && expanded <= Discovered(graph, init, expanded)
    && NearestPool(dist, L, pool, Discovered(graph, init, expanded))
    && (forall i :: 0 <= i < |pool| ==> pool[i].id in expanded)
    && (forall i, y :: 0 <= i < |pool| && y in Members(graph[pool[i].id]) ==> NotNearer(dist, L, pool, y))
  }

  ghost predicate NotNearer(dist: nat -> real, L: nat, pool: seq<Neighbor>, y: nat) {
    InPool(pool, y) || (|pool| == L && forall j :: 0 <= j < |pool| ==> pool[j].distance <= dist(y))
  }

  lemma AllDoneFixed(graph: seq<seq<nat>>, dist: nat -> real, L: nat, init: set<nat>, pool: seq<Neighbor>,
                     seen: set<nat>, sent: set<nat>, done: set<nat>)
    requires Consistent(graph, dist, L, init, pool, seen, sent, done)
    requires forall i :: 0 <= i < |pool| ==> pool[i].id in done
    ensures FixedPoint(graph, dist, L, init, pool, done)
  {
    forall i, y | 0 <= i < |pool| && y in Members(graph[pool[i].id])
      ensures NotNearer(dist, L, pool, y)
    {
      assert y in seen;
    }
  }

  lemma ExitFixed(graph: seq<seq<nat>>, dist: nat -> real, L: nat, init: set<nat>, pool: seq<Neighbor>, seen: set<nat>,
                  done: set<nat>)
    requires Consistent(graph, dist, L, init, pool, seen, done, done) && Settled(pool, |pool|)
    ensures FixedPoint(graph, dist, L, init, pool, done)
  {
    hide NearestPool, Discovered, FixedPoint;
    AllDoneFixed(graph, dist, L, init, pool, seen, done, done);
  }

  /** Everything before position k has been chosen for expansion. */
  ghost predicate Settled(pool: seq<Neighbor>, k: nat) {
    forall i :: 0 <= i < k && i < |pool| ==> !pool[i].flag
  }

  /** How the next position follows from the lowest position changed in the round. */
  lemma SettledAfter(f: Found, g: Found, k: nat)
    requires GrownFrom(f, g) && f.nk == |f.pool| && k < |f.pool| && Settled(f.pool, k + 1)
    ensures Settled(g.pool, if g.nk <= k then g.nk else k + 1)
  {
  }

  /** Ids not discovered yet: the outer part of the termination measure. */
  ghost function Unseen(n: nat, seen: set<nat>): nat {
    |set x: nat | x < n && x !in seen|
  }

  lemma UnseenShrinks(n: nat, seen: set<nat>, more: set<nat>)
    requires seen <= more && InRange(more, n)
    ensures Unseen(n, more) <= Unseen(n, seen) && (more != seen ==> Unseen(n, more) < Unseen(n, seen))
  {
    var a, b := set x: nat | x < n && x !in seen, set x: nat | x < n && x !in more;
    assert b <= a;
    var gained := more - seen;
    assert a == b + gained;
    if more != seen {
      assert more == seen + gained;
      assert gained != {};
    }
  }

  /** Copy a neighbour list, stopping at an id outside the graph (where the index reports "Wrong id found" and
      aborts). */
  method CopyList(list: seq<nat>, n: nat) returns (ok: bool, des: seq<nat>)
    ensures ok <==> InRange(Members(list), n)
    ensures ok ==> des == list
  {
    des := [];
    for m := 0 to |list|
      invariant des == list[..m] && forall i :: 0 <= i < m ==> list[i] < n
    {
      if list[m] >= n {
        assert list[m] in Members(list);
        return false, des;
      }
      des := des + [list[m]];
    }
    return true, des;
  }

  /** Read the neighbour list of a chosen node and absorb it. */
  method Expand(graph: seq<seq<nat>>, dist: nat -> real, L: nat, best: array<Neighbor>, l0: nat, seen0: set<nat>,
                nk0: nat, n: nat, ghost init: set<nat>, ghost sent: set<nat>, ghost done: set<nat>)
    returns (ok: bool, l: nat, seen: set<nat>, nk: nat)
    requires l0 <= L < best.Length && nk0 <= l0
    requires Consistent(graph, dist, L, init, best[..l0], seen0, sent, done) && n in sent && n < |graph|
    modifies best
    ensures ok <==> InRange(Members(graph[n]), |graph|)
    ensures l <= L && nk <= l
    ensures ok ==> Consistent(graph, dist, L, init, best[..l], seen, sent, done + {n})
    ensures ok ==> GrownFrom(Found(old(best[..l0]), seen0, nk0), Found(best[..l], seen, nk))
  {
    hide NearestPool, FlagsTell, Discovered, InRange;
    ghost var f := Found(best[..l0], seen0, nk0);
    l, seen, nk := l0, seen0, nk0;
    var des;
    ok, des := CopyList(graph[n], |graph|);
    if ok {
      ExpandKeeps(graph, dist, L, init, f, sent, done, n);
      l, seen, nk := AbsorbInPlace(best, l0, L, seen0, nk0, des, dist);
    }
  }

  /** `s` lists exactly `ids`, each once and at its true distance. */
  ghost predicate Listing(dist: nat -> real, s: seq<Neighbor>, ids: set<nat>) {
    DistinctIds(s) && TrueEntries(dist, s, ids) && forall x :: x in ids ==> InPool(s, x)
  }

  lemma ListingAdd(dist: nat -> real, s: seq<Neighbor>, ids: set<nat>, e: Neighbor)
    requires Listing(dist, s, ids) && e.id !in ids && e.distance == dist(e.id)
    ensures Listing(dist, s + [e], ids + {e.id})
  {
    var r := s + [e];
    forall x | x in ids + {e.id}
      ensures InPool(r, x)
    {
      if x == e.id {
        assert r[|s|].id == x;
      } else {
        var i :| 0 <= i < |s| && s[i].id == x;
        assert r[i].id == x;
      }
    }
  }

  /** A pool before any expansion: distinct start points, all unexpanded. */
  ghost predicate Starting(dist: nat -> real, pool: seq<Neighbor>, seen: set<nat>) {
    Listing(dist, pool, seen) && forall i :: 0 <= i < |pool| ==> pool[i].flag
  }

  lemma StartingAdd(dist: nat -> real, pool: seq<Neighbor>, seen: set<nat>, id: nat)
    requires Starting(dist, pool, seen) && id !in seen
    ensures Starting(dist, pool + [Neighbor(id, dist(id), true, false)], seen + {id})
  {
    hide Listing;
    ListingAdd(dist, pool, seen, Neighbor(id, dist(id), true, false));
  }

  lemma StartingSort(dist: nat -> real, pool: seq<Neighbor>, seen: set<nat>)
    requires Starting(dist, pool, seen)
    ensures Starting(dist, SortNeighbors(pool), seen)
  {
    SortKeeps(pool);
    var r := SortNeighbors(pool);
    hide Sorted, SortNeighbors;
    forall x | x in seen
      ensures InPool(r, x)
    {
      var i :| 0 <= i < |pool| && pool[i].id == x;
      assert pool[i] in r;
    }
  }

  lemma StartingConsistent(graph: seq<seq<nat>>, dist: nat -> real, L: nat, pool: seq<Neighbor>, seen: set<nat>)
    requires 1 <= |pool| <= L && Starting(dist, pool, seen) && Sorted(pool) && InRange(seen, |graph|)
    ensures Consistent(graph, dist, L, seen, pool, seen, {}, {})
  {
    assert Discovered(graph, seen, {}) == seen;
  }

  /** The first L distinct start points. */
  method Fill(dist: nat -> real, L: nat, init: seq<nat>, best: array<Neighbor>) returns (l: nat, seen: set<nat>)
    requires 1 <= L < best.Length
    modifies best
    ensures l <= L && Starting(dist, best[..l], seen) && seen <= Members(init)
    ensures l < L ==> seen == Members(init)
    ensures init != [] ==> l > 0
  {
    l, seen := 0, {};
    var i := 0;
    while i < |init|
      invariant i <= |init| && l < L && Starting(dist, best[..l], seen) && seen == Members(init[..i])
      invariant i > 0 ==> l > 0
    {
      hide Starting;
      var id := init[i];
      MembersSnoc(init[..i + 1]);
      assert init[..i + 1][..i] == init[..i];
      if id !in seen {
        ghost var pool := best[..l];
        StartingAdd(dist, pool, seen, id);
        best[l] := Neighbor(id, dist(id), true, false);
        l, seen := l + 1, seen + {id};
        assert best[..l] == pool + [Neighbor(id, dist(id), true, false)];
      }
      if l == L {
        return;
      }
      i := i + 1;
    }
    assert init[..i] == init;
  }

  method SortPrefix(best: array<Neighbor>, l: nat)
    requires l <= best.Length
    modifies best
    ensures best[..l] == SortNeighbors(old(best[..l]))
  {
    var s := SortNeighbors(best[..l]);
    SortKeeps(best[..l]);
    forall i | 0 <= i < l {
      best[i] := s[i];
    }
  }

  /** Set up the pool: the first L distinct start points, sorted. */
  method InitPool(graph: seq<seq<nat>>, dist: nat -> real, L: nat, init: seq<nat>, best: array<Neighbor>)
    returns (l: nat, seen: set<nat>)
    requires 1 <= L < best.Length && init != [] && InRange(Members(init), |graph|)
    modifies best
    ensures l <= L && seen <= Members(init) && (l < L ==> seen == Members(init))
    ensures Consistent(graph, dist, L, seen, best[..l], seen, {}, {})
  {
    l, seen := Fill(dist, L, init, best);
    ghost var s := best[..l];
    SortPrefix(best, l);
    hide Starting, Consistent;
    StartingSort(dist, s, seen);
    SortKeeps(s);
    StartingConsistent(graph, dist, L, best[..l], seen);
  }

  /** Expand the unexpanded entry at position k, and find the next position. */
  method ExpandAt(graph: seq<seq<nat>>, dist: nat -> real, L: nat, best: array<Neighbor>, l0: nat, seen0: set<nat>,
                  k0: nat, ghost init: set<nat>, ghost done: set<nat>)
    returns (ok: bool, l: nat, seen: set<nat>, k: nat)
    requires k0 < l0 <= L < best.Length && best[k0].flag && Settled(best[..l0], k0)
    requires Consistent(graph, dist, L, init, best[..l0], seen0, done, done)
    modifies best
    ensures old(best[k0].id) !in done && old(best[k0].distance) == dist(old(best[k0].id)) && old(best[k0].id) < |graph|
    ensures ok <==> InRange(Members(graph[old(best[k0].id)]), |graph|)
    ensures ok ==> k <= l <= L && Settled(best[..l], k)
                   && Consistent(graph, dist, L, init, best[..l], seen, done + {old(best[k0].id)},
                                 done + {old(best[k0].id)})
                   && l0 <= l && seen0 <= seen && (seen == seen0 ==> l == l0 && k == k0 + 1)
  {
    ghost var pool := best[..l0];
    assert pool[k0] == best[k0];
    var n := best[k0].id;
    SendKeeps(graph, dist, L, init, pool, seen0, done, done, k0);
    best[k0] := best[k0].(flag := false);
    ghost var f := Found(best[..l0], seen0, l0);
    assert f.pool == pool[k0 := pool[k0].(flag := false)];
    var nk: nat;
    hide Discovered, FlagsTell;
    assert best[k0].distance == dist(n);
    assert Settled(f.pool, k0 + 1);
    hide Consistent, Settled, NearestPool;
    ok, l, seen, nk := Expand(graph, dist, L, best, l0, seen0, l0, n, init, done + {n}, done);
    k := if nk <= k0 then nk else k0 + 1;
    if ok {
      SettledAfter(f, Found(best[..l], seen, nk), k0);
    }
  }

  /** The nodes that are reported as expanded. */
  ghost function Reported(done: set<nat>, ep: nat, dropEp: bool): (r: set<nat>)
    ensures forall x :: x in r <==> x in done && !(dropEp && x == ep)
  {
    if dropEp then done - {ep} else done
  }

  /** One expansion, with the expanded node reported unless it is a frozen entry point that is not wanted. */
  method ExpandRound(graph: seq<seq<nat>>, dist: nat -> real, L: nat, best: array<Neighbor>, l0: nat, seen0: set<nat>,
                     k0: nat, expanded0: seq<Neighbor>, ep: nat, dropEp: bool, ghost init: set<nat>,
                     ghost done0: set<nat>)
    returns (ok: bool, l: nat, seen: set<nat>, k: nat, expanded: seq<Neighbor>, ghost done: set<nat>)
    requires k0 < l0 <= L < best.Length && best[k0].flag && Settled(best[..l0], k0)
    requires Consistent(graph, dist, L, init, best[..l0], seen0, done0, done0)
    requires Listing(dist, expanded0, Reported(done0, ep, dropEp))
    modifies best
    ensures !ok ==> !WellFormed(graph)
    ensures ok ==>
              && l0 <= l <= L && k <= l && Settled(best[..l], k)
              && Consistent(graph, dist, L, init, best[..l], seen, done, done)
    ensures ok ==> Listing(dist, expanded, Reported(done, ep, dropEp))
    ensures ok ==> Unseen(|graph|, seen) < Unseen(|graph|, seen0)
                   || (Unseen(|graph|, seen) == Unseen(|graph|, seen0) && l == l0 && k == k0 + 1)
  {
    hide Consistent, Settled, Listing, Unseen, InRange;
    expanded, done := expanded0, done0;
    var entry := best[k0].(flag := false);
    ok, l, seen, k := ExpandAt(graph, dist, L, best, l0, seen0, k0, init, done);
    if !ok {
      return;
    }
    done := done + {entry.id};
    if !(entry.id == ep && dropEp) {
      ListingAdd(dist, expanded, Reported(done0, ep, dropEp), entry);
      expanded := expanded + [entry];
      assert Reported(done, ep, dropEp) == Reported(done0, ep, dropEp) + {entry.id};
    } else {
      assert Reported(done, ep, dropEp) == Reported(done0, ep, dropEp);
    }
    SeenInRange(graph, dist, L, init, best[..l], seen, done, done);
    UnseenShrinks(|graph|, seen0, seen);
  }

  /** The in-memory search. A list with an id outside the graph makes it abort; otherwise it stops at a fixed point.
      `expanded` lists each expanded node once, leaving out a frozen entry point unless it is wanted. */
  method IterateToFixedPoint(graph: seq<seq<nat>>, dist: nat -> real, L: nat, init: seq<nat>, ep: nat, hasFrozen: bool,
                             retFrozen: bool)
    returns (ok: bool, pool: seq<Neighbor>, expanded: seq<Neighbor>, ghost start: set<nat>, ghost done: set<nat>)
    requires L >= 1 && InRange(Members(init), |graph|)
    ensures !ok ==> !WellFormed(graph)
    ensures init == [] ==> pool == [] && expanded == []
    ensures start <= Members(init) && (ok ==> start == Members(init) || |pool| == L)
    ensures ok && init != [] ==> FixedPoint(graph, dist, L, start, pool, done)
    ensures ok ==> Listing(dist, expanded, Reported(done, ep, hasFrozen && !retFrozen))
  {
    hide Consistent, Settled, Listing, FixedPoint, Unseen, InRange, WellFormed;
    var best := new Neighbor[L + 1](i => Neighbor(0, 0.0, false, false));
    expanded, pool, start, done := [], [], {}, {};
    ListingNone(dist);
    assert Reported({}, ep, hasFrozen && !retFrozen) == {};
    if init == [] {
      return true, pool, expanded, start, done;
    }
    var l, seen := InitPool(graph, dist, L, init, best);
    start := seen;
    var k: nat := 0;
    SettledNone(best[..l]);
    while k < l
      invariant k <= l <= L && Settled(best[..l], k) && (start == Members(init) || l == L)
      invariant Consistent(graph, dist, L, start, best[..l], seen, done, done)
      invariant Listing(dist, expanded, Reported(done, ep, hasFrozen && !retFrozen))
      decreases Unseen(|graph|, seen), l - k
    {
      if best[k].flag {
        ok, l, seen, k, expanded, done :=
          ExpandRound(graph, dist, L, best, l, seen, k, expanded, ep, hasFrozen && !retFrozen, start, done);
        if !ok {
          return;
        }
      } else {
        SettledSkip(best[..l], k);
        k := k + 1;
      }
    }
    pool := best[..l];
    ok := true;
    ExitFixed(graph, dist, L, start, pool, seen, done);
  }

  lemma ListingNone(dist: nat -> real)
    ensures Listing(dist, [], {})
  {
  }

  lemma SettledNone(pool: seq<Neighbor>)
    ensures Settled(pool, 0)
  {
  }

  lemma SettledSkip(pool: seq<Neighbor>, k: nat)
    requires k < |pool| && Settled(pool, k) && !pool[k].flag
    ensures Settled(pool, k + 1)
  {
  }

  lemma SeenInRange(graph: seq<seq<nat>>, dist: nat -> real, L: nat, init: set<nat>, pool: seq<Neighbor>,
                    seen: set<nat>, sent: set<nat>, done: set<nat>)
    requires Consistent(graph, dist, L, init, pool, seen, sent, done)
    ensures InRange(seen, |graph|)
  {
  }
}
