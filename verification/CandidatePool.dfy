/** What the three graph searches share: a bounded pool of the nearest discovered ids, fed by the neighbour lists of
    expanded nodes. */
module CandidatePool {
  import opened Counting
  import opened NeighborPool

  ghost predicate InPool(pool: seq<Neighbor>, x: nat) {
    exists i :: 0 <= i < |pool| && pool[i].id == x
  }

  ghost predicate TrueEntries(dist: nat -> real, pool: seq<Neighbor>, seen: set<nat>) {
    forall i :: 0 <= i < |pool| ==> pool[i].id in seen && pool[i].distance == dist(pool[i].id)
  }

  /** A discovered id that is not in the pool is no nearer than any entry, and the pool is full. */
  ghost predicate LeftOutFarther(dist: nat -> real, L: nat, pool: seq<Neighbor>, seen: set<nat>) {
    forall x :: x in seen && !InPool(pool, x) ==> |pool| == L && forall i :: 0 <= i < |pool| ==>
      pool[i].distance <= dist(x)
  }

  /** The pool holds the L nearest of the discovered ids, up to ties, nearest first. */
  ghost predicate NearestPool(dist: nat -> real, L: nat, pool: seq<Neighbor>, seen: set<nat>) {
    && 1 <= |pool| <= L && Sorted(pool) && DistinctIds(pool) && TrueEntries(dist, pool, seen)
    && LeftOutFarther(dist, L, pool, seen)
  }

  /** A newly discovered id is dropped if the pool is full and it is no nearer than the last entry, otherwise
      inserted, the last entry of a full pool falling off. */
  function Offer(L: nat, pool: seq<Neighbor>, nn: Neighbor): (r: seq<Neighbor>)
    requires 1 <= |pool| <= L
    ensures |pool| <= |r| <= L
  {
    if |pool| == L && nn.distance >= pool[L - 1].distance then pool
    else
      var p := PoolInsert(pool, nn);
      if |p| <= L then p else p[..L]
  }

  /** Where the entry went, or past the end. */
  function OfferPos(L: nat, pool: seq<Neighbor>, nn: Neighbor): (p: nat)
    requires 1 <= |pool| <= L
  {
    if |pool| == L && nn.distance >= pool[L - 1].distance then |pool| else InsertPos(pool, nn.distance)
  }

  /** `r` is `pool` with `nn` inserted at `p`, cut to length L. */
  ghost predicate InsertedAt(L: nat, pool: seq<Neighbor>, nn: Neighbor, p: nat, r: seq<Neighbor>) {
    && p < |r| && |r| == (if |pool| < L then |pool| + 1 else |pool|) && r[p] == nn
    && (forall i :: 0 <= i < p ==> r[i] == pool[i])
    && (forall i :: p < i < |r| ==> r[i] == pool[i - 1])
  }

  lemma OfferShape(L: nat, pool: seq<Neighbor>, nn: Neighbor)
    requires 1 <= |pool| <= L && Sorted(pool)
    ensures var r, p := Offer(L, pool, nn), OfferPos(L, pool, nn);
            Sorted(r) && ((|pool| == L && pool[L - 1].distance <= nn.distance && p == L && r == pool)
                          || InsertedAt(L, pool, nn, p, r))
  {
    PoolInsertSorted(pool, nn);
  }

  lemma InsertedDistinct(L: nat, pool: seq<Neighbor>, nn: Neighbor, p: nat, r: seq<Neighbor>)
    requires 1 <= |pool| <= L && InsertedAt(L, pool, nn, p, r) && DistinctIds(pool) && !InPool(pool, nn.id)
    ensures DistinctIds(r)
  {
  }

  /** Every old entry is still there, unless the pool was full and it was the last one. */
  lemma InsertedMembers(L: nat, pool: seq<Neighbor>, nn: Neighbor, p: nat, r: seq<Neighbor>, x: nat)
    requires 1 <= |pool| <= L && InsertedAt(L, pool, nn, p, r)
    ensures InPool(r, nn.id)
    ensures InPool(pool, x) ==> InPool(r, x) || (|pool| == L && pool[L - 1].id == x)
  {
    assert r[p].id == nn.id;
    if InPool(pool, x) {
      var i :| 0 <= i < |pool| && pool[i].id == x;
      if i < p {
        assert r[i].id == x;
      } else if i + 1 < |r| {
        assert r[i + 1] == pool[i];
      }
    }
  }

  /** A full pool in which an entry was inserted keeps no entry farther than the old last one. */
  lemma InsertedNearer(L: nat, pool: seq<Neighbor>, nn: Neighbor, p: nat, r: seq<Neighbor>, d: real)
    requires 1 <= |pool| == L && Sorted(pool) && InsertedAt(L, pool, nn, p, r)
    requires nn.distance <= pool[L - 1].distance <= d
    ensures forall i :: 0 <= i < |r| ==> r[i].distance <= d
  {
    forall i | 0 <= i < |r|
      ensures r[i].distance <= d
    {
      if i > p {
        assert r[i] == pool[i - 1];
      }
    }
  }

  lemma OfferKeepsNearest(dist: nat -> real, L: nat, pool: seq<Neighbor>, seen: set<nat>, nn: Neighbor)
    requires NearestPool(dist, L, pool, seen) && nn.id !in seen && nn.distance == dist(nn.id)
    ensures NearestPool(dist, L, Offer(L, pool, nn), seen + {nn.id})
  {
    OfferShape(L, pool, nn);
    var r, p := Offer(L, pool, nn), OfferPos(L, pool, nn);
    if r != pool {
      assert nn.distance < pool[|pool| - 1].distance || |pool| < L by { hide PoolInsert, InsertPos; }
      OfferInserted(dist, L, pool, seen, nn, p, r);
    } else if InsertedAt(L, pool, nn, p, r) {
      assert false;
    }
  }

  lemma OfferLeftOut(dist: nat -> real, L: nat, pool: seq<Neighbor>, seen: set<nat>, nn: Neighbor, p: nat,
                     r: seq<Neighbor>)
    requires NearestPool(dist, L, pool, seen) && nn.id !in seen && nn.distance == dist(nn.id)
    requires InsertedAt(L, pool, nn, p, r) && (nn.distance < pool[|pool| - 1].distance || |pool| < L)
    ensures LeftOutFarther(dist, L, r, seen + {nn.id})
  {
    forall x | x in seen + {nn.id} && !InPool(r, x)
      ensures |r| == L && forall i :: 0 <= i < |r| ==> r[i].distance <= dist(x)
    {
      hide InsertedAt, DistinctIds, Sorted;
      InsertedMembers(L, pool, nn, p, r, x);
      InsertedLength(L, pool, nn, p, r);
      assert pool[L - 1].distance <= dist(x);
      InsertedNearer(L, pool, nn, p, r, dist(x));
    }
  }

  lemma OfferInserted(dist: nat -> real, L: nat, pool: seq<Neighbor>, seen: set<nat>, nn: Neighbor, p: nat,
                      r: seq<Neighbor>)
    requires NearestPool(dist, L, pool, seen) && nn.id !in seen && nn.distance == dist(nn.id)
    requires InsertedAt(L, pool, nn, p, r) && Sorted(r) && (nn.distance < pool[|pool| - 1].distance || |pool| < L)
    ensures NearestPool(dist, L, r, seen + {nn.id})
  {
    hide LeftOutFarther, Sorted, DistinctIds;
    assert !InPool(pool, nn.id);
    InsertedDistinct(L, pool, nn, p, r);
    OfferLeftOut(dist, L, pool, seen, nn, p, r);
  }

  /** The search's view of what it has found: the pool, the discovered ids, and the lowest pool position changed so far
      in this round. */
  datatype Found = Found(pool: seq<Neighbor>, seen: set<nat>, nk: nat)

  function AbsorbOne(dist: nat -> real, L: nat, f: Found, id: nat): (r: Found)
    requires 1 <= |f.pool| <= L
    ensures |f.pool| <= |r.pool| <= L
  {
    if id in f.seen then f
    else
      var nn := Neighbor(id, dist(id), true, false);
      var p := OfferPos(L, f.pool, nn);
      Found(Offer(L, f.pool, nn), f.seen + {id}, if p < f.nk then p else f.nk)
  }

  /** Offer the ids of a neighbour list one after another. */
  function Absorb(dist: nat -> real, L: nat, f: Found, des: seq<nat>): (r: Found)
    requires 1 <= |f.pool| <= L
    ensures |f.pool| <= |r.pool| <= L
  {
    if des == [] then f else AbsorbOne(dist, L, Absorb(dist, L, f, des[..|des| - 1]), des[|des| - 1])
  }

  /** A pool that grew out of another one by offers: below `nk` nothing moved, and every entry is an old one or a fresh
      flagged one. */
  ghost predicate GrownFrom(f: Found, g: Found) {
    && g.nk <= f.nk && |f.pool| <= |g.pool| && f.seen <= g.seen
    && (forall i :: 0 <= i < g.nk && i < |f.pool| ==> g.pool[i] == f.pool[i])
    && (forall i :: 0 <= i < |g.pool| ==> OldOrFresh(f, g.pool[i]))
    && (g.seen == f.seen ==> g == f)
  }

  ghost predicate OldOrFresh(f: Found, e: Neighbor) {
    (exists j :: 0 <= j < |f.pool| && f.pool[j] == e) || (e.id !in f.seen && e.flag && !e.visited)
  }

  lemma GrownTrans(f0: Found, f: Found, g: Found)
    requires GrownFrom(f0, f) && GrownFrom(f, g)
    ensures GrownFrom(f0, g)
  {
    forall i | 0 <= i < |g.pool|
      ensures OldOrFresh(f0, g.pool[i])
    {
      assert OldOrFresh(f, g.pool[i]);
    }
  }

  lemma InsertedGrows(L: nat, f: Found, nn: Neighbor, p: nat, g: Found)
    requires |f.pool| <= L && InsertedAt(L, f.pool, nn, p, g.pool) && nn.id !in f.seen && nn.flag && !nn.visited
    requires g.seen == f.seen + {nn.id} && g.nk <= f.nk && g.nk <= p
    ensures GrownFrom(f, g)
  {
    forall i | 0 <= i < |g.pool|
      ensures OldOrFresh(f, g.pool[i])
    {
      if i < p {
        assert g.pool[i] == f.pool[i];
      } else if i > p {
        assert g.pool[i] == f.pool[i - 1];
      }
    }
  }

  lemma AbsorbOneGrows(dist: nat -> real, L: nat, f: Found, id: nat)
    requires 1 <= |f.pool| <= L && NearestPool(dist, L, f.pool, f.seen)
    ensures GrownFrom(f, AbsorbOne(dist, L, f, id))
  {
    assert forall i :: 0 <= i < |f.pool| ==> OldOrFresh(f, f.pool[i]);
    if id !in f.seen {
      var nn := Neighbor(id, dist(id), true, false);
      OfferShape(L, f.pool, nn);
      var g := AbsorbOne(dist, L, f, id);
      var p := OfferPos(L, f.pool, nn);
      hide Offer, OfferPos, NearestPool, Sorted, InsertedAt;
      if InsertedAt(L, f.pool, nn, p, g.pool) {
        InsertedGrows(L, f, nn, p, g);
      }
    }
  }

  lemma AbsorbOneNearest(dist: nat -> real, L: nat, f: Found, id: nat)
    requires 1 <= |f.pool| <= L && NearestPool(dist, L, f.pool, f.seen)
    ensures var g := AbsorbOne(dist, L, f, id); NearestPool(dist, L, g.pool, g.seen) && g.seen == f.seen + {id}
  {
    if id !in f.seen {
      OfferKeepsNearest(dist, L, f.pool, f.seen, Neighbor(id, dist(id), true, false));
    } else {
      assert f.seen == f.seen + {id};
    }
  }

  lemma GrownRefl(f: Found)
    ensures GrownFrom(f, f)
  {
    assert forall i :: 0 <= i < |f.pool| ==> OldOrFresh(f, f.pool[i]);
  }

  lemma MembersSnoc(s: seq<nat>)
    requires s != []
    ensures Members(s) == Members(s[..|s| - 1]) + {s[|s| - 1]}
  {
    assert s == s[..|s| - 1] + [s[|s| - 1]];
  }

  /** The lowest position changed holds an entry that was not discovered before. */
  lemma {:induction false} AbsorbFirst(dist: nat -> real, L: nat, f: Found, des: seq<nat>)
    requires 1 <= |f.pool| <= L && NearestPool(dist, L, f.pool, f.seen)
    ensures var g := Absorb(dist, L, f, des); g.nk < f.nk && g.nk < |g.pool| ==> g.pool[g.nk].id !in f.seen
  {
    if des != [] {
      var ds, y := des[..|des| - 1], des[|des| - 1];
      AbsorbFirst(dist, L, f, ds);
      AbsorbKeeps(dist, L, f, ds);
      var h := Absorb(dist, L, f, ds);
      hide Absorb, NearestPool, GrownFrom;
      AbsorbOneFirst(dist, L, h, y);
      GrownSeen(f, h);
    }
  }

  lemma AbsorbOneFirst(dist: nat -> real, L: nat, f: Found, id: nat)
    requires 1 <= |f.pool| <= L && NearestPool(dist, L, f.pool, f.seen)
    ensures var g := AbsorbOne(dist, L, f, id);
            && g.nk <= f.nk && (g.nk < f.nk && g.nk < |g.pool| ==> g.pool[g.nk].id !in f.seen)
            && (g.nk == f.nk < |f.pool| ==> g.pool[g.nk] == f.pool[g.nk] || g.pool[g.nk].id !in f.seen)
            && (g.nk == f.nk && |f.pool| <= g.nk < |g.pool| ==> g.pool[g.nk].id !in f.seen)
  {
    if id !in f.seen {
      var nn := Neighbor(id, dist(id), true, false);
      OfferShape(L, f.pool, nn);
    }
  }

  lemma GrownSeen(f: Found, g: Found)
    requires GrownFrom(f, g)
    ensures f.seen <= g.seen && |f.pool| <= |g.pool| && g.nk <= f.nk
  {
  }

  /** Absorbing a neighbour list keeps the pool the nearest of the discovered ids, and discovers exactly the list. */
  lemma {:induction false} AbsorbKeeps(dist: nat -> real, L: nat, f: Found, des: seq<nat>)
    requires 1 <= |f.pool| <= L && NearestPool(dist, L, f.pool, f.seen)
    ensures var g := Absorb(dist, L, f, des);
            NearestPool(dist, L, g.pool, g.seen) && g.seen == f.seen + Members(des) && GrownFrom(f, g)
  {
    hide NearestPool, GrownFrom, AbsorbOne, Members;
    if des == [] {
      MembersNone(f.seen);
      GrownRefl(f);
    } else {
      var ds, y := des[..|des| - 1], des[|des| - 1];
      AbsorbKeeps(dist, L, f, ds);
      MembersSnoc(des);
      var g := Absorb(dist, L, f, ds);
      AbsorbOneNearest(dist, L, g, y);
      AbsorbOneGrows(dist, L, g, y);
      GrownTrans(f, g, Absorb(dist, L, f, des));
    }
  }

  /** Insert into the pool held in best[..l]; `best` has one spare place. */
  method OfferInPlace(best: array<Neighbor>, l: nat, L: nat, nn: Neighbor, ghost dist: nat -> real,
                      ghost seen: set<nat>)
    returns (l1: nat, r: nat)
    requires l <= L < best.Length && NearestPool(dist, L, best[..l], seen) && nn.id !in seen
    requires l == L ==> nn.distance < best[l - 1].distance
    modifies best
    ensures l <= l1 <= L && best[..l1] == Offer(L, old(best[..l]), nn) && r == OfferPos(L, old(best[..l]), nn)
  {
    ghost var s := best[..l];
    assert best[l - 1] == s[l - 1];
    assert forall i :: 0 <= i < l ==> best[i] == s[i] && s[i].id != nn.id;
    r := InsertIntoPool(best, l, nn);
    l1 := if l < L then l + 1 else l;
    assert best[..L + 1][..L] == best[..L];
    assert best[..l1] == best[..l + 1][..l1];
  }

  /** The expansion loop over a neighbour list: skip the ids met before, offer the others. */
  method AbsorbInPlace(best: array<Neighbor>, l0: nat, L: nat, seen0: set<nat>, nk0: nat, des: seq<nat>,
                       dist: nat -> real)
    returns (l: nat, seen: set<nat>, nk: nat)
    requires l0 <= L < best.Length && NearestPool(dist, L, best[..l0], seen0) && nk0 <= l0
    modifies best
    ensures l0 <= l <= L && Found(best[..l], seen, nk) == Absorb(dist, L, Found(old(best[..l0]), seen0, nk0), des)
  {
    hide Offer, OfferPos, GrownFrom;
    ghost var f := Found(best[..l0], seen0, nk0);
    l, seen, nk := l0, seen0, nk0;
    for m := 0 to |des|
      invariant l0 <= l <= L && nk <= nk0 && Found(best[..l], seen, nk) == Absorb(dist, L, f, des[..m])
    {
      AbsorbKeeps(dist, L, f, des[..m]);
      assert des[..m + 1][..m] == des[..m];
      var id := des[m];
      if id !in seen {
        var nn := Neighbor(id, dist(id), true, false);
        ghost var before := best[..l];
        assert best[l - 1] == before[l - 1];
        if l == L && nn.distance >= best[l - 1].distance {
          OfferDropped(L, before, nn);
        } else {
          var r: nat;
          l, r := OfferInPlace(best, l, L, nn, dist, seen);
          nk := if r < nk then r else nk;
        }
        seen := seen + {id};
      }
    }
    assert des[..|des|] == des;
  }

  lemma InsertedLength(L: nat, pool: seq<Neighbor>, nn: Neighbor, p: nat, r: seq<Neighbor>)
    requires InsertedAt(L, pool, nn, p, r)
    ensures |r| == if |pool| < L then |pool| + 1 else |pool|
  {
  }

  lemma MembersNone(s: set<nat>)
    ensures s == s + Members([])
  {
  }

  lemma OfferDropped(L: nat, pool: seq<Neighbor>, nn: Neighbor)
    requires 1 <= |pool| == L && nn.distance >= pool[L - 1].distance
    ensures Offer(L, pool, nn) == pool && OfferPos(L, pool, nn) == |pool|
  {
  }
}
