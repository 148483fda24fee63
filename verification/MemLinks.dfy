/** Linking a new point into the in-memory graph: its own pruned list, and the reverse edges of its neighbours. */
module MemLinks {
  import opened Counting
  import opened Pruning

  /** The settings of an insert: pruning, the slack length up to which a list may grow before it is pruned, and whether
      pruned lists are topped up. */
  datatype Linking = Linking(ps: Settings, slack: nat, saturate: bool)

  /** The pruned list of a location out of the candidates found for it. Callers take the location itself out of them. */
  function MemPruned(k: Linking, found: seq<Candidate>): (r: seq<nat>) {
    var pool := SortPool(found);
    var ids := Ids(KeptOf(k.ps, pool));
    if k.saturate && k.ps.alpha > 1.0 then TopUp(ids, pool, k.ps.range, 0) else ids
  }

  /** prune_neighbors of the in-memory index. */
  method MemPrune(k: Linking, found: seq<Candidate>) returns (pruned: seq<nat>)
    ensures pruned == MemPruned(k, found)
  {
    hide SortPool, KeptOf;
    var pool := SortPool(found);
    var result := OccludeList(k.ps, pool);
    pruned := Ids(result);
    if k.saturate && k.ps.alpha > 1.0 {
      pruned := FillUp(k.ps, pool, pruned);
    }
  }

  /** A pruned list holds at most `range` of the candidates. */
  lemma MemPrunedFacts(k: Linking, found: seq<Candidate>)
    ensures |MemPruned(k, found)| <= k.ps.range && FromPool(MemPruned(k, found), found)
  {
    hide SortPool, KeptOf;
    var pool := SortPool(found);
    KeptIsFrom(k.ps, pool);
    IdsFromPool(pool, KeptOf(k.ps, pool));
    TopUpKeeps(Ids(KeptOf(k.ps, pool)), pool, k.ps.range, 0);
    SamePool(MemPruned(k, found), pool, found);
  }

  /** Another candidate in the list is no farther than c and makes it redundant at `a`. */
  ghost predicate Beaten(ps: Settings, found: seq<Candidate>, list: seq<nat>, c: Candidate, a: real) {
    exists d :: d in found && d.id in list && !Less(c, d) && c.distance > a * ps.dist(d.id, c.id)
  }

  /** What a pruned list is: first the ids that the occlusion keeps, as it keeps them; behind them, if the graph is
      saturated, the nearest candidates that are missing. Unless the occlusion fills the list, every candidate is in it
      or made redundant by a nearer one in it, at a level within a factor 1.2 of alpha. */
  ghost predicate MemPrunedFrom(k: Linking, found: seq<Candidate>, r: seq<nat>, kept: seq<nat>, last: real) {
    var pool, n := SortPool(found), |kept|;
    && n <= |r| <= k.ps.range && Covers(k.ps, pool, kept, n >= k.ps.range, last)
    && (forall i :: 0 <= i < n ==> kept[i] < |pool|) && r[..n] == KeptAs(pool, kept) && TailNearest(found, r, n)
    && (if k.saturate && k.ps.alpha > 1.0
        then |r| < k.ps.range ==> forall c :: c in found ==> c.id in r
        else n == |r|)
    && (1.0 <= k.ps.alpha && |found| <= k.ps.maxc && n < k.ps.range ==>
          && 1.0 <= last <= k.ps.alpha < last * 1.2
          && forall c :: c in found ==> c.id in r[..n] || Beaten(k.ps, found, r[..n], c, last))
  }

  lemma MemPrunedIs(k: Linking, found: seq<Candidate>) returns (kept: seq<nat>, last: real)
    requires NonNegative(found, k.ps.dist)
    ensures MemPrunedFrom(k, found, MemPruned(k, found), kept, last)
  {
    hide SortPool, KeptOf, Covers, TailNearest, SortedPool, TopUp;
    var pool, r := SortPool(found), MemPruned(k, found);
    SortedNonNegative(k.ps, found, pool);
    kept, last := KeptCovers(k.ps, pool);
    var ids := Ids(KeptOf(k.ps, pool));
    assert ids == KeptAs(pool, kept);
    MemTail(k, found, pool, ids, r);
    assert r[..|ids|] == ids;
    if 1.0 <= k.ps.alpha && |found| <= k.ps.maxc && |kept| < k.ps.range {
      forall c | c in found
        ensures c.id in ids || Beaten(k.ps, found, ids, c, last)
      {
        BeatenAt(k.ps, found, pool, KeptOf(k.ps, pool), c, last);
      }
    }
  }

  lemma SortedNonNegative(ps: Settings, found: seq<Candidate>, pool: seq<Candidate>)
    requires NonNegative(found, ps.dist) && forall c :: c in pool <==> c in found
    ensures NonNegative(pool, ps.dist)
  {
    forall t | 0 <= t < |pool|
      ensures 0.0 <= pool[t].distance
    {
      assert pool[t] in found;
      var j :| 0 <= j < |found| && found[j] == pool[t];
    }
  }

  lemma MemTail(k: Linking, found: seq<Candidate>, pool: seq<Candidate>, ids: seq<nat>, r: seq<nat>)
    requires SortedPool(pool) && |ids| <= k.ps.range && FromPool(ids, pool) && forall c :: c in pool <==> c in found
    requires r == if k.saturate && k.ps.alpha > 1.0 then TopUp(ids, pool, k.ps.range, 0) else ids
    ensures ids <= r && |r| <= k.ps.range && TailNearest(found, r, |ids|)
    ensures k.saturate && k.ps.alpha > 1.0 && |r| < k.ps.range ==> forall c :: c in found ==> c.id in r
  {
    hide NextNearest, SortedPool, FromPool, TopUp;
    if k.saturate && k.ps.alpha > 1.0 {
      TopUpTail(ids, pool, k.ps.range, 0);
      TopUpKeeps(ids, pool, k.ps.range, 0);
      if |r| < k.ps.range {
        forall c | c in found
          ensures c.id in r
        {
          var t :| 0 <= t < |pool| && pool[t] == c;
        }
      }
    }
    SameTail(pool, found, r, |ids|);
  }

  lemma BeatenAt(ps: Settings, found: seq<Candidate>, pool: seq<Candidate>, r: seq<Candidate>, c: Candidate, last: real)
    requires SortedPool(pool) && (forall d :: d in pool <==> d in found) && c in found
    requires forall t :: 0 <= t < |pool| ==>
               pool[t] in r || exists p :: 0 <= p < t && pool[p] in r && Occludes(pool, ps.dist, p, t, last)
    ensures c.id in Ids(r) || Beaten(ps, found, Ids(r), c, last)
  {
    hide SortedPool, Less;
    var t :| 0 <= t < |pool| && pool[t] == c;
    if pool[t] in r {
      IdOf(r, c);
    } else {
      var p :| 0 <= p < t && pool[p] in r && Occludes(pool, ps.dist, p, t, last);
      IdOf(r, pool[p]);
      InOrder(pool, p, t);
      assert pool[p] in found;
    }
  }

  lemma InOrder(pool: seq<Candidate>, p: nat, t: nat)
    requires SortedPool(pool) && p < t < |pool|
    ensures !Less(pool[t], pool[p])
  {
  }

  /** If no two candidates have the same id, no id is listed twice. */
  lemma MemPrunedDistinct(k: Linking, found: seq<Candidate>)
    requires NonNegative(found, k.ps.dist) && Distinct(Ids(found))
    ensures Distinct(MemPruned(k, found))
  {
    hide KeptOf;
    var pool := SortPool(found);
    SortedNonNegative(k.ps, found, pool);
    SortIdsDistinct(found);
    hide SortPool;
    assert forall i, j :: 0 <= i < j < |pool| ==> Ids(pool)[i] != Ids(pool)[j];
    KeptIdsDistinct(k.ps, pool);
    KeptIsFrom(k.ps, pool);
    IdsFromPool(pool, KeptOf(k.ps, pool));
    TopUpKeeps(Ids(KeptOf(k.ps, pool)), pool, k.ps.range, 0);
  }

  lemma {:induction false} PlaceIds(s: seq<Candidate>, c: Candidate)
    requires SortedPool(s) && Distinct(Ids(s)) && c.id !in Ids(s)
    ensures Distinct(Ids(Place(s, c)))
  {
    if s != [] && Less(s[0], c) {
      assert Ids(s[1..]) == Ids(s)[1..];
      PlaceIds(s[1..], c);
      var t := Place(s[1..], c);
      forall i | 0 <= i < |t|
        ensures Ids(t)[i] != s[0].id
      {
        assert t[i] in t;
        if t[i] in s[1..] {
          var j :| 0 <= j < |s[1..]| && s[1..][j] == t[i];
          assert Ids(s)[j + 1] != Ids(s)[0];
        } else {
          assert Ids(s)[0] in Ids(s);
        }
      }
      assert Ids(Place(s, c)) == [s[0].id] + Ids(t);
    } else {
      assert Ids(Place(s, c)) == [c.id] + Ids(s);
    }
  }

  lemma {:induction false} SortIdsDistinct(found: seq<Candidate>)
    requires Distinct(Ids(found))
    ensures Distinct(Ids(SortPool(found)))
  {
    if found != [] {
      assert Ids(found[1..]) == Ids(found)[1..];
      SortIdsDistinct(found[1..]);
      var p := SortPool(found[1..]);
      forall i | 0 <= i < |p|
        ensures Ids(p)[i] != found[0].id
      {
        assert p[i] in found[1..];
        var j :| 0 <= j < |found[1..]| && found[1..][j] == p[i];
        assert Ids(found)[j + 1] != Ids(found)[0];
      }
      PlaceIds(p, found[0]);
    }
  }

  /** The ids of a list other than `des`, each once. */
  function Others(list: seq<nat>, des: nat): (r: seq<nat>)
    ensures |r| <= |list| && Distinct(r) && forall x :: x in r <==> x in list && x != des
  {
    if list == [] then []
    else
      var r, x := Others(list[..|list| - 1], des), list[|list| - 1];
      assert forall y :: y in list <==> y in list[..|list| - 1] || y == x;
      if x == des || x in r then r else r + [x]
  }

  function CandsOf(k: Linking, des: nat, ids: seq<nat>): (r: seq<Candidate>)
    ensures |r| == |ids|
  {
    seq(|ids|, i requires 0 <= i < |ids| => Candidate(ids[i], k.ps.dist(des, ids[i])))
  }

  /** The list of `des` once it leads to n: nothing changes if it does, n is appended while there is slack, and a list
      without slack is pruned. */
  function BackLinked(k: Linking, des: nat, list: seq<nat>, n: nat): (r: seq<nat>) {
    if n in list then list
    else if |list| < k.slack then list + [n]
    else MemPruned(k, CandsOf(k, des, Others(list + [n], des)))
  }

  method BackLink(k: Linking, des: nat, list: seq<nat>, n: nat) returns (r: seq<nat>)
    ensures r == BackLinked(k, des, list, n)
  {
    if n in list {
      return list;
    }
    if |list| < k.slack {
      return list + [n];
    }
    hide MemPruned;
    var all := list + [n];
    var visited := [];
    for i := 0 to |all|
      invariant visited == Others(all[..i], des)
    {
      assert all[..i + 1][..i] == all[..i];
      if all[i] !in visited && all[i] != des {
        visited := visited + [all[i]];
      }
    }
    assert all[..|all|] == all;
    r := MemPrune(k, CandsOf(k, des, visited));
  }

  /** A reverse link adds at most n, never drops a list below the slack, and never exceeds slack and range. */
  lemma BackLinkedFacts(k: Linking, des: nat, list: seq<nat>, n: nat)
    ensures var r := BackLinked(k, des, list, n);
            && (forall x :: x in r ==> x in list || x == n)
            && (|list| < k.slack ==> n in r && forall x :: x in list ==> x in r)
            && (|r| > |list| ==> |r| <= k.slack || |r| <= k.ps.range)
  {
    var all := list + [n];
    var ids := Others(all, des);
    var found := CandsOf(k, des, ids);
    MemPrunedFacts(k, found);
    var r := MemPruned(k, found);
    assert n in all && forall x :: x in list ==> x in all;
    hide MemPruned;
    forall x | x in r
      ensures x in all
    {
      var i :| 0 <= i < |r| && r[i] == x;
      assert HasId(found, r[i]);
      var j :| 0 <= j < |found| && found[j].id == r[i];
      assert ids[j] in ids;
    }
  }

  /** All reverse edges of a new point n with the list nbrs. */
  function BackLinks(k: Linking, g: seq<seq<nat>>, n: nat, nbrs: seq<nat>): (r: seq<seq<nat>>)
    requires forall i :: 0 <= i < |nbrs| ==> nbrs[i] < |g|
    ensures |r| == |g|
  {
    if nbrs == [] then g
    else
      var h, des := BackLinks(k, g, n, nbrs[..|nbrs| - 1]), nbrs[|nbrs| - 1];
      h[des := BackLinked(k, des, h[des], n)]
  }

  /** inter_insert. */
  method InterInsert(k: Linking, g: seq<seq<nat>>, n: nat, nbrs: seq<nat>) returns (h: seq<seq<nat>>)
    requires forall i :: 0 <= i < |nbrs| ==> nbrs[i] < |g|
    ensures h == BackLinks(k, g, n, nbrs)
  {
    hide BackLinked;
    h := g;
    for i := 0 to |nbrs|
      invariant h == BackLinks(k, g, n, nbrs[..i])
    {
      assert nbrs[..i + 1][..i] == nbrs[..i];
      var list := BackLink(k, nbrs[i], h[nbrs[i]], n);
      h := h[nbrs[i] := list];
    }
    assert nbrs[..|nbrs|] == nbrs;
  }

  /** Reverse edges are the only edges that linking adds, and only the lists of the new neighbours change. */
  lemma {:induction false} BackLinksFacts(k: Linking, g: seq<seq<nat>>, n: nat, nbrs: seq<nat>)
    requires forall i :: 0 <= i < |nbrs| ==> nbrs[i] < |g|
    ensures var h := BackLinks(k, g, n, nbrs);
            && (forall i, x :: 0 <= i < |g| && x in h[i] ==> x in g[i] || (x == n && i in nbrs))
            && (forall i :: 0 <= i < |g| && i !in nbrs ==> h[i] == g[i])
  {
    hide BackLinked;
    if nbrs != [] {
      var rest, des := nbrs[..|nbrs| - 1], nbrs[|nbrs| - 1];
      assert forall y :: y in nbrs <==> y in rest || y == des;
      BackLinksFacts(k, g, n, rest);
      BackLinkedFacts(k, des, BackLinks(k, g, n, rest)[des], n);
    }
  }

  /** What a reverse link leaves out of a list without slack is covered. */
  lemma BackLinkCovers(k: Linking, des: nat, list: seq<nat>, n: nat) returns (kept: seq<nat>, last: real)
    requires n !in list && |list| >= k.slack && forall a, b :: 0.0 <= k.ps.dist(a, b)
    ensures var r, found := BackLinked(k, des, list, n), CandsOf(k, des, Others(list + [n], des));
            MemPrunedFrom(k, found, r, kept, last)
    ensures var r := BackLinked(k, des, list, n);
            1.0 <= k.ps.alpha && |list| + 1 <= k.ps.maxc && |kept| < k.ps.range ==>
              && 1.0 <= last <= k.ps.alpha < last * 1.2
              && forall x :: x in list + [n] && x != des ==> x in r || Shadowed(k.ps, des, x, r, last)
  {
    hide MemPruned, Covers, SortPool, TailNearest;
    var ids, r := Others(list + [n], des), BackLinked(k, des, list, n);
    var found := CandsOf(k, des, ids);
    kept, last := MemPrunedIs(k, found);
    if 1.0 <= k.ps.alpha && |list| + 1 <= k.ps.maxc && |kept| < k.ps.range {
      forall x | x in list + [n] && x != des
        ensures x in r || Shadowed(k.ps, des, x, r, last)
      {
        var i :| 0 <= i < |ids| && ids[i] == x;
        assert found[i] in found;
        if x !in r[..|kept|] {
          BeatenShadows(k, des, ids, r, |kept|, x, last);
        }
      }
    }
  }

  lemma BeatenShadows(k: Linking, des: nat, ids: seq<nat>, r: seq<nat>, n: nat, x: nat, last: real)
    requires n <= |r| && Beaten(k.ps, CandsOf(k, des, ids), r[..n], Candidate(x, k.ps.dist(des, x)), last)
    ensures Shadowed(k.ps, des, x, r, last)
  {
    var found, c := CandsOf(k, des, ids), Candidate(x, k.ps.dist(des, x));
    var d :| d in found && d.id in r[..n] && !Less(c, d) && c.distance > last * k.ps.dist(d.id, c.id);
    assert Shadows(k.ps, des, x, d.id, last);
  }

  /** Each new neighbour's list is linked back from what it was, and no other list changes. */
  lemma {:induction false} BackLinksEach(k: Linking, g: seq<seq<nat>>, n: nat, nbrs: seq<nat>)
    requires Distinct(nbrs) && forall i :: 0 <= i < |nbrs| ==> nbrs[i] < |g|
    ensures forall i :: 0 <= i < |g| ==>
              BackLinks(k, g, n, nbrs)[i] == if i in nbrs then BackLinked(k, i, g[i], n) else g[i]
  {
    hide BackLinked;
    if nbrs != [] {
      var rest, des := nbrs[..|nbrs| - 1], nbrs[|nbrs| - 1];
      assert des !in rest && forall y :: y in nbrs <==> y in rest || y == des;
      BackLinksEach(k, g, n, rest);
    }
  }

  /** The graph with a new point n: its list, and the reverse edges of its neighbours. */
  ghost predicate Linked(k: Linking, g: seq<seq<nat>>, n: nat, list: seq<nat>, g': seq<seq<nat>>) {
    && n < |g| && (forall i :: 0 <= i < |list| ==> list[i] < |g|)
    && g' == BackLinks(k, g[n := list], n, list)
  }

  /** The point n is reachable over i: i leads to n, or to a nearer y that leads close to n. */
  ghost predicate LeadsTo(k: Linking, i: nat, list: seq<nat>, n: nat, last: real) {
    n in list || Shadowed(k.ps, i, n, list, last)
  }

  /** A new point is linked both ways: its list is the pruning of its candidates, and each neighbour on it with slack
      leads back to it and keeps all its edges. One without slack is pruned; unless the occlusion fills its list, it
      leads to the new point or to a neighbour that makes that edge redundant. */
  lemma LinkedBothWays(k: Linking, g: seq<seq<nat>>, n: nat, found: seq<Candidate>, g': seq<seq<nat>>, i: nat)
    returns (kept: seq<nat>, last: real)
    requires Linked(k, g, n, MemPruned(k, found), g') && NonNegative(found, k.ps.dist) && Distinct(Ids(found))
    requires (forall c :: c in found ==> c.id != n) && i in MemPruned(k, found)
    ensures i < |g| && i != n && |g'| == |g| && g'[n] == MemPruned(k, found)
    ensures n in g[i] ==> g'[i] == g[i]
    ensures n !in g[i] && |g[i]| < k.slack ==> g'[i] == g[i] + [n]
    ensures n !in g[i] && |g[i]| >= k.slack ==>
              MemPrunedFrom(k, CandsOf(k, i, Others(g[i] + [n], i)), g'[i], kept, last)
    ensures 1.0 <= k.ps.alpha && |g[i]| + 1 <= k.ps.maxc && (|g'[i]| < k.ps.range || |g[i]| < k.slack) ==>
              LeadsTo(k, i, g'[i], n, last)
  {
    hide MemPruned, BackLinks, BackLinked, MemPrunedFrom, Shadowed;
    kept, last := [], 1.0;
    var list := MemPruned(k, found);
    MemPrunedDistinct(k, found);
    MemPrunedFacts(k, found);
    forall j | 0 <= j < |list|
      ensures list[j] != n
    {
      assert HasId(found, list[j]);
      var c :| 0 <= c < |found| && found[c].id == list[j];
      assert found[c] in found;
    }
    var j :| 0 <= j < |list| && list[j] == i;
    BackLinksEach(k, g[n := list], n, list);
    BackLinkCases(k, i, g[i], n);
    if n !in g[i] && |g[i]| >= k.slack {
      kept, last := BackLinkCovers(k, i, g[i], n);
      KeptFits(k, CandsOf(k, i, Others(g[i] + [n], i)), g'[i], kept, last);
    }
  }

  lemma BackLinkCases(k: Linking, des: nat, list: seq<nat>, n: nat)
    ensures n in list ==> BackLinked(k, des, list, n) == list
    ensures n !in list && |list| < k.slack ==> BackLinked(k, des, list, n) == list + [n]
  {
  }

  lemma KeptFits(k: Linking, found: seq<Candidate>, r: seq<nat>, kept: seq<nat>, last: real)
    requires MemPrunedFrom(k, found, r, kept, last)
    ensures |kept| <= |r|
  {
  }
}
