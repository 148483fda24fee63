/** The page buffers of an insert: which pages are read, where a record is read from and written to,
    and how the modified pages are coalesced into write requests. */
module InsertBuffers {
  import opened Counting
  import opened PageLayout
  import opened Pruning

  /** A node on disk: its coordinates and its neighbour list. */
  datatype Record<V> = Record(coords: V, nbrs: seq<nat>)

  type Page<V> = seq<Record<V>>

  /** Sector numbers of the given locations, ascending without duplicates (a std::set). */
  function AddPage(pages: seq<nat>, page: nat): (r: seq<nat>)
    requires Increasing(pages)
    ensures Increasing(r) && |r| <= |pages| + 1 && forall x :: x in r <==> x in pages || x == page
  {
    if pages == [] || page < pages[0] then [page] + pages
    else if page == pages[0] then pages
    else
      var t := AddPage(pages[1..], page);
      Prepend(pages[0], pages[1..], page, t);
      assert pages == [pages[0]] + pages[1..];
      [pages[0]] + t
  }

  lemma Prepend(first: nat, rest: seq<nat>, page: nat, t: seq<nat>)
    requires first < page && (forall i :: 0 <= i < |rest| ==> first < rest[i])
    requires Increasing(t) && forall x :: x in t <==> x in rest || x == page
    ensures Increasing([first] + t)
    ensures forall x :: x in [first] + t <==> x in [first] + rest || x == page
  {
    forall i | 0 <= i < |t|
      ensures first < t[i]
    {
      assert t[i] in t;
    }
  }

  method PagesOf(nn: nat, locs: seq<nat>) returns (pages: seq<nat>)
    requires 1 <= nn
    ensures Increasing(pages) && |pages| <= |locs|
    ensures forall p :: p in pages <==> exists k :: 0 <= k < |locs| && LocSectorNo(nn, locs[k]) == p
  {
    hide LocSectorNo;
    pages := [];
    for i := 0 to |locs|
      invariant Increasing(pages) && |pages| <= i
      invariant forall p :: p in pages <==> exists k :: 0 <= k < i && LocSectorNo(nn, locs[k]) == p
    {
      pages := AddPage(pages, LocSectorNo(nn, locs[i]));
    }
  }

  /** Every page has its own buffer of `nn` records; pages to write use the buffers from `n` on, in order. */
  ghost predicate BuffersOk<V>(nn: nat, n: nat, rmw: seq<nat>, bufs: seq<Page<V>>, bufOf: map<nat, nat>) {
    && (forall p :: p in bufOf ==> bufOf[p] < |bufs|)
    && (forall p, q :: p in bufOf && q in bufOf && bufOf[p] == bufOf[q] ==> p == q)
    && (forall j :: 0 <= j < |rmw| ==> rmw[j] in bufOf && bufOf[rmw[j]] == n + j)
    && (forall i :: 0 <= i < |bufs| ==> |bufs[i]| == nn)
  }

  /** The record at a location, seen through the page buffers. */
  ghost function Cell<V>(nn: nat, bufs: seq<Page<V>>, bufOf: map<nat, nat>, loc: nat): Record<V>
    requires 1 <= nn
    requires LocSectorNo(nn, loc) in bufOf && bufOf[LocSectorNo(nn, loc)] < |bufs|
    requires |bufs[bufOf[LocSectorNo(nn, loc)]]| == nn
  {
    bufs[bufOf[LocSectorNo(nn, loc)]][LocOffset(nn, loc)]
  }

  /** Read the neighbours' pages and those pages to be rewritten that still hold records. The other buffers keep
      whatever `stale` contents the update buffer had. A page that is both read and written uses its write buffer. */
  method LoadBuffers<V>(nn: nat, disk: map<nat, Page<V>>, stale: seq<Page<V>>, nbrPages: seq<nat>, rmw: seq<nat>,
                        need: set<nat>)
    returns (bufs: seq<Page<V>>, bufOf: map<nat, nat>)
    requires Increasing(rmw) && |stale| == |nbrPages| + |rmw|
    requires forall i :: 0 <= i < |stale| ==> |stale[i]| == nn
    requires forall p :: p in nbrPages || (p in rmw && p in need) ==> p in disk && |disk[p]| == nn
    ensures |bufs| == |stale| && BuffersOk(nn, |nbrPages|, rmw, bufs, bufOf)
    ensures forall p :: p in bufOf <==> p in nbrPages || p in rmw
    ensures forall p :: p in bufOf && (p !in rmw || p in need) ==>
              bufOf[p] < |bufs| && p in disk && bufs[bufOf[p]] == disk[p]
  {
    bufs, bufOf := ReadNbrPages(nn, disk, stale, nbrPages);
    LoadStart(nn, disk, nbrPages, rmw, need, bufs, bufOf);
    bufs, bufOf := ReadRmwPages(nn, disk, nbrPages, rmw, need, bufs, bufOf);
    LoadDone(nn, disk, nbrPages, rmw, need, bufs, bufOf);
  }

  method ReadRmwPages<V>(nn: nat, disk: map<nat, Page<V>>, ghost nbrPages: seq<nat>, rmw: seq<nat>, need: set<nat>,
                         bufs0: seq<Page<V>>, bufOf0: map<nat, nat>)
    returns (bufs: seq<Page<V>>, bufOf: map<nat, nat>)
    requires Increasing(rmw) && |bufs0| == |nbrPages| + |rmw|
    requires Loading(nn, disk, nbrPages, rmw, need, bufs0, bufOf0, 0)
    ensures |bufs| == |bufs0| && Loading(nn, disk, nbrPages, rmw, need, bufs, bufOf, |rmw|)
  {
    hide Loading;
    bufs, bufOf := bufs0, bufOf0;
    var n := |bufs| - |rmw|;
    for j := 0 to |rmw|
      invariant |bufs| == |bufs0| && Loading(nn, disk, nbrPages, rmw, need, bufs, bufOf, j)
    {
      LoadStep(nn, disk, nbrPages, rmw, need, bufs, bufOf, j);
      var p := rmw[j];
      if p in need {
        bufs := bufs[n + j := disk[p]];
      }
      bufOf := bufOf[p := n + j];
    }
  }

  lemma LoadStart<V>(nn: nat, disk: map<nat, Page<V>>, nbrPages: seq<nat>, rmw: seq<nat>, need: set<nat>,
                     bufs: seq<Page<V>>, bufOf: map<nat, nat>)
    requires |bufs| == |nbrPages| + |rmw| && forall k :: 0 <= k < |bufs| ==> |bufs[k]| == nn
    requires forall p :: p in nbrPages || (p in rmw && p in need) ==> p in disk && |disk[p]| == nn
    requires forall p :: p in bufOf <==> p in nbrPages
    requires forall p :: p in bufOf ==> bufOf[p] < |nbrPages| && nbrPages[bufOf[p]] == p && bufs[bufOf[p]] == disk[p]
    ensures Loading(nn, disk, nbrPages, rmw, need, bufs, bufOf, 0)
  {
  }

  lemma LoadDone<V>(nn: nat, disk: map<nat, Page<V>>, nbrPages: seq<nat>, rmw: seq<nat>, need: set<nat>,
                    bufs: seq<Page<V>>, bufOf: map<nat, nat>)
    requires Loading(nn, disk, nbrPages, rmw, need, bufs, bufOf, |rmw|)
    ensures BuffersOk(nn, |nbrPages|, rmw, bufs, bufOf)
    ensures forall p :: p in bufOf <==> p in nbrPages || p in rmw
    ensures forall p :: p in bufOf && (p !in rmw || p in need) ==>
              bufOf[p] < |bufs| && p in disk && bufs[bufOf[p]] == disk[p]
  {
  }

  /** The first `j` pages to rewrite have their buffers. */
  ghost predicate Loading<V>(nn: nat, disk: map<nat, Page<V>>, nbrPages: seq<nat>, rmw: seq<nat>, need: set<nat>,
                             bufs: seq<Page<V>>, bufOf: map<nat, nat>, j: nat)
  {
    var n := |nbrPages|;
    && j <= |rmw| && n + |rmw| == |bufs| && (forall k :: 0 <= k < |bufs| ==> |bufs[k]| == nn)
    && (forall i :: 0 <= i < n ==> nbrPages[i] in bufOf && nbrPages[i] in disk)
    && (forall k :: 0 <= k < |rmw| && rmw[k] in need ==> rmw[k] in disk && |disk[rmw[k]]| == nn)
    && (forall k :: 0 <= k < j ==> rmw[k] in bufOf && bufOf[rmw[k]] == n + k)
    && (forall p :: p in bufOf ==>
          if bufOf[p] < n then nbrPages[bufOf[p]] == p && bufs[bufOf[p]] == disk[p]
          else bufOf[p] - n < j && rmw[bufOf[p] - n] == p)
    && (forall k :: 0 <= k < j && rmw[k] in need ==> bufs[n + k] == disk[rmw[k]])
  }

  lemma LoadStep<V>(nn: nat, disk: map<nat, Page<V>>, nbrPages: seq<nat>, rmw: seq<nat>, need: set<nat>,
                    bufs: seq<Page<V>>, bufOf: map<nat, nat>, j: nat)
    requires Increasing(rmw) && Loading(nn, disk, nbrPages, rmw, need, bufs, bufOf, j) && j < |rmw|
    ensures (rmw[j] in need ==> rmw[j] in disk) && |bufs| == |nbrPages| + |rmw|
    ensures var n := |nbrPages|;
            Loading(nn, disk, nbrPages, rmw, need, if rmw[j] in need then bufs[n + j := disk[rmw[j]]] else bufs,
                    bufOf[rmw[j] := n + j], j + 1)
  {
    var n, p := |nbrPages|, rmw[j];
    var bufs' := if p in need then bufs[n + j := disk[p]] else bufs;
    assert |bufs'| == |bufs| && forall i :: 0 <= i < |bufs| && i != n + j ==> bufs'[i] == bufs[i];
  }

  method ReadNbrPages<V>(nn: nat, disk: map<nat, Page<V>>, stale: seq<Page<V>>, nbrPages: seq<nat>)
    returns (bufs: seq<Page<V>>, bufOf: map<nat, nat>)
    requires |nbrPages| <= |stale| && forall i :: 0 <= i < |stale| ==> |stale[i]| == nn
    requires forall p :: p in nbrPages ==> p in disk && |disk[p]| == nn
    ensures |bufs| == |stale| && forall k :: 0 <= k < |bufs| ==> |bufs[k]| == nn
    ensures forall p :: p in bufOf <==> p in nbrPages
    ensures forall p :: p in bufOf ==> bufOf[p] < |nbrPages| && nbrPages[bufOf[p]] == p && bufs[bufOf[p]] == disk[p]
  {
    bufs, bufOf := stale, map[];
    for i := 0 to |nbrPages|
      invariant |bufs| == |stale| && forall k :: 0 <= k < |bufs| ==> |bufs[k]| == nn
      invariant forall p :: p in bufOf <==> p in nbrPages[..i]
      invariant forall p :: p in bufOf ==> bufOf[p] < i && nbrPages[bufOf[p]] == p && bufs[bufOf[p]] == disk[p]
    {
      var p := nbrPages[i];
      assert p in nbrPages;
      bufs := bufs[i := disk[p]];
      bufOf := bufOf[p := i];
      assert nbrPages[..i + 1] == nbrPages[..i] + [p];
    }
    assert nbrPages[..|nbrPages|] == nbrPages;
  }

  /** Store a record into the buffer of its page. */
  method WriteCell<V>(nn: nat, n: nat, rmw: seq<nat>, bufs: seq<Page<V>>, bufOf: map<nat, nat>, loc: nat,
                      rec: Record<V>)
    returns (bufs': seq<Page<V>>)
    requires 1 <= nn && BuffersOk(nn, n, rmw, bufs, bufOf) && LocSectorNo(nn, loc) in bufOf
    ensures |bufs'| == |bufs| && BuffersOk(nn, n, rmw, bufs', bufOf)
    ensures Cell(nn, bufs', bufOf, loc) == rec
    ensures forall x: nat :: x != loc && LocSectorNo(nn, x) in bufOf ==>
              Cell(nn, bufs', bufOf, x) == Cell(nn, bufs, bufOf, x)
  {
    var b := bufOf[LocSectorNo(nn, loc)];
    bufs' := bufs[b := bufs[b][LocOffset(nn, loc) := rec]];
    forall x: nat | x != loc && LocSectorNo(nn, x) in bufOf
      ensures Cell(nn, bufs', bufOf, x) == Cell(nn, bufs, bufOf, x)
    {
      if LocSectorNo(nn, x) == LocSectorNo(nn, loc) && LocOffset(nn, x) == LocOffset(nn, loc) {
        LocInjective(nn, x, loc);
      }
    }
  }

  /** The ids of a list as candidates of `id`, nearest first. */
  function NbrPool(ps: Settings, id: nat, ids: seq<nat>): (pool: seq<Candidate>)
    ensures |pool| == |ids| && SortedPool(pool)
  {
    SortPool(seq(|ids|, k requires 0 <= k < |ids| => Candidate(ids[k], ps.dist(id, ids[k]))))
  }

  /** The neighbour list written back for a chosen neighbour `id`: `target` is appended, and a list that exceeds
      `range` is pruned. */
  ghost predicate RelinkedList(ps: Settings, id: nat, before: seq<nat>, target: nat, after: seq<nat>) {
    after == if |before| + 1 <= ps.range then before + [target] else Pruned(ps, NbrPool(ps, id, before + [target]))
  }

  method Relink(ps: Settings, id: nat, before: seq<nat>, target: nat) returns (after: seq<nat>)
    ensures RelinkedList(ps, id, before, target, after)
  {
    after := before + [target];
    if |after| > ps.range {
      var cands := seq(|after|, k requires 0 <= k < |after| => Candidate(after[k], ps.dist(id, after[k])));
      assert cands == seq(|after|, k requires 0 <= k < |after| => Candidate(after[k], ps.dist(id, after[k])));
      after := PruneNeighborsPq(ps, SortPool(cands));
    }
  }

  lemma NbrPoolIs(ps: Settings, id: nat, ids: seq<nat>)
    requires forall x, y :: 0.0 <= ps.dist(x, y)
    ensures var pool := NbrPool(ps, id, ids);
            && NonNegative(pool, ps.dist) && Consistent(pool)
            && (forall k :: 0 <= k < |pool| ==> pool[k].id in ids && pool[k].distance == ps.dist(id, pool[k].id))
            && (forall x :: x in ids ==> Candidate(x, ps.dist(id, x)) in pool)
            && CandidatesOf(ps, id, Members(ids), pool)
  {
    var cands := seq(|ids|, k requires 0 <= k < |ids| => Candidate(ids[k], ps.dist(id, ids[k])));
    var pool := NbrPool(ps, id, ids);
    forall k | 0 <= k < |pool|
      ensures pool[k].id in ids && pool[k].distance == ps.dist(id, pool[k].id)
    {
      assert pool[k] in cands;
    }
    forall x | x in ids
      ensures Candidate(x, ps.dist(id, x)) in pool
    {
      var k :| 0 <= k < |ids| && ids[k] == x;
      assert cands[k] in cands;
    }
  }

  /** A relinked list is within `range`, is drawn from the old list and the target, and repeats nothing if it was pruned
      or the old list had no repetition. With alpha > 1 a pruned list is shorter than `range` only if nothing was left
      out. */
  lemma RelinkFacts(ps: Settings, id: nat, before: seq<nat>, target: nat, after: seq<nat>)
    requires RelinkedList(ps, id, before, target, after) && forall x, y :: 0.0 <= ps.dist(x, y)
    ensures |after| <= ps.range && forall x :: x in after ==> x in before || x == target
    ensures Distinct(before + [target]) || |before| + 1 > ps.range ==> Distinct(after)
    ensures |before| + 1 <= ps.range || (ps.alpha > 1.0 && |after| < ps.range) ==>
              target in after && forall x :: x in before ==> x in after
  {
    if |before| + 1 > ps.range {
      var all := before + [target];
      var pool := NbrPool(ps, id, all);
      NbrPoolIs(ps, id, all);
      PrunedFacts(ps, pool);
      hide Pruned, NbrPool;
      assert target in all && forall x :: x in before ==> x in all;
      forall x | x in after
        ensures x in all
      {
        var i :| 0 <= i < |after| && after[i] == x;
        assert HasId(pool, after[i]);
      }
    }
  }

  /** What a pruned list leaves out is covered. The first n entries are the occlusion's, nearest first; if they do not
      fill the list, every id is among them or shadowed by one of them at a level within a factor 1.2 of alpha. Behind
      them come the nearest ids that are missing. */
  lemma RelinkCovers(ps: Settings, id: nat, before: seq<nat>, target: nat, after: seq<nat>)
    returns (kept: seq<nat>, n: nat, last: real)
    requires RelinkedList(ps, id, before, target, after) && forall x, y :: 0.0 <= ps.dist(x, y)
    requires ps.range < |before| + 1
    ensures Diversified(ps, NbrPool(ps, id, before + [target]), after, kept, n, last)
    ensures NearFirst(ps, id, Members(before + [target]), after, n) && (ps.alpha <= 1.0 ==> n == |after|)
    ensures n < ps.range && |before| + 1 <= ps.maxc && 1.0 <= ps.alpha ==>
              && last <= ps.alpha < last * 1.2
              && forall x :: x in before + [target] ==> x in after[..n] || Shadowed(ps, id, x, after[..n], last)
  {
    hide Diversified, NearFirst, NbrPool, SortedPool, Pruned;
    var all := before + [target];
    var pool := NbrPool(ps, id, all);
    NbrPoolIs(ps, id, all);
    kept, n, last := PrunedDiversified(ps, pool);
    DiversifiedNear(ps, id, Members(all), pool, after, kept, n, last);
    if n < ps.range && |before| + 1 <= ps.maxc && 1.0 <= ps.alpha {
      CoveredLast(ps, pool, after, kept, n, last);
      forall x | x in all
        ensures x in after[..n] || Shadowed(ps, id, x, after[..n], last)
      {
        PoolShadow(ps, id, pool, after, kept, n, last, x);
      }
    }
  }

  // ----- write coalescing -----

  /** One write request: `count` consecutive pages from `page` on, from consecutive buffers. */
  datatype WriteReq = WriteReq(page: nat, count: nat, buf: nat)

  /** Request `r` writes the maximal run of consecutive pages at positions s..e of `rmw`. */
  ghost predicate IsRun(r: WriteReq, s: nat, e: nat, rmw: seq<nat>, n: nat) {
    && s < e <= |rmw|
    && r == WriteReq(rmw[s], e - s, n + s)
    && (forall j :: s <= j < e ==> rmw[j] == rmw[s] + (j - s))
    && (e < |rmw| ==> rmw[e] != rmw[e - 1] + 1)
  }

  /** The requests cut the first `starts[|reqs|]` pages into maximal runs; `starts` holds the cuts. */
  ghost predicate Coalesced(reqs: seq<WriteReq>, starts: seq<nat>, rmw: seq<nat>, n: nat) {
    && |starts| == |reqs| + 1 && starts[0] == 0
    && (forall i :: 0 <= i < |reqs| ==> IsRun(reqs[i], starts[i], starts[i + 1], rmw, n))
  }

  /** Merge runs of consecutive pages, whose buffers are consecutive too, into one request each. */
  method CoalesceWrites(rmw: seq<nat>, n: nat) returns (reqs: seq<WriteReq>, ghost starts: seq<nat>)
    requires rmw != []
    ensures Coalesced(reqs, starts, rmw, n) && starts[|reqs|] == |rmw|
  {
    reqs, starts := [], [0];
    var start, i := 0, 1;
    while i <= |rmw|
      invariant 0 <= start < i <= |rmw| + 1 && start <= |rmw|
      invariant i == |rmw| + 1 ==> start == |rmw|
      invariant Coalesced(reqs, starts, rmw, n) && starts[|reqs|] == start
      invariant forall k :: start <= k < i && k < |rmw| ==> rmw[k] == rmw[start] + (k - start)
    {
      // position |rmw| stands for the source's sentinel request, which never continues a run
      if i == |rmw| || rmw[i] != rmw[i - 1] + 1 {
        reqs := reqs + [WriteReq(rmw[start], i - start, n + start)];
        starts := starts + [i];
        start := i;
      }
      i := i + 1;
    }
  }

  /** Carry out the requests on the page store: each page is written once, from its own buffer. */
  method WritePages<V>(disk: map<nat, Page<V>>, reqs: seq<WriteReq>, bufs: seq<Page<V>>,
                       ghost starts: seq<nat>, ghost rmw: seq<nat>, ghost n: nat)
    returns (disk': map<nat, Page<V>>)
    requires Increasing(rmw) && n + |rmw| <= |bufs|
    requires Coalesced(reqs, starts, rmw, n) && starts[|reqs|] == |rmw|
    ensures forall p :: p in disk' <==> p in disk || p in rmw
    ensures forall j :: 0 <= j < |rmw| ==> rmw[j] in disk' && disk'[rmw[j]] == bufs[n + j]
    ensures forall p :: p in disk && p !in rmw ==> disk'[p] == disk[p]
  {
    hide Written;
    disk' := disk;
    WrittenStart(disk, bufs, rmw, n);
    for i := 0 to |reqs|
      invariant Written(disk, disk', bufs, rmw, n, starts[i])
    {
      var r := reqs[i];
      assert IsRun(r, starts[i], starts[i + 1], rmw, n);
      for k := 0 to r.count
        invariant Written(disk, disk', bufs, rmw, n, starts[i] + k)
      {
        WrittenStep(disk, disk', bufs, rmw, n, starts[i] + k);
        disk' := disk'[r.page + k := bufs[r.buf + k]];
      }
    }
    WrittenAll(disk, disk', bufs, rmw, n);
  }

  /** The first `m` pages of `rmw` have been written. */
  ghost predicate Written<V>(disk: map<nat, Page<V>>, disk': map<nat, Page<V>>, bufs: seq<Page<V>>, rmw: seq<nat>,
                             n: nat, m: nat) {
    && m <= |rmw| && n + |rmw| <= |bufs|
    && (forall p :: p in disk' <==> p in disk || p in rmw[..m])
    && (forall j :: 0 <= j < m ==> rmw[j] in disk' && disk'[rmw[j]] == bufs[n + j])
    && (forall p :: p in disk && p !in rmw[..m] ==> disk'[p] == disk[p])
  }

  lemma WrittenStart<V>(disk: map<nat, Page<V>>, bufs: seq<Page<V>>, rmw: seq<nat>, n: nat)
    requires n + |rmw| <= |bufs|
    ensures Written(disk, disk, bufs, rmw, n, 0)
  {
  }

  lemma WrittenStep<V>(disk: map<nat, Page<V>>, disk': map<nat, Page<V>>, bufs: seq<Page<V>>, rmw: seq<nat>, n: nat,
                       m: nat)
    requires Increasing(rmw) && Written(disk, disk', bufs, rmw, n, m) && m < |rmw|
    ensures Written(disk, disk'[rmw[m] := bufs[n + m]], bufs, rmw, n, m + 1)
  {
    assert rmw[..m + 1] == rmw[..m] + [rmw[m]];
  }

  lemma WrittenAll<V>(disk: map<nat, Page<V>>, disk': map<nat, Page<V>>, bufs: seq<Page<V>>, rmw: seq<nat>, n: nat)
    requires Written(disk, disk', bufs, rmw, n, |rmw|)
    ensures forall p :: p in disk' <==> p in disk || p in rmw
    ensures forall j :: 0 <= j < |rmw| ==> rmw[j] in disk' && disk'[rmw[j]] == bufs[n + j]
    ensures forall p :: p in disk && p !in rmw ==> disk'[p] == disk[p]
  {
    assert rmw[..|rmw|] == rmw;
  }
}
