/** merge_deletes: renumber the live points densely, repair the lists around deleted points, and write the new index. */
module DeleteMerge {
  import opened Counting
  import opened PageLayout
  import opened Pruning
  import opened InsertBuffers
  import opened MergeWriter

  /** Sectors per step of the first and of the second pass. */
  const SECTORS_PER_POPULATE: nat := 128
  const SECTORS_PER_MERGE: nat := 65536

  /** The index being merged: the slots of locations 0 .. cur_loc - 1, the records by id, the tags, the deleted tags. */
  datatype Source<!V> = Source(nn: nat, slots: seq<Slot>, recs: map<nat, Record<V>>, tag: nat -> nat, dels: set<nat>)

  predicate Dead<V>(s: Source<V>, id: nat) {
    s.tag(id) in s.dels
  }

  predicate LiveLoc<V>(s: Source<V>, loc: nat) {
    loc < |s.slots| && s.slots[loc].Holds? && !Dead(s, s.slots[loc].id)
  }

  ghost predicate Stored<V>(s: Source<V>, id: nat) {
    exists loc :: 0 <= loc < |s.slots| && s.slots[loc] == Holds(id)
  }

  /** Each id is stored once, has a record, and all its neighbours are stored. */
  ghost predicate Sound<V>(s: Source<V>) {
    && s.nn >= 1
    && (forall i, j :: 0 <= i < j < |s.slots| && s.slots[i].Holds? ==> s.slots[i] != s.slots[j])
    && (forall loc :: 0 <= loc < |s.slots| && s.slots[loc].Holds? ==> s.slots[loc].id in s.recs)
    && (forall id, i :: Stored(s, id) && id in s.recs && 0 <= i < |s.recs[id].nbrs| ==> Stored(s, s.recs[id].nbrs[i]))
  }

  /** First location of a sector. */
  function Edge(nn: nat, sector: nat): nat {
    sector * nn
  }

  lemma EdgeMonotone(nn: nat, a: nat, b: nat)
    ensures a <= b ==> Edge(nn, a) <= Edge(nn, b)
    ensures a + 1 <= b ==> Edge(nn, a) + nn <= Edge(nn, b)
  {
    Factored(b, a, nn);
    MulSteps(b - a, nn);
  }

  // ----- first pass: new ids and the lists of deleted points -----

  /** The live locations in the order in which they drew their new ids. */
  ghost predicate Numbered<V>(s: Source<V>, who: seq<nat>, done: set<nat>, idMap: map<nat, nat>) {
    && (forall v :: 0 <= v < |who| ==> LiveLoc(s, who[v]) && who[v] in done)
    && (forall v, w :: 0 <= v < w < |who| ==> who[v] != who[w])
    && (forall loc :: loc in done && LiveLoc(s, loc) ==> loc in who)
    && (forall v :: 0 <= v < |who| ==> s.slots[who[v]].id in idMap && idMap[s.slots[who[v]].id] == v)
    && (forall id :: id in idMap ==> idMap[id] < |who| && s.slots[who[idMap[id]]].id == id)
  }

  lemma DrawId<V>(s: Source<V>, who: seq<nat>, done: set<nat>, idMap: map<nat, nat>, loc: nat)
    requires Sound(s) && Numbered(s, who, done, idMap) && LiveLoc(s, loc) && loc !in done
    ensures s.slots[loc].id !in idMap
    ensures Numbered(s, who + [loc], done + {loc}, idMap[s.slots[loc].id := |who|])
  {
    var id := s.slots[loc].id;
    if id in idMap {
      assert false;
    }
    var who' := who + [loc];
    forall l | l in done + {loc} && LiveLoc(s, l)
      ensures l in who'
    {
      if l == loc {
        assert who'[|who|] == loc;
      }
    }
  }

  lemma SkipLoc<V>(s: Source<V>, who: seq<nat>, done: set<nat>, idMap: map<nat, nat>, loc: nat)
    requires Numbered(s, who, done, idMap) && !LiveLoc(s, loc)
    ensures Numbered(s, who, done + {loc}, idMap)
  {
  }

  /** New ids follow the steps of the pass: ids drawn for locations before a step's first sector are lower than the
      others. Within a step, threads draw ids in any order. */
  ghost predicate StepOrdered(nn: nat, who: seq<nat>) {
    forall v, w, t: nat :: 0 <= v < w < |who| && t % SECTORS_PER_POPULATE == 0 && who[w] < Edge(nn, t) ==>
      who[v] < Edge(nn, t)
  }

  lemma StepOrderedAdd(nn: nat, who: seq<nat>, t: nat, loc: nat)
    requires StepOrdered(nn, who) && t % SECTORS_PER_POPULATE == 0 && Edge(nn, t) <= loc
    requires forall v :: 0 <= v < |who| ==> who[v] < Edge(nn, t + SECTORS_PER_POPULATE)
    ensures StepOrdered(nn, who + [loc])
  {
    var who' := who + [loc];
    forall v, w, u: nat | 0 <= v < w < |who'| && u % SECTORS_PER_POPULATE == 0 && who'[w] < Edge(nn, u)
      ensures who'[v] < Edge(nn, u)
    {
      if w == |who| {
        EdgeMonotone(nn, u, t);
        assert u > t;
        NextStep(t, u);
        EdgeMonotone(nn, t + SECTORS_PER_POPULATE, u);
      }
    }
  }

  lemma NextStep(t: nat, u: nat)
    requires t < u && t % SECTORS_PER_POPULATE == 0 && u % SECTORS_PER_POPULATE == 0
    ensures t + SECTORS_PER_POPULATE <= u
  {
  }

  /** The live neighbours of a list, at most `sampled` of them. */
  function LiveNbrs<V>(s: Source<V>, nbrs: seq<nat>): (r: seq<nat>)
    ensures forall x :: x in r <==> x in nbrs && !Dead(s, x)
  {
    if nbrs == [] then []
    else
      var r, x := LiveNbrs(s, nbrs[..|nbrs| - 1]), nbrs[|nbrs| - 1];
      assert forall y :: y in nbrs <==> y in nbrs[..|nbrs| - 1] || y == x;
      if Dead(s, x) then r else r + [x]
  }

  function Sample(nhood: seq<nat>, sampled: nat): (r: seq<nat>) {
    if |nhood| > sampled then nhood[..sampled] else nhood
  }

  /** The kept lists are those of the deleted points seen so far. */
  ghost predicate Populated<V>(s: Source<V>, sampled: nat, done: set<nat>, nhoods: map<nat, seq<nat>>) {
    && (forall id :: id in nhoods ==> id in s.recs && Dead(s, id)
                                      && nhoods[id] == Sample(LiveNbrs(s, s.recs[id].nbrs), sampled))
    && (forall loc :: loc in done && 0 <= loc < |s.slots| && s.slots[loc].Holds? && Dead(s, s.slots[loc].id)
                      ==> s.slots[loc].id in nhoods)
  }

  /** The state of the first pass: locations processed, the order of numbering, new ids, lists of deleted points. */
  ghost predicate PassOne<V>(s: Source<V>, sampled: nat, done: set<nat>, who: seq<nat>, idMap: map<nat, nat>,
                             nhoods: map<nat, seq<nat>>, n: nat) {
    Numbered(s, who, done, idMap) && Populated(s, sampled, done, nhoods) && n == |who| && StepOrdered(s.nn, who)
  }

  /** One location of the first pass. */
  method PopulateLoc<V>(s: Source<V>, sampled: nat, loc: nat, idMap0: map<nat, nat>, nhoods0: map<nat, seq<nat>>,
                        n0: nat, ghost done: set<nat>, ghost who0: seq<nat>, ghost t: nat)
    returns (idMap: map<nat, nat>, nhoods: map<nat, seq<nat>>, n: nat, ghost who: seq<nat>)
    requires Sound(s) && PassOne(s, sampled, done, who0, idMap0, nhoods0, n0) && loc < |s.slots| && loc !in done
    requires t % SECTORS_PER_POPULATE == 0 && Edge(s.nn, t) <= loc < Edge(s.nn, t + SECTORS_PER_POPULATE)
    requires forall v :: 0 <= v < |who0| ==> who0[v] < Edge(s.nn, t + SECTORS_PER_POPULATE)
    ensures PassOne(s, sampled, done + {loc}, who, idMap, nhoods, n)
    ensures forall v :: 0 <= v < |who| ==> who[v] < Edge(s.nn, t + SECTORS_PER_POPULATE)
  {
    hide Numbered, StepOrdered, Edge, Sample, LiveNbrs;
    idMap, nhoods, n, who := idMap0, nhoods0, n0, who0;
    if !s.slots[loc].Holds? {
      SkipLoc(s, who, done, idMap, loc);
      return;
    }
    var id := s.slots[loc].id;
    if !Dead(s, id) {
      DrawId(s, who, done, idMap, loc);
      StepOrderedAdd(s.nn, who, t, loc);
      idMap, n, who := idMap[id := n], n + 1, who + [loc];
    } else {
      SkipLoc(s, who, done, idMap, loc);
      nhoods := nhoods[id := Sample(LiveNbrs(s, s.recs[id].nbrs), sampled)];
    }
  }

  ghost predicate AllBefore(done: set<nat>, bound: nat, n: nat) {
    forall loc: nat :: loc in done <==> loc < bound && loc < n
  }

  function Min(a: nat, b: nat): nat { if a < b then a else b }

  /** The sectors that hold locations. */
  function SectorCount(nn: nat, curLoc: nat): (n: nat)
    requires nn >= 1
  {
    (curLoc + nn - 1) / nn
  }

  lemma SectorsCover(nn: nat, curLoc: nat)
    requires nn >= 1
    ensures curLoc <= Edge(nn, SectorCount(nn, curLoc))
  {
    var x := curLoc + nn - 1;
    assert x == (x / nn) * nn + x % nn;
  }

  /** One step of the first pass; its locations are processed in any order. */
  method PopulateStep<V>(s: Source<V>, sampled: nat, idMap0: map<nat, nat>, nhoods0: map<nat, seq<nat>>, n0: nat,
                         st: nat, ed: nat, ghost done0: set<nat>, ghost who0: seq<nat>)
    returns (idMap: map<nat, nat>, nhoods: map<nat, seq<nat>>, n: nat, ghost done: set<nat>, ghost who: seq<nat>)
    requires Sound(s) && PassOne(s, sampled, done0, who0, idMap0, nhoods0, n0)
    requires st % SECTORS_PER_POPULATE == 0 && st < ed <= st + SECTORS_PER_POPULATE
    requires AllBefore(done0, Edge(s.nn, st), |s.slots|)
    ensures PassOne(s, sampled, done, who, idMap, nhoods, n) && AllBefore(done, Edge(s.nn, ed), |s.slots|)
  {
    hide Numbered, Populated, StepOrdered, Edge, Sound;
    idMap, nhoods, n, done, who := idMap0, nhoods0, n0, done0, who0;
    var locSt, locEd := Edge(s.nn, st), Min(|s.slots|, Edge(s.nn, ed));
    EdgeMonotone(s.nn, ed, st + SECTORS_PER_POPULATE);
    EdgeMonotone(s.nn, st, ed);
    BelowNextStep(s, done, who, idMap, locSt);
    var todo := Range(locSt, locEd);
    while todo != {}
      invariant PassOne(s, sampled, done, who, idMap, nhoods, n)
      invariant forall loc :: loc in todo ==> locSt <= loc < locEd && loc !in done
      invariant forall loc: nat :: loc in done <==> loc < locEd && loc !in todo
      invariant forall v :: 0 <= v < |who| ==> who[v] < Edge(s.nn, st + SECTORS_PER_POPULATE)
    {
      var loc :| loc in todo;
      idMap, nhoods, n, who := PopulateLoc(s, sampled, loc, idMap, nhoods, n, done, who, st);
      todo, done := todo - {loc}, done + {loc};
    }
  }

  lemma BelowNextStep<V>(s: Source<V>, done: set<nat>, who: seq<nat>, idMap: map<nat, nat>, bound: nat)
    requires Numbered(s, who, done, idMap) && AllBefore(done, bound, |s.slots|)
    ensures forall v :: 0 <= v < |who| ==> who[v] < bound
  {
  }

  /** The first pass. */
  method Populate<V>(s: Source<V>, sampled: nat)
    returns (idMap: map<nat, nat>, nhoods: map<nat, seq<nat>>, n: nat, ghost done: set<nat>, ghost who: seq<nat>)
    requires Sound(s)
    ensures PassOne(s, sampled, done, who, idMap, nhoods, n) && AllBefore(done, |s.slots|, |s.slots|)
  {
    hide Edge, Sound, SectorCount, PassOne, AllBefore;
    idMap, nhoods, n, done, who := map[], map[], 0, {}, [];
    StartPopulate(s, sampled);
    var nSectors := SectorCount(s.nn, |s.slots|);
    var t: nat := 0;
    while t < nSectors
      invariant t % SECTORS_PER_POPULATE == 0 && PassOne(s, sampled, done, who, idMap, nhoods, n)
      invariant AllBefore(done, Edge(s.nn, Min(t, nSectors)), |s.slots|)
    {
      idMap, nhoods, n, done, who :=
        PopulateStep(s, sampled, idMap, nhoods, n, t, Min(t + SECTORS_PER_POPULATE, nSectors), done, who);
      t := t + SECTORS_PER_POPULATE;
    }
    CoversAll(s.nn, |s.slots|, nSectors, done);
  }

  lemma StartPopulate<V>(s: Source<V>, sampled: nat)
    requires Sound(s)
    ensures PassOne(s, sampled, {}, [], map[], map[], 0) && s.nn >= 1 && AllBefore({}, Edge(s.nn, 0), |s.slots|)
  {
  }

  /** The numbering is a bijection from the live ids onto 0 .. n - 1. */
  lemma NumberingBijective<V>(s: Source<V>, sampled: nat, done: set<nat>, who: seq<nat>, idMap: map<nat, nat>,
                              nhoods: map<nat, seq<nat>>, n: nat)
    requires Sound(s) && PassOne(s, sampled, done, who, idMap, nhoods, n) && AllBefore(done, |s.slots|, |s.slots|)
    ensures forall id :: id in idMap <==> Stored(s, id) && !Dead(s, id)
    ensures forall a, b :: a in idMap && b in idMap && idMap[a] == idMap[b] ==> a == b
    ensures idMap.Values == Range(0, n)
  {
    hide StepOrdered, Populated;
    forall id | id in idMap
      ensures Stored(s, id) && !Dead(s, id)
    {
      assert s.slots[who[idMap[id]]] == Holds(id);
    }
    forall id | Stored(s, id) && !Dead(s, id)
      ensures id in idMap
    {
      var loc :| 0 <= loc < |s.slots| && s.slots[loc] == Holds(id);
      assert LiveLoc(s, loc);
    }
    forall v | 0 <= v < n
      ensures v in idMap.Values
    {
      assert idMap[s.slots[who[v]].id] == v;
    }
  }

  // ----- second pass: repaired lists -----

  /** The ids a live point's repaired list draws from: its live neighbours, and the kept neighbours of its deleted
      neighbours, without itself. */
  ghost function Repaired<V>(s: Source<V>, sampled: nat, id: nat): set<nat>
    requires id in s.recs
  {
    set x | x in Through(s, sampled, s.recs[id].nbrs) && x != id
  }

  ghost function Through<V>(s: Source<V>, sampled: nat, nbrs: seq<nat>): set<nat> {
    if nbrs == [] then {}
    else Through(s, sampled, nbrs[..|nbrs| - 1]) + Reach(s, sampled, nbrs[|nbrs| - 1])
  }

  ghost function Reach<V>(s: Source<V>, sampled: nat, y: nat): set<nat> {
    if !Dead(s, y) then {y}
    else if y in s.recs then set x | x in Sample(LiveNbrs(s, s.recs[y].nbrs), sampled)
    else {}
  }

  // ----- what the repaired set is, in terms of the old lists -----

  /** The positions of the live neighbours before position k. */
  ghost function LiveBefore<V>(s: Source<V>, nbrs: seq<nat>, k: nat): set<nat> {
    set i: nat | i < k && i < |nbrs| && !Dead(s, nbrs[i])
  }

  /** x is one of the first `sampled` live neighbours of the list. */
  ghost predicate SampledNbr<V>(s: Source<V>, sampled: nat, nbrs: seq<nat>, x: nat) {
    exists k :: 0 <= k < |nbrs| && nbrs[k] == x && !Dead(s, x) && |LiveBefore(s, nbrs, k)| < sampled
  }

  /** An old edge to a live point, or a two-step path to one through a deleted point that leads to it early enough. */
  ghost predicate RepairEdge<V>(s: Source<V>, sampled: nat, id: nat, x: nat) {
    && id in s.recs && x != id && !Dead(s, x)
    && (x in s.recs[id].nbrs
        || exists d :: d in s.recs[id].nbrs && Dead(s, d) && d in s.recs && SampledNbr(s, sampled, s.recs[d].nbrs, x))
  }

  /** The live neighbours are listed in order: one has as many before it as live positions come before its own. */
  lemma {:induction false} LiveNbrsAt<V>(s: Source<V>, nbrs: seq<nat>)
    ensures |LiveNbrs(s, nbrs)| == |LiveBefore(s, nbrs, |nbrs|)|
    ensures forall k :: 0 <= k < |nbrs| && !Dead(s, nbrs[k]) ==>
              |LiveBefore(s, nbrs, k)| < |LiveNbrs(s, nbrs)| && LiveNbrs(s, nbrs)[|LiveBefore(s, nbrs, k)|] == nbrs[k]
  {
    hide Dead, LiveBefore;
    LiveBeforeSteps(s, nbrs);
    if nbrs != [] {
      LiveNbrsAt(s, nbrs[..|nbrs| - 1]);
    }
  }

  lemma LiveBeforeSteps<V>(s: Source<V>, nbrs: seq<nat>)
    ensures |LiveBefore(s, nbrs, 0)| == 0
    ensures nbrs != [] ==>
              var n := |nbrs| - 1;
              && (forall k :: 0 <= k <= n ==> LiveBefore(s, nbrs, k) == LiveBefore(s, nbrs[..n], k))
              && |LiveBefore(s, nbrs, n + 1)| == |LiveBefore(s, nbrs, n)| + if Dead(s, nbrs[n]) then 0 else 1
  {
    assert LiveBefore(s, nbrs, 0) == {};
    if nbrs != [] {
      var n := |nbrs| - 1;
      assert LiveBefore(s, nbrs, n + 1) == LiveBefore(s, nbrs, n) + if Dead(s, nbrs[n]) then {} else {n};
    }
  }

  /** Each of the live neighbours has its position. */
  lemma {:induction false} LiveNbrFrom<V>(s: Source<V>, nbrs: seq<nat>, j: nat) returns (k: nat)
    requires j < |LiveNbrs(s, nbrs)|
    ensures k < |nbrs| && nbrs[k] == LiveNbrs(s, nbrs)[j] && !Dead(s, nbrs[k]) && |LiveBefore(s, nbrs, k)| == j
  {
    hide Dead;
    var n := |nbrs| - 1;
    var t := nbrs[..n];
    LiveNbrsAt(s, nbrs);
    if j < |LiveNbrs(s, t)| {
      k := LiveNbrFrom(s, t, j);
      assert LiveBefore(s, nbrs, k) == LiveBefore(s, t, k);
    } else {
      k := n;
      LiveNbrsAt(s, t);
      assert LiveBefore(s, nbrs, n) == LiveBefore(s, t, n);
    }
  }

  lemma SampleIs<V>(s: Source<V>, sampled: nat, nbrs: seq<nat>, x: nat)
    ensures x in Sample(LiveNbrs(s, nbrs), sampled) <==> SampledNbr(s, sampled, nbrs, x)
  {
    var live := LiveNbrs(s, nbrs);
    hide Dead, LiveNbrs, LiveBefore;
    LiveNbrsAt(s, nbrs);
    if x in Sample(live, sampled) {
      var j :| 0 <= j < |Sample(live, sampled)| && Sample(live, sampled)[j] == x;
      var k := LiveNbrFrom(s, nbrs, j);
    }
    if SampledNbr(s, sampled, nbrs, x) {
      var k :| 0 <= k < |nbrs| && nbrs[k] == x && !Dead(s, x) && |LiveBefore(s, nbrs, k)| < sampled;
      assert Sample(live, sampled)[|LiveBefore(s, nbrs, k)|] == x;
    }
  }

  lemma ReachIs<V>(s: Source<V>, sampled: nat, y: nat, x: nat)
    ensures x in Reach(s, sampled, y) <==>
            !Dead(s, x) && (x == y || (Dead(s, y) && y in s.recs && SampledNbr(s, sampled, s.recs[y].nbrs, x)))
  {
    hide SampledNbr, Sample, LiveNbrs;
    if Dead(s, y) && y in s.recs {
      SampleIs(s, sampled, s.recs[y].nbrs, x);
      if SampledNbr(s, sampled, s.recs[y].nbrs, x) {
        SampledLive(s, sampled, s.recs[y].nbrs, x);
      }
    }
  }

  lemma SampledLive<V>(s: Source<V>, sampled: nat, nbrs: seq<nat>, x: nat)
    requires SampledNbr(s, sampled, nbrs, x)
    ensures !Dead(s, x) && x in nbrs
  {
  }

  lemma {:induction false} ThroughIs<V>(s: Source<V>, sampled: nat, nbrs: seq<nat>, x: nat)
    ensures x in Through(s, sampled, nbrs) <==>
            exists y :: y in nbrs && x in Reach(s, sampled, y)
  {
    hide Reach;
    if nbrs != [] {
      var t, z := nbrs[..|nbrs| - 1], nbrs[|nbrs| - 1];
      assert forall y :: y in nbrs <==> y in t || y == z;
      ThroughIs(s, sampled, t, x);
    }
  }

  /** The repaired set holds exactly the live neighbours, and the first live neighbours of deleted neighbours. */
  lemma RepairedIs<V>(s: Source<V>, sampled: nat, id: nat, x: nat)
    requires id in s.recs
    ensures x in Repaired(s, sampled, id) <==> RepairEdge(s, sampled, id, x)
  {
    hide Through, Reach, SampledNbr, Dead;
    var nbrs := s.recs[id].nbrs;
    ThroughIs(s, sampled, nbrs, x);
    forall y | y in nbrs
      ensures x in Reach(s, sampled, y) <==>
              !Dead(s, x) && (x == y || (Dead(s, y) && y in s.recs && SampledNbr(s, sampled, s.recs[y].nbrs, x)))
    {
      ReachIs(s, sampled, y, x);
    }
  }

  ghost predicate RepairEdges<V>(s: Source<V>, sampled: nat, id: nat, edges: set<nat>) {
    forall x :: x in edges <==> RepairEdge(s, sampled, id, x)
  }

  lemma EdgesAre<V>(s: Source<V>, sampled: nat, id: nat, edges: set<nat>)
    requires id in s.recs && RepairEdges(s, sampled, id, edges)
    ensures Repaired(s, sampled, id) == edges
  {
    hide Repaired, RepairEdge;
    forall x
      ensures x in Repaired(s, sampled, id) <==> x in edges
    {
      RepairedIs(s, sampled, id, x);
    }
  }

  /** An old edge, or a two-step path through one deleted point, to another live point. */
  ghost predicate OldPath<V>(s: Source<V>, id: nat, x: nat) {
    && id in s.recs && x != id && !Dead(s, x)
    && (x in s.recs[id].nbrs || exists d :: d in s.recs[id].nbrs && Dead(s, d) && d in s.recs && x in s.recs[d].nbrs)
  }

  /** Every edge of a repaired list comes from an old edge or from a path through one deleted point. */
  lemma RepairedPaths<V>(s: Source<V>, sampled: nat, id: nat, x: nat)
    requires id in s.recs && x in Repaired(s, sampled, id)
    ensures RepairEdge(s, sampled, id, x) && OldPath(s, id, x)
  {
    hide Repaired, Dead;
    RepairedIs(s, sampled, id, x);
    if x !in s.recs[id].nbrs {
      var d :| d in s.recs[id].nbrs && Dead(s, d) && d in s.recs && SampledNbr(s, sampled, s.recs[d].nbrs, x);
      SampledLive(s, sampled, s.recs[d].nbrs, x);
    }
  }

  /** The nearest `maxc` of a set of candidates are pruned. */
  ghost predicate CutFrom(ps: Settings, cands: set<nat>, id: nat, nhood: seq<nat>) {
    exists pool :: PoolFor(cands, id, ps.dist, pool) && nhood == Pruned(ps, Nearest(ps, pool))
  }

  function Nearest(ps: Settings, pool: seq<Candidate>): (r: seq<Candidate>)
    ensures |r| <= ps.maxc
  {
    if |pool| > ps.maxc then pool[..ps.maxc] else pool
  }

  /** The neighbour list of a live point: its repaired set in some order if it fits, otherwise that set pruned. */
  ghost predicate GoodList<V>(s: Source<V>, sampled: nat, ps: Settings, id: nat, nhood: seq<nat>)
    requires id in s.recs
  {
    if |Repaired(s, sampled, id)| <= ps.range
    then Distinct(nhood) && Members(nhood) == Repaired(s, sampled, id)
    else CutFrom(ps, Repaired(s, sampled, id), id, nhood)
  }

  lemma PoolForFacts(ps: Settings, cands: set<nat>, id: nat, pool: seq<Candidate>)
    requires PoolFor(cands, id, ps.dist, pool) && forall a, b :: 0.0 <= ps.dist(a, b)
    ensures var cut := Nearest(ps, pool);
            && NonNegative(cut, ps.dist) && Consistent(cut) && Sorted(cut) && SortedPool(cut)
            && (forall k :: 0 <= k < |cut| ==> cut[k].id in cands && cut[k].distance == ps.dist(id, cut[k].id))
  {
    var cut := Nearest(ps, pool);
    assert forall k :: 0 <= k < |cut| ==> cut[k] == pool[k] && pool[k] in pool;
  }

  /** Pruned lists hold distinct ids of the set, at most `range`. */
  lemma CutFacts(ps: Settings, cands: set<nat>, id: nat, nhood: seq<nat>)
    requires CutFrom(ps, cands, id, nhood) && forall a, b :: 0.0 <= ps.dist(a, b)
    ensures Distinct(nhood) && |nhood| <= ps.range && forall i :: 0 <= i < |nhood| ==> nhood[i] in cands
  {
    hide Pruned, PoolFor;
    var pool: seq<Candidate> :| PoolFor(cands, id, ps.dist, pool) && nhood == Pruned(ps, Nearest(ps, pool));
    PoolForFacts(ps, cands, id, pool);
    PrunedFacts(ps, Nearest(ps, pool));
    forall i | 0 <= i < |nhood|
      ensures nhood[i] in cands
    {
      assert HasId(Nearest(ps, pool), nhood[i]);
    }
  }

  /** A good list holds distinct ids from the repaired set, at most `range`, and all of them if they fit. */
  lemma GoodListFacts<V>(s: Source<V>, sampled: nat, ps: Settings, id: nat, nhood: seq<nat>)
    requires id in s.recs && GoodList(s, sampled, ps, id, nhood) && forall a, b :: 0.0 <= ps.dist(a, b)
    ensures Distinct(nhood) && |nhood| <= ps.range
    ensures forall i :: 0 <= i < |nhood| ==> nhood[i] in Repaired(s, sampled, id)
    ensures |Repaired(s, sampled, id)| <= ps.range ==> forall x :: x in Repaired(s, sampled, id) ==> x in nhood
  {
    hide Repaired, CutFrom;
    var r := Repaired(s, sampled, id);
    if |r| <= ps.range {
      MembersCard(nhood);
      assert forall x :: x in nhood <==> x in Members(nhood);
    } else {
      CutFacts(ps, r, id, nhood);
    }
  }

  /** `near` holds the nearest of the ids, as many as are looked at. */
  ghost predicate NearestOf(ps: Settings, id: nat, cands: set<nat>, near: set<nat>) {
    && near <= cands && |near| == (if |cands| > ps.maxc then ps.maxc else |cands|)
    && forall x, y :: x in near && y in cands && y !in near ==>
         Less(Candidate(x, ps.dist(id, x)), Candidate(y, ps.dist(id, y)))
  }

  /** The list that the pruning makes of the ids `near`: the occlusion's first n, nearest first, and behind them the
      nearest that are missing. What it leaves out is covered. */
  ghost predicate PrunedFrom(ps: Settings, id: nat, near: set<nat>, nhood: seq<nat>, n: nat, last: real) {
    && NearFirst(ps, id, near, nhood, n) && (ps.alpha <= 1.0 ==> n == |nhood|)
    && (ps.alpha > 1.0 && |nhood| < ps.range ==> forall x :: x in near ==> x in nhood)
    && (n < ps.range && 1.0 <= ps.alpha ==>
          && 1.0 <= last <= ps.alpha < last * 1.2
          && forall x :: x in near ==> x in nhood[..n] || Shadowed(ps, id, x, nhood[..n], last))
  }

  /** The nearest candidates as a pool of their own. */
  lemma NearestPool(ps: Settings, cands: set<nat>, id: nat, pool: seq<Candidate>) returns (near: set<nat>)
    requires PoolFor(cands, id, ps.dist, pool)
    ensures NearestOf(ps, id, cands, near) && PoolFor(near, id, ps.dist, Nearest(ps, pool))
  {
    var cut := Nearest(ps, pool);
    near := Members(Ids(cut));
    forall c
      ensures c in cut <==> c.id in near && c.distance == ps.dist(id, c.id)
    {
      if c in cut {
        var k :| 0 <= k < |cut| && cut[k] == c;
        assert Ids(cut)[k] == c.id && pool[k] in pool;
      }
      if c.id in near && c.distance == ps.dist(id, c.id) {
        var k :| 0 <= k < |cut| && Ids(cut)[k] == c.id;
        assert cut[k] == pool[k] && pool[k] in pool;
      }
    }
    forall x, y | x in near && y in cands
      ensures y in near || Less(Candidate(x, ps.dist(id, x)), Candidate(y, ps.dist(id, y)))
    {
      var i :| 0 <= i < |cut| && cut[i] == Candidate(x, ps.dist(id, x));
      PoolForHas(cands, id, ps.dist, pool, y);
      var j :| 0 <= j < |pool| && pool[j] == Candidate(y, ps.dist(id, y));
      if j < |cut| {
        assert Ids(cut)[j] == y;
      }
    }
    PoolForSize(cands, id, ps.dist, pool);
    PoolForSize(near, id, ps.dist, cut);
    forall x | x in near
      ensures x in cands
    {
      var i :| 0 <= i < |cut| && Ids(cut)[i] == x;
      assert pool[i] in pool;
    }
  }

  /** A pruned list in terms of the set it is made from. */
  lemma CutCovers(ps: Settings, cands: set<nat>, id: nat, nhood: seq<nat>)
    returns (near: set<nat>, n: nat, last: real)
    requires CutFrom(ps, cands, id, nhood) && forall a, b :: 0.0 <= ps.dist(a, b)
    ensures NearestOf(ps, id, cands, near) && PrunedFrom(ps, id, near, nhood, n, last)
  {
    hide Pruned, PoolFor, Shadowed, NearestOf, NearFirst, Diversified, SortedPool, Nearest;
    var pool: seq<Candidate> :| PoolFor(cands, id, ps.dist, pool) && nhood == Pruned(ps, Nearest(ps, pool));
    near := NearestPool(ps, cands, id, pool);
    var cut := Nearest(ps, pool);
    n, last := PoolPruned(ps, near, id, cut);
  }

  lemma PoolPruned(ps: Settings, near: set<nat>, id: nat, cut: seq<Candidate>) returns (n: nat, last: real)
    requires PoolFor(near, id, ps.dist, cut) && |cut| <= ps.maxc && forall a, b :: 0.0 <= ps.dist(a, b)
    ensures PrunedFrom(ps, id, near, Pruned(ps, cut), n, last)
  {
    hide Pruned, Shadowed, NearFirst, Diversified, SortedPool, PoolFor, CandidatesOf;
    var nhood := Pruned(ps, cut);
    PoolForUse(near, id, ps.dist, cut);
    var kept;
    kept, n, last := PrunedDiversified(ps, cut);
    PoolForCandidates(ps, near, id, cut);
    DiversifiedNear(ps, id, near, cut, nhood, kept, n, last);
    PrunedFacts(ps, cut);
    forall x | x in near
      ensures ps.alpha > 1.0 && |nhood| < ps.range ==> x in nhood
      ensures n < ps.range && 1.0 <= ps.alpha ==> x in nhood[..n] || Shadowed(ps, id, x, nhood[..n], last)
    {
      PoolForHas(near, id, ps.dist, cut, x);
      var k :| 0 <= k < |cut| && cut[k] == Candidate(x, ps.dist(id, x));
      if n < ps.range && 1.0 <= ps.alpha {
        PoolShadow(ps, id, cut, nhood, kept, n, last, x);
      }
    }
    if n < ps.range && 1.0 <= ps.alpha {
      CoveredLast(ps, cut, nhood, kept, n, last);
    }
  }

  lemma PoolForCandidates(ps: Settings, ids: set<nat>, id: nat, pool: seq<Candidate>)
    requires PoolFor(ids, id, ps.dist, pool)
    ensures CandidatesOf(ps, id, ids, pool)
  {
  }

  /** Collect the ids a list leads to, in a set. */
  method CollectThrough<V>(s: Source<V>, sampled: nat, nhoods: map<nat, seq<nat>>, nbrs: seq<nat>) returns (r: set<nat>)
    requires forall d :: d in nhoods ==> d in s.recs && nhoods[d] == Sample(LiveNbrs(s, s.recs[d].nbrs), sampled)
    requires forall i :: 0 <= i < |nbrs| && Dead(s, nbrs[i]) ==> nbrs[i] in nhoods
    ensures r == Through(s, sampled, nbrs)
  {
    hide Sample, LiveNbrs, Dead;
    r := {};
    for i := 0 to |nbrs|
      invariant r == Through(s, sampled, nbrs[..i])
    {
      assert nbrs[..i + 1][..i] == nbrs[..i];
      if Dead(s, nbrs[i]) {
        r := r + set x | x in nhoods[nbrs[i]];
      } else {
        r := r + {nbrs[i]};
      }
    }
    assert nbrs[..|nbrs|] == nbrs;
  }

  /** Cut a list that is too long: sort by distance, keep the nearest `maxc`, prune. */
  method CutList(ps: Settings, nhood: seq<nat>, id: nat) returns (r: seq<nat>)
    requires Distinct(nhood)
    ensures CutFrom(ps, Members(nhood), id, r)
  {
    hide Pruned;
    var cands := seq(|nhood|, i requires 0 <= i < |nhood| => Candidate(nhood[i], ps.dist(id, nhood[i])));
    var sorted := SortPool(cands);
    SortStrict(cands);
    SortedFor(nhood, id, ps.dist, cands, sorted);
    r := PruneNeighborsPq(ps, Nearest(ps, sorted));
  }

  lemma SortedFor(nhood: seq<nat>, id: nat, dist: Distance, cands: seq<Candidate>, sorted: seq<Candidate>)
    requires |cands| == |nhood| && forall i :: 0 <= i < |nhood| ==> cands[i] == Candidate(nhood[i], dist(id, nhood[i]))
    requires Sorted(sorted) && forall c :: c in sorted <==> c in cands
    ensures PoolFor(Members(nhood), id, dist, sorted)
  {
    forall c
      ensures c in cands <==> c.id in Members(nhood) && c.distance == dist(id, c.id)
    {
      if c.id in nhood && c.distance == dist(id, c.id) {
        var i :| 0 <= i < |nhood| && nhood[i] == c.id;
        assert cands[i] == c;
      }
    }
  }

  /** The repaired list of a live point, still in old ids. */
  method RepairList<V>(s: Source<V>, sampled: nat, nhoods: map<nat, seq<nat>>, id: nat, ps: Settings)
    returns (nhood: seq<nat>)
    requires id in s.recs
    requires forall d :: d in nhoods ==> d in s.recs && nhoods[d] == Sample(LiveNbrs(s, s.recs[d].nbrs), sampled)
    requires forall i :: 0 <= i < |s.recs[id].nbrs| && Dead(s, s.recs[id].nbrs[i]) ==> s.recs[id].nbrs[i] in nhoods
    ensures GoodList(s, sampled, ps, id, nhood)
  {
    hide Sample, LiveNbrs, Dead, Through;
    var nhoodSet := CollectThrough(s, sampled, nhoods, s.recs[id].nbrs);
    nhoodSet := nhoodSet - {id};
    assert nhoodSet == Repaired(s, sampled, id);
    nhood := Enumerate(nhoodSet);
    if |nhood| > ps.range {
      nhood := CutList(ps, nhood, id);
    }
  }

  /** Replace old ids by new ones. */
  method Renumber(nhood: seq<nat>, idMap: map<nat, nat>) returns (r: seq<nat>)
    requires forall i :: 0 <= i < |nhood| ==> nhood[i] in idMap
    ensures |r| == |nhood| && forall i :: 0 <= i < |r| ==> r[i] == idMap[nhood[i]]
  {
    r := [];
    for i := 0 to |nhood|
      invariant |r| == i && forall j :: 0 <= j < i ==> r[j] == idMap[nhood[j]]
    {
      r := r + [idMap[nhood[i]]];
    }
  }

  /** The record written for a live point: its coordinates, and a good list in new ids. */
  ghost predicate GoodRecord<V>(s: Source<V>, sampled: nat, ps: Settings, idMap: map<nat, nat>, id: nat,
                                rec: Record<V>) {
    && id in s.recs && rec.coords == s.recs[id].coords
    && exists nhood :: GoodList(s, sampled, ps, id, nhood) && Renamed(idMap, nhood, rec.nbrs)
  }

  ghost predicate Renamed(idMap: map<nat, nat>, nhood: seq<nat>, nbrs: seq<nat>) {
    |nhood| == |nbrs| && forall i :: 0 <= i < |nbrs| ==> nhood[i] in idMap && nbrs[i] == idMap[nhood[i]]
  }

  /** After the first pass every look-up of the second pass succeeds. */
  lemma LookupsSucceed<V>(s: Source<V>, sampled: nat, done: set<nat>, who: seq<nat>, idMap: map<nat, nat>,
                          nhoods: map<nat, seq<nat>>, n: nat, id: nat)
    requires Sound(s) && PassOne(s, sampled, done, who, idMap, nhoods, n) && AllBefore(done, |s.slots|, |s.slots|)
    requires Stored(s, id) && id in s.recs
    ensures forall i :: 0 <= i < |s.recs[id].nbrs| && Dead(s, s.recs[id].nbrs[i]) ==> s.recs[id].nbrs[i] in nhoods
    ensures forall x :: x in Repaired(s, sampled, id) ==> x in idMap
  {
    NumberingBijective(s, sampled, done, who, idMap, nhoods, n);
    hide Numbered, StepOrdered;
    forall i | 0 <= i < |s.recs[id].nbrs| && Dead(s, s.recs[id].nbrs[i])
      ensures s.recs[id].nbrs[i] in nhoods
    {
      var y := s.recs[id].nbrs[i];
      assert Stored(s, y);
      var loc :| 0 <= loc < |s.slots| && s.slots[loc] == Holds(y);
      assert loc in done;
    }
    forall x | x in Repaired(s, sampled, id)
      ensures x in idMap
    {
      RepairedStored(s, sampled, id, x);
    }
  }

  lemma RepairedStored<V>(s: Source<V>, sampled: nat, id: nat, x: nat)
    requires Sound(s) && Stored(s, id) && id in s.recs && x in Repaired(s, sampled, id)
    ensures Stored(s, x) && !Dead(s, x)
  {
    hide Repaired, Stored;
    RepairedPaths(s, sampled, id, x);
    if x in s.recs[id].nbrs {
      var i :| 0 <= i < |s.recs[id].nbrs| && s.recs[id].nbrs[i] == x;
    } else {
      var d :| d in s.recs[id].nbrs && Dead(s, d) && d in s.recs && x in s.recs[d].nbrs;
      var i :| 0 <= i < |s.recs[id].nbrs| && s.recs[id].nbrs[i] == d;
      assert Stored(s, d);
      var j :| 0 <= j < |s.recs[d].nbrs| && s.recs[d].nbrs[j] == x;
    }
  }

  /** Both passes' view of the finished first pass. */
  ghost predicate FirstPassDone<V>(s: Source<V>, sampled: nat, who: seq<nat>, idMap: map<nat, nat>,
                                   nhoods: map<nat, seq<nat>>) {
    exists done :: PassOne(s, sampled, done, who, idMap, nhoods, |who|) && AllBefore(done, |s.slots|, |s.slots|)
  }

  /** One live location of the second pass: its new id and the record for it. */
  method MergeLoc<V>(s: Source<V>, sampled: nat, loc: nat, idMap: map<nat, nat>, nhoods: map<nat, seq<nat>>,
                     ps: Settings, ghost who: seq<nat>)
    returns (newId: nat, rec: Record<V>)
    requires Sound(s) && FirstPassDone(s, sampled, who, idMap, nhoods) && forall a, b :: 0.0 <= ps.dist(a, b)
    requires LiveLoc(s, loc)
    ensures newId < |who| && who[newId] == loc && GoodRecord(s, sampled, ps, idMap, s.slots[loc].id, rec)
  {
    hide Repaired, GoodList;
    var id := s.slots[loc].id;
    ghost var done :| PassOne(s, sampled, done, who, idMap, nhoods, |who|) && AllBefore(done, |s.slots|, |s.slots|);
    assert Stored(s, id);
    LookupsSucceed(s, sampled, done, who, idMap, nhoods, |who|, id);
    assert loc in done && loc in who;
    NumberOf(s, who, done, idMap, loc);
    hide Numbered, StepOrdered, Sound;
    var nhood := RepairList(s, sampled, nhoods, id, ps);
    GoodListFacts(s, sampled, ps, id, nhood);
    var nbrs := Renumber(nhood, idMap);
    newId := idMap[id];
    rec := Record(s.recs[id].coords, nbrs);
    assert Renamed(idMap, nhood, rec.nbrs);
  }

  /** The records produced so far are those of the locations processed, each under its new id. */
  ghost predicate Merged<V>(s: Source<V>, sampled: nat, ps: Settings, idMap: map<nat, nat>, who: seq<nat>,
                            done: set<nat>, out: map<nat, Record<V>>) {
    && (forall v: nat :: v in out <==> v < |who| && who[v] in done)
    && (forall v :: v in out ==> who[v] < |s.slots| && s.slots[who[v]].Holds?
                                 && GoodRecord(s, sampled, ps, idMap, s.slots[who[v]].id, out[v]))
  }

  lemma MergedAdd<V>(s: Source<V>, sampled: nat, ps: Settings, idMap: map<nat, nat>, who: seq<nat>, done: set<nat>,
                     out: map<nat, Record<V>>, v: nat, rec: Record<V>)
    requires Merged(s, sampled, ps, idMap, who, done, out) && Distinct(who) && v < |who| && who[v] !in done
    requires LiveLoc(s, who[v]) && GoodRecord(s, sampled, ps, idMap, s.slots[who[v]].id, rec)
    ensures v !in out && Merged(s, sampled, ps, idMap, who, done + {who[v]}, out[v := rec])
  {
    hide GoodRecord;
  }

  lemma MergedSkip<V>(s: Source<V>, sampled: nat, ps: Settings, idMap: map<nat, nat>, who: seq<nat>, done: set<nat>,
                      out: map<nat, Record<V>>, loc: nat)
    requires Merged(s, sampled, ps, idMap, who, done, out) && !LiveLoc(s, loc)
    requires forall v :: 0 <= v < |who| ==> LiveLoc(s, who[v])
    ensures Merged(s, sampled, ps, idMap, who, done + {loc}, out)
  {
    hide GoodRecord, LiveLoc;
  }

  /** The new ids of the locations before `bound` are exactly those below c. */
  ghost predicate CutAt(who: seq<nat>, bound: nat, c: nat) {
    c <= |who| && forall v :: 0 <= v < |who| ==> (v < c <==> who[v] < bound)
  }

  /** A merge step starts on a step boundary of the first pass, so its new ids form one contiguous range. */
  lemma CutExists(nn: nat, who: seq<nat>, t: nat) returns (c: nat)
    requires StepOrdered(nn, who) && t % SECTORS_PER_POPULATE == 0
    ensures CutAt(who, Edge(nn, t), c)
  {
    hide Edge;
    c := 0;
    while c < |who| && who[c] < Edge(nn, t)
      invariant c <= |who| && forall v :: 0 <= v < c ==> who[v] < Edge(nn, t)
    {
      c := c + 1;
    }
  }

  /** A range of new ids is no longer than the range of locations it comes from. */
  lemma CutGap(who: seq<nat>, lo: nat, hi: nat, c: nat, d: nat)
    requires Distinct(who) && CutAt(who, lo, c) && CutAt(who, hi, d) && lo <= hi
    ensures c <= d <= c + (hi - lo)
  {
    if c > 0 {
      assert who[c - 1] < lo;
    }
    Pigeonhole(who[c..d], lo, hi);
  }

  /** When the locations before a boundary are merged, their records are numbered from 0 without a gap. */
  lemma MergedCount<V>(s: Source<V>, sampled: nat, ps: Settings, idMap: map<nat, nat>, who: seq<nat>, done: set<nat>,
                       out: map<nat, Record<V>>, bound: nat, c: nat)
    requires Merged(s, sampled, ps, idMap, who, done, out) && AllBefore(done, bound, |s.slots|) && CutAt(who, bound, c)
    requires forall v :: 0 <= v < |who| ==> LiveLoc(s, who[v])
    ensures |out| == c && forall v: nat :: v in out <==> v < c
  {
    hide GoodRecord;
    PrefixKeys(out, c);
  }

  lemma WhoDistinct<V>(s: Source<V>, sampled: nat, who: seq<nat>, idMap: map<nat, nat>, nhoods: map<nat, seq<nat>>)
    requires FirstPassDone(s, sampled, who, idMap, nhoods)
    ensures Distinct(who) && StepOrdered(s.nn, who) && forall v :: 0 <= v < |who| ==> LiveLoc(s, who[v])
  {
    hide StepOrdered, LiveLoc;
  }

  /** What holds of the writer between the steps: less than half of the buffer is waiting. */
  ghost predicate Waiting<V>(w: SlidingWriter<V>)
    reads w, w.wbuf
  {
    w.Valid() && Aligned(w.wbId, w.half) && w.wbId <= w.nUsed < w.wbId + w.half
  }

  /** The locations of one step of the second pass, in any order. */
  method MergeBatch<V>(w: SlidingWriter<V>, s: Source<V>, sampled: nat, idMap: map<nat, nat>,
                       nhoods: map<nat, seq<nat>>, ps: Settings, locSt: nat, locEd: nat, ghost done0: set<nat>,
                       ghost who: seq<nat>, ghost c: nat, ghost d: nat)
    returns (ghost done: set<nat>)
    requires Sound(s) && FirstPassDone(s, sampled, who, idMap, nhoods) && forall a, b :: 0.0 <= ps.dist(a, b)
    requires w.Valid() && w.wbId <= c <= d <= w.wbId + 2 * w.half && CutAt(who, locSt, c) && CutAt(who, locEd, d)
    requires Merged(s, sampled, ps, idMap, who, done0, w.out) && AllBefore(done0, locSt, |s.slots|)
    requires locSt <= locEd
    modifies w`nUsed, w`out, w.wbuf
    ensures w.Valid() && Merged(s, sampled, ps, idMap, who, done, w.out) && AllBefore(done, locEd, |s.slots|)
  {
    hide Sound, FirstPassDone, Merged, StepOrdered, LiveLoc, Lossless, CutAt;
    done := done0;
    WhoDistinct(s, sampled, who, idMap, nhoods);
    var todo := Range(locSt, Min(locEd, |s.slots|));
    while todo != {}
      invariant w.Valid() && Merged(s, sampled, ps, idMap, who, done, w.out)
      invariant forall loc :: loc in todo ==> locSt <= loc < locEd && loc < |s.slots| && loc !in done
      invariant forall loc: nat :: loc in done <==> loc < locEd && loc < |s.slots| && loc !in todo
    {
      var loc :| loc in todo;
      if LiveLoc(s, loc) {
        var newId, rec := MergeLoc(s, sampled, loc, idMap, nhoods, ps, who);
        MergedAdd(s, sampled, ps, idMap, who, done, w.out, newId, rec);
        CutBetween(who, locSt, locEd, c, d, newId);
        w.Put(newId, rec);
      } else {
        MergedSkip(s, sampled, ps, idMap, who, done, w.out, loc);
      }
      todo, done := todo - {loc}, done + {loc};
    }
  }

  /** One step of the second pass: merge its locations, then write half of the buffer if that much is waiting. */
  method MergeStep<V>(w: SlidingWriter<V>, s: Source<V>, sampled: nat, idMap: map<nat, nat>, nhoods: map<nat, seq<nat>>,
                      ps: Settings, st: nat, ghost done0: set<nat>, ghost who: seq<nat>)
    returns (ghost done: set<nat>)
    requires Sound(s) && FirstPassDone(s, sampled, who, idMap, nhoods) && forall a, b :: 0.0 <= ps.dist(a, b)
    requires Waiting(w) && w.half == Edge(s.nn, SECTORS_PER_MERGE) && st % SECTORS_PER_MERGE == 0
    requires Merged(s, sampled, ps, idMap, who, done0, w.out) && AllBefore(done0, Edge(s.nn, st), |s.slots|)
    modifies w, w.wbuf
    ensures Waiting(w) && Merged(s, sampled, ps, idMap, who, done, w.out)
    ensures AllBefore(done, Edge(s.nn, st + SECTORS_PER_MERGE), |s.slots|)
  {
    hide Sound, FirstPassDone, Merged, Edge, StepOrdered, LiveLoc, Aligned, Lossless, CutAt, AllBefore;
    WhoDistinct(s, sampled, who, idMap, nhoods);
    StepOfMerge(st);
    var locSt, locEd := Edge(s.nn, st), Edge(s.nn, st + SECTORS_PER_MERGE);
    ghost var c := CutExists(s.nn, who, st);
    ghost var d := CutExists(s.nn, who, st + SECTORS_PER_MERGE);
    EdgeSum(s.nn, st, SECTORS_PER_MERGE);
    CutGap(who, locSt, locEd, c, d);
    MergedCount(s, sampled, ps, idMap, who, done0, w.out, locSt, c);
    done := MergeBatch(w, s, sampled, idMap, nhoods, ps, locSt, locEd, done0, who, c, d);
    MergedCount(s, sampled, ps, idMap, who, done, w.out, locEd, d);
    if w.nUsed - w.wbId >= w.half {
      AlignedStill(w.half, w.wbId);
      w.WriteBack();
    }
  }

  lemma AlignedStill(half: nat, wb: nat)
    requires Aligned(wb, half)
    ensures Aligned(wb + half, half)
  {
    StepAligned(half, wb);
  }

  /** The second pass: all steps, then what is left in the buffer. */
  method SecondPass<V>(w: SlidingWriter<V>, s: Source<V>, sampled: nat, idMap: map<nat, nat>,
                       nhoods: map<nat, seq<nat>>, ps: Settings, ghost who: seq<nat>)
    returns (ghost done: set<nat>)
    requires Sound(s) && FirstPassDone(s, sampled, who, idMap, nhoods) && forall a, b :: 0.0 <= ps.dist(a, b)
    requires Waiting(w) && w.half == Edge(s.nn, SECTORS_PER_MERGE) && w.out == map[]
    modifies w, w.wbuf
    ensures w.Valid() && w.wbId == w.nUsed
    ensures Merged(s, sampled, ps, idMap, who, done, w.out) && AllBefore(done, |s.slots|, |s.slots|)
  {
    hide Edge, SectorCount, Merged, Lossless, FirstPassDone, Sound, Aligned, AllBefore;
    done := {};
    StartMerge(s, sampled, ps, idMap, who, w.out);
    var nSectors := SectorCount(s.nn, |s.slots|);
    var t: nat := 0;
    while t < nSectors
      invariant t % SECTORS_PER_MERGE == 0 && Waiting(w)
      invariant Merged(s, sampled, ps, idMap, who, done, w.out) && AllBefore(done, Edge(s.nn, t), |s.slots|)
    {
      done := MergeStep(w, s, sampled, idMap, nhoods, ps, t, done, who);
      t := t + SECTORS_PER_MERGE;
    }
    CoversAll(s.nn, |s.slots|, t, done);
    w.Drain();
  }

  lemma StartMerge<V>(s: Source<V>, sampled: nat, ps: Settings, idMap: map<nat, nat>, who: seq<nat>,
                      out: map<nat, Record<V>>)
    requires Sound(s) && out == map[]
    ensures Merged(s, sampled, ps, idMap, who, {}, out) && s.nn >= 1 && AllBefore({}, Edge(s.nn, 0), |s.slots|)
  {
  }

  lemma CoversAll(nn: nat, n: nat, t: nat, done: set<nat>)
    requires nn >= 1 && t >= SectorCount(nn, n) && AllBefore(done, Edge(nn, t), n)
    ensures AllBefore(done, n, n)
  {
    hide Edge, SectorCount;
    SectorsCover(nn, n);
    EdgeMonotone(nn, SectorCount(nn, n), t);
  }

  /** Once every location is merged and everything is flushed, the file holds the record of every new id. */
  lemma FileComplete<V>(s: Source<V>, sampled: nat, ps: Settings, idMap: map<nat, nat>, nhoods: map<nat, seq<nat>>,
                        who: seq<nat>, done: set<nat>, out: map<nat, Record<V>>, half: nat, file: map<nat, Record<V>>,
                        buf: seq<Record<V>>)
    requires FirstPassDone(s, sampled, who, idMap, nhoods) && half > 0 && |buf| == 2 * half
    requires Merged(s, sampled, ps, idMap, who, done, out) && AllBefore(done, |s.slots|, |s.slots|)
    requires Lossless(out, |out|, half, file, buf)
    ensures forall id :: id in idMap ==> idMap[id] in file && GoodRecord(s, sampled, ps, idMap, id, file[idMap[id]])
  {
    hide GoodRecord, StepOrdered, Populated, MergeWriter.Place;
    WhoDistinct(s, sampled, who, idMap, nhoods);
    MergedCount(s, sampled, ps, idMap, who, done, out, |s.slots|, |who|);
  }

  /** merge_deletes: the live ids are renumbered 0 .. n - 1 one to one, and the file holds for every new id the repaired
      record of its point. */
  method MergeDeletes<V>(s: Source<V>, sampled: nat, ps: Settings, blank: Record<V>)
    returns (idMap: map<nat, nat>, nhoods: map<nat, seq<nat>>, n: nat, file: map<nat, Record<V>>)
    requires Sound(s) && forall a, b :: 0.0 <= ps.dist(a, b)
    ensures forall id :: id in idMap <==> Stored(s, id) && !Dead(s, id)
    ensures forall a, b :: a in idMap && b in idMap && idMap[a] == idMap[b] ==> a == b
    ensures idMap.Values == Range(0, n)
    ensures forall id :: id in idMap ==> idMap[id] in file && GoodRecord(s, sampled, ps, idMap, id, file[idMap[id]])
    ensures forall id :: Stored(s, id) && Dead(s, id) ==>
              id in s.recs && id in nhoods && nhoods[id] == Sample(LiveNbrs(s, s.recs[id].nbrs), sampled)
  {
    hide Sound, PassOne, Edge, Merged, GoodRecord, Lossless, Dead, Stored, Aligned, Sample, LiveNbrs;
    ghost var who, done1;
    idMap, nhoods, n, done1, who := Populate(s, sampled);
    NumberingBijective(s, sampled, done1, who, idMap, nhoods, n);
    AllPopulated(s, sampled, done1, who, idMap, nhoods, n);
    PassOneFacts(s, sampled, done1, who, idMap, nhoods, n);
    var w := new SlidingWriter<V>(s.nn, SECTORS_PER_MERGE, blank);
    WholeBuffer(s.nn, w.half);
    ghost var done := SecondPass(w, s, sampled, idMap, nhoods, ps, who);
    file := w.file;
    FileComplete(s, sampled, ps, idMap, nhoods, who, done, w.out, w.half, w.file, w.wbuf[..]);
  }

  lemma AllPopulated<V>(s: Source<V>, sampled: nat, done: set<nat>, who: seq<nat>, idMap: map<nat, nat>,
                        nhoods: map<nat, seq<nat>>, n: nat)
    requires PassOne(s, sampled, done, who, idMap, nhoods, n) && AllBefore(done, |s.slots|, |s.slots|)
    ensures forall id :: Stored(s, id) && Dead(s, id) ==>
              id in s.recs && id in nhoods && nhoods[id] == Sample(LiveNbrs(s, s.recs[id].nbrs), sampled)
  {
    hide Numbered, StepOrdered, Sample, LiveNbrs;
  }

  // ----- what the new index means -----

  /** Every edge of the new graph stands for an old edge or a path through one deleted point, leads to a live point
      other than its start, and no list exceeds `range`. */
  lemma MergedEdges<V>(s: Source<V>, sampled: nat, ps: Settings, idMap: map<nat, nat>, id: nat, rec: Record<V>, i: nat)
    requires GoodRecord(s, sampled, ps, idMap, id, rec) && i < |rec.nbrs|
    requires forall a, b :: a in idMap && b in idMap && idMap[a] == idMap[b] ==> a == b
    requires id in idMap && forall a, b :: 0.0 <= ps.dist(a, b)
    ensures |rec.nbrs| <= ps.range && rec.nbrs[i] != idMap[id]
    ensures exists x :: x in idMap && rec.nbrs[i] == idMap[x] && RepairEdge(s, sampled, id, x) && OldPath(s, id, x)
    ensures forall j :: 0 <= j < |rec.nbrs| && j != i ==> rec.nbrs[i] != rec.nbrs[j]
  {
    hide Repaired;
    var nhood :| GoodList(s, sampled, ps, id, nhood) && Renamed(idMap, nhood, rec.nbrs);
    GoodListFacts(s, sampled, ps, id, nhood);
    RepairedPaths(s, sampled, id, nhood[i]);
  }

  /** If the edges to repair fit, the new list holds exactly them. */
  lemma MergedComplete<V>(s: Source<V>, sampled: nat, ps: Settings, idMap: map<nat, nat>, id: nat, rec: Record<V>,
                          edges: set<nat>)
    requires GoodRecord(s, sampled, ps, idMap, id, rec) && RepairEdges(s, sampled, id, edges) && |edges| <= ps.range
    ensures |rec.nbrs| == |edges| && forall x :: x in edges ==> x in idMap && idMap[x] in rec.nbrs
  {
    hide Repaired, RepairEdges, CutFrom;
    EdgesAre(s, sampled, id, edges);
    var nhood :| GoodList(s, sampled, ps, id, nhood) && Renamed(idMap, nhood, rec.nbrs);
    MembersCard(nhood);
    forall x | x in edges
      ensures x in idMap && idMap[x] in rec.nbrs
    {
      assert x in Members(nhood);
      var i :| 0 <= i < |nhood| && nhood[i] == x;
      assert rec.nbrs[i] == idMap[x];
    }
  }

  /** If they do not fit, the new list is `nhood` in new ids, the pruning of the nearest of the edges to repair. */
  lemma MergedCovers<V>(s: Source<V>, sampled: nat, ps: Settings, idMap: map<nat, nat>, id: nat, rec: Record<V>,
                        edges: set<nat>)
    returns (nhood: seq<nat>, near: set<nat>, n: nat, last: real)
    requires GoodRecord(s, sampled, ps, idMap, id, rec) && RepairEdges(s, sampled, id, edges) && ps.range < |edges|
    requires forall a, b :: 0.0 <= ps.dist(a, b)
    ensures Renamed(idMap, nhood, rec.nbrs) && NearestOf(ps, id, edges, near)
    ensures PrunedFrom(ps, id, near, nhood, n, last)
  {
    hide Repaired, CutFrom, RepairEdges, NearestOf, PrunedFrom;
    EdgesAre(s, sampled, id, edges);
    nhood :| GoodList(s, sampled, ps, id, nhood) && Renamed(idMap, nhood, rec.nbrs);
    near, n, last := CutCovers(ps, edges, id, nhood);
  }

  /** An entry point that is live, or has a live neighbour to take its place. */
  ghost predicate MedoidReplaceable<V>(s: Source<V>, sampled: nat, medoid: nat) {
    !Dead(s, medoid) || (medoid in s.recs && sampled > 0 && exists x :: x in s.recs[medoid].nbrs && !Dead(s, x))
  }

  /** x is the first live neighbour of the list. */
  ghost predicate FirstLive<V>(s: Source<V>, nbrs: seq<nat>, x: nat) {
    exists k :: 0 <= k < |nbrs| && nbrs[k] == x && !Dead(s, x) && forall i :: 0 <= i < k ==> Dead(s, nbrs[i])
  }

  lemma {:induction false} LiveFirst<V>(s: Source<V>, nbrs: seq<nat>)
    ensures LiveNbrs(s, nbrs) != [] ==> FirstLive(s, nbrs, LiveNbrs(s, nbrs)[0])
  {
    if nbrs != [] && LiveNbrs(s, nbrs) != [] {
      var t, n := nbrs[..|nbrs| - 1], |nbrs| - 1;
      LiveFirst(s, t);
      if LiveNbrs(s, t) != [] {
        var k :| 0 <= k < |t| && t[k] == LiveNbrs(s, t)[0] && forall i :: 0 <= i < k ==> Dead(s, t[i]);
        assert nbrs[k] == LiveNbrs(s, nbrs)[0];
        assert !Dead(s, nbrs[k]) && forall i :: 0 <= i < k ==> nbrs[i] == t[i];
      } else {
        assert forall i :: 0 <= i < n ==> nbrs[i] == t[i] && (Dead(s, t[i]) || t[i] in LiveNbrs(s, t));
        assert nbrs[n] == LiveNbrs(s, nbrs)[0];
      }
    }
  }

  /** The new entry point. A deleted one is replaced by the first kept neighbour of its list; that is out of bounds
      exactly if the entry point is deleted and no neighbour was kept. */
  method NewMedoid<V>(s: Source<V>, sampled: nat, nhoods: map<nat, seq<nat>>, medoid0: nat)
    returns (ok: bool, medoid: nat)
    requires Sound(s) && Stored(s, medoid0)
    requires forall id :: Stored(s, id) && Dead(s, id) ==>
               id in s.recs && id in nhoods && nhoods[id] == Sample(LiveNbrs(s, s.recs[id].nbrs), sampled)
    ensures ok <==> MedoidReplaceable(s, sampled, medoid0)
    ensures ok ==> Stored(s, medoid) && !Dead(s, medoid)
    ensures ok ==> if Dead(s, medoid0) then FirstLive(s, s.recs[medoid0].nbrs, medoid) else medoid == medoid0
  {
    hide Stored, LiveNbrs, FirstLive;
    medoid := medoid0;
    while Dead(s, medoid)
      invariant Stored(s, medoid) && (medoid == medoid0 || (!Dead(s, medoid) && Dead(s, medoid0)))
      invariant medoid != medoid0 ==>
                  medoid in s.recs[medoid0].nbrs && sampled > 0 && FirstLive(s, s.recs[medoid0].nbrs, medoid)
      decreases Dead(s, medoid)
    {
      var l := nhoods[medoid];
      ghost var live := LiveNbrs(s, s.recs[medoid].nbrs);
      if l == [] {
        assert sampled == 0 || live == [];
        return false, medoid;
      }
      assert l[0] == live[0];
      assert l[0] in live;
      LiveFirst(s, s.recs[medoid].nbrs);
      StoredNbr(s, medoid, l[0]);
      medoid := l[0];
    }
    ok := true;
  }

  /** Three points, of which 0 and its only neighbour 1 are deleted. */
  function LostMedoid(): Source<int> {
    Source(1, [Holds(0), Holds(1), Holds(2)], map[0 := Record(10, [1]), 1 := Record(11, [2]), 2 := Record(12, [0])],
           id => id, {0, 1})
  }

  /** For this index with entry point 0 the look-up is out of bounds, although a live point is left. */
  lemma MedoidLost(sampled: nat)
    ensures var s := LostMedoid();
            Sound(s) && Stored(s, 0) && LiveLoc(s, 2) && !MedoidReplaceable(s, sampled, 0)
  {
    var s := LostMedoid();
    assert s.slots[0] == Holds(0) && s.slots[1] == Holds(1) && s.slots[2] == Holds(2);
    assert Stored(s, 0) && Stored(s, 1) && Stored(s, 2);
  }

  lemma StoredNbr<V>(s: Source<V>, id: nat, x: nat)
    requires Sound(s) && Stored(s, id) && id in s.recs && x in s.recs[id].nbrs
    ensures Stored(s, x)
  {
    hide Stored;
    var i :| 0 <= i < |s.recs[id].nbrs| && s.recs[id].nbrs[i] == x;
  }

  lemma EdgeSum(nn: nat, a: nat, b: nat)
    ensures Edge(nn, a + b) == Edge(nn, a) + Edge(nn, b)
  {
  }

  lemma StepOfMerge(t: nat)
    requires t % SECTORS_PER_MERGE == 0
    ensures t % SECTORS_PER_POPULATE == 0 && (t + SECTORS_PER_MERGE) % SECTORS_PER_POPULATE == 0
  {
  }

  lemma NumberOf<V>(s: Source<V>, who: seq<nat>, done: set<nat>, idMap: map<nat, nat>, loc: nat)
    requires Sound(s) && Numbered(s, who, done, idMap) && LiveLoc(s, loc) && loc in who
    ensures var id := s.slots[loc].id; id in idMap && idMap[id] < |who| && who[idMap[id]] == loc && id in s.recs
  {
  }

  lemma CutBetween(who: seq<nat>, lo: nat, hi: nat, c: nat, d: nat, v: nat)
    requires CutAt(who, lo, c) && CutAt(who, hi, d) && v < |who| && lo <= who[v] < hi
    ensures c <= v < d
  {
  }

  lemma PassOneFacts<V>(s: Source<V>, sampled: nat, done: set<nat>, who: seq<nat>, idMap: map<nat, nat>,
                        nhoods: map<nat, seq<nat>>, n: nat)
    requires Sound(s) && PassOne(s, sampled, done, who, idMap, nhoods, n)
    ensures s.nn >= 1 && n == |who|
  {
  }

  lemma WholeBuffer(nn: nat, half: nat)
    requires half == SECTORS_PER_MERGE * nn && half > 0
    ensures half == Edge(nn, SECTORS_PER_MERGE) && Aligned(0, half)
  {
  }
}
