/** Building one graph from shards: the points are dealt out to overlapping shards, each shard is indexed on its own,
    and the shard graphs are merged by reading all of them once, front to back. */
module ShardMerge {
  import opened Counting

  // ----- dealing out the points -----

  /** The points among the first n that are assigned to a shard, in order. */
  function Assigned(closest: seq<seq<nat>>, shard: nat, n: nat): (r: seq<nat>)
    requires n <= |closest|
  {
    if n == 0 then []
    else Assigned(closest, shard, n - 1) + if shard in closest[n - 1] then [n - 1] else []
  }

  lemma {:induction false} AssignedIs(closest: seq<seq<nat>>, shard: nat, n: nat)
    requires n <= |closest|
    ensures var r := Assigned(closest, shard, n);
            && Increasing(r) && (forall i :: 0 <= i < |r| ==> r[i] < n)
            && forall p: nat :: p in r <==> p < n && shard in closest[p]
  {
    if n > 0 {
      AssignedIs(closest, shard, n - 1);
      assert Assigned(closest, shard, n - 1) + [n - 1] == Assigned(closest, shard, n) || shard !in closest[n - 1];
    }
  }

  /** The id maps of the shards: points are appended to a buffer per shard, and a full buffer is written out. */
  method DealOut(closest: seq<seq<nat>>, nshards: nat, perBuffer: nat) returns (files: seq<seq<nat>>)
    requires forall p :: 0 <= p < |closest| ==> Distinct(closest[p])
    requires forall p, i :: 0 <= p < |closest| && 0 <= i < |closest[p]| ==> closest[p][i] < nshards
    ensures |files| == nshards && forall s :: 0 <= s < nshards ==> files[s] == Assigned(closest, s, |closest|)
  {
    files := seq(nshards, _ => []);
    var buffers: seq<seq<nat>> := seq(nshards, _ => []);
    for p := 0 to |closest|
      invariant |files| == |buffers| == nshards
      invariant forall s :: 0 <= s < nshards ==> files[s] + buffers[s] == Assigned(closest, s, p)
    {
      files, buffers := DealPoint(closest[p], p, nshards, perBuffer, files, buffers);
    }
    for s := 0 to nshards
      invariant |files| == |buffers| == nshards
      invariant forall t :: 0 <= t < s ==> files[t] == Assigned(closest, t, |closest|)
      invariant forall t :: s <= t < nshards ==> files[t] + buffers[t] == Assigned(closest, t, |closest|)
    {
      files := files[s := files[s] + buffers[s]];
      buffers := buffers[s := []];
    }
  }

  /** One point goes to each of its shards. */
  method DealPoint(shards: seq<nat>, p: nat, nshards: nat, perBuffer: nat, files0: seq<seq<nat>>,
                   buffers0: seq<seq<nat>>)
    returns (files: seq<seq<nat>>, buffers: seq<seq<nat>>)
    requires Distinct(shards) && |files0| == |buffers0| == nshards
    requires forall i :: 0 <= i < |shards| ==> shards[i] < nshards
    ensures |files| == |buffers| == nshards
    ensures forall s :: 0 <= s < nshards ==> files[s] + buffers[s] == files0[s] + buffers0[s] + if s in shards then [p]
              else []
  {
    files, buffers := files0, buffers0;
    for i := 0 to |shards|
      invariant |files| == |buffers| == nshards
      invariant forall s :: 0 <= s < nshards ==>
                  files[s] + buffers[s] == files0[s] + buffers0[s] + if s in shards[..i] then [p] else []
    {
      var s := shards[i];
      assert s !in shards[..i];
      assert shards[..i + 1] == shards[..i] + [s];
      var b := buffers[s] + [p];
      assert files[s] + b == files[s] + buffers[s] + [p];
      if |b| >= perBuffer {
        files := files[s := files[s] + b];
        b := [];
      }
      buffers := buffers[s := b];
    }
    assert shards[..|shards|] == shards;
  }

  /** If every point has a shard, the id maps are increasing and cover all points. */
  lemma DealtOut(closest: seq<seq<nat>>, nshards: nat, p: nat)
    requires p < |closest| && closest[p] != [] && forall i :: 0 <= i < |closest[p]| ==> closest[p][i] < nshards
    ensures Covered(seq(nshards, s requires 0 <= s < nshards => Assigned(closest, s, |closest|)), p)
  {
    var s := closest[p][0];
    AssignedIs(closest, s, |closest|);
    assert s in closest[p];
    assert p in seq(nshards, t requires 0 <= t < nshards => Assigned(closest, t, |closest|))[s];
  }

  // ----- the merge -----

  datatype Pair = Pair(node: nat, shard: nat)

  predicate Less(a: Pair, b: Pair) {
    a.node < b.node || (a.node == b.node && a.shard < b.shard)
  }

  ghost predicate Ascending(s: seq<Pair>) {
    forall i, j :: 0 <= i < j < |s| ==> Less(s[i], s[j])
  }

  /** Insert a new pair into an ascending list. */
  function Place(s: seq<Pair>, x: Pair): (r: seq<Pair>)
    requires Ascending(s) && x !in s
    ensures Ascending(r) && (forall y :: y in r <==> y in s || y == x)
  {
    if s == [] || Less(s[|s| - 1], x) then s + [x]
    else
      var t, y := s[..|s| - 1], s[|s| - 1];
      assert s == t + [y] && y in s && Less(x, y);
      assert forall e :: e in t ==> Less(e, y);
      var r := Place(t, x);
      assert forall i :: 0 <= i < |r| ==> r[i] in r;
      r + [y]
  }

  /** Id maps and graphs of the shards: lists[s][k] is the list of node idmaps[s][k], in the shard's own numbering. */
  ghost predicate ShardsOk(idmaps: seq<seq<nat>>, lists: seq<seq<seq<nat>>>, n: nat) {
    && |lists| == |idmaps| && n > 0
    && (forall s :: 0 <= s < |idmaps| ==> ShardOk(idmaps[s], lists[s], n))
    && (forall j :: 0 <= j < n ==> Covered(idmaps, j))
  }

  ghost predicate Covered(idmaps: seq<seq<nat>>, j: nat) {
    exists s :: 0 <= s < |idmaps| && j in idmaps[s]
  }

  ghost predicate ShardOk(idmap: seq<nat>, lists: seq<seq<nat>>, n: nat) {
    && Increasing(idmap) && |lists| == |idmap| && (forall k :: 0 <= k < |idmap| ==> idmap[k] < n)
    && (forall k, m :: 0 <= k < |lists| && 0 <= m < |lists[k]| ==> lists[k][m] < |idmap|)
  }

  /** The id maps that dealing out writes, with any graphs of the right shape, are what the merge needs, as soon as
      every point has a shard. */
  lemma DealtShardsOk(closest: seq<seq<nat>>, nshards: nat, files: seq<seq<nat>>, lists: seq<seq<seq<nat>>>)
    requires |files| == nshards && forall s :: 0 <= s < nshards ==> files[s] == Assigned(closest, s, |closest|)
    requires closest != [] && forall p :: 0 <= p < |closest| ==> closest[p] != []
    requires forall p, i :: 0 <= p < |closest| && 0 <= i < |closest[p]| ==> closest[p][i] < nshards
    requires |lists| == nshards && forall s :: 0 <= s < nshards ==> |lists[s]| == |files[s]|
    requires forall s, k, m :: 0 <= s < nshards && 0 <= k < |lists[s]| && 0 <= m < |lists[s][k]| ==>
               lists[s][k][m] < |files[s]|
    ensures ShardsOk(files, lists, |closest|)
  {
    hide Assigned;
    forall s | 0 <= s < nshards
      ensures ShardOk(files[s], lists[s], |closest|)
    {
      AssignedIs(closest, s, |closest|);
    }
    forall p | 0 <= p < |closest|
      ensures Covered(files, p)
    {
      DealtOut(closest, nshards, p);
      assert files == seq(nshards, s requires 0 <= s < nshards => Assigned(closest, s, |closest|));
    }
  }

  /** The pairs of node and shard, sorted. */
  ghost predicate InverseMap(idmaps: seq<seq<nat>>, ns: seq<Pair>) {
    && Ascending(ns) && (forall i :: 0 <= i < |ns| ==> ns[i].shard < |idmaps| && ns[i].node in idmaps[ns[i].shard])
    && (forall s, k :: 0 <= s < |idmaps| && 0 <= k < |idmaps[s]| ==> Pair(idmaps[s][k], s) in ns)
  }

  /** The pairs of the first shards, and of the first entries of the next one. */
  ghost predicate Collected(idmaps: seq<seq<nat>>, ns: seq<Pair>, s: nat, k: nat) {
    && Ascending(ns)
    && (forall i :: 0 <= i < |ns| ==> && ns[i].shard < |idmaps| && ns[i].node in idmaps[ns[i].shard]
                                      && (ns[i].shard < s || (ns[i].shard == s && s < |idmaps| && k <= |idmaps[s]|
                                                              && ns[i].node in idmaps[s][..k])))
    && (forall t, j :: 0 <= t < |idmaps| && 0 <= j < |idmaps[t]| && (t < s || (t == s && j < k)) ==>
        Pair(idmaps[t][j], t) in ns)
  }

  lemma NotCollected(idmaps: seq<seq<nat>>, ns: seq<Pair>, s: nat, k: nat)
    requires Collected(idmaps, ns, s, k) && s < |idmaps| && k < |idmaps[s]| && Increasing(idmaps[s])
    ensures Pair(idmaps[s][k], s) !in ns && Ascending(ns)
  {
    hide Ascending;
    forall i | 0 <= i < |ns|
      ensures ns[i] != Pair(idmaps[s][k], s)
    {
      if ns[i].shard == s {
        var j :| 0 <= j < k && idmaps[s][j] == ns[i].node;
      }
    }
  }

  lemma CollectOne(idmaps: seq<seq<nat>>, ns: seq<Pair>, s: nat, k: nat)
    requires Collected(idmaps, ns, s, k) && s < |idmaps| && k < |idmaps[s]| && Increasing(idmaps[s])
    ensures Pair(idmaps[s][k], s) !in ns && Collected(idmaps, Place(ns, Pair(idmaps[s][k], s)), s, k + 1)
  {
    hide Place, Increasing, Ascending;
    var x := Pair(idmaps[s][k], s);
    NotCollected(idmaps, ns, s, k);
    var r := Place(ns, x);
    assert idmaps[s][..k + 1] == idmaps[s][..k] + [idmaps[s][k]];
    forall i | 0 <= i < |r|
      ensures && r[i].shard < |idmaps| && r[i].node in idmaps[r[i].shard]
              && (r[i].shard < s || (r[i].shard == s && r[i].node in idmaps[s][..k + 1]))
    {
      assert r[i] in r;
      if r[i] != x {
        var j :| 0 <= j < |ns| && ns[j] == r[i];
      }
    }
  }

  method InvertMaps(idmaps: seq<seq<nat>>) returns (ns: seq<Pair>)
    requires forall s :: 0 <= s < |idmaps| ==> Increasing(idmaps[s])
    ensures InverseMap(idmaps, ns)
  {
    hide Place, Increasing, Collected;
    ns := [];
    CollectNone(idmaps);
    for s := 0 to |idmaps|
      invariant Collected(idmaps, ns, s, 0)
    {
      for k := 0 to |idmaps[s]|
        invariant Collected(idmaps, ns, s, k)
      {
        CollectOne(idmaps, ns, s, k);
        CollectedAscending(idmaps, ns, s, k);
        ns := Place(ns, Pair(idmaps[s][k], s));
      }
      CollectedShard(idmaps, ns, s);
    }
    CollectedAll(idmaps, ns);
  }

  /** Reading position of each shard after the first i pairs: the next list belongs to the next pair of that shard. */
  ghost predicate Positioned(idmaps: seq<seq<nat>>, ns: seq<Pair>, i: nat, pos: seq<nat>)
    requires i <= |ns|
  {
    && |pos| == |idmaps|
    && forall s, k :: 0 <= s < |idmaps| && 0 <= k < |idmaps[s]| ==> (k < pos[s] <==> Pair(idmaps[s][k], s) in ns[..i])
  }

  /** The sequential read from a shard is the list of the node being merged. */
  lemma ReadsOwnList(idmaps: seq<seq<nat>>, ns: seq<Pair>, i: nat, pos: seq<nat>)
    requires InverseMap(idmaps, ns) && i < |ns| && Positioned(idmaps, ns, i, pos) && Increasing(idmaps[ns[i].shard])
    ensures var s := ns[i].shard; pos[s] < |idmaps[s]| && idmaps[s][pos[s]] == ns[i].node
    ensures Positioned(idmaps, ns, i + 1, pos[ns[i].shard := pos[ns[i].shard] + 1])
  {
    var s := ns[i].shard;
    var k :| 0 <= k < |idmaps[s]| && idmaps[s][k] == ns[i].node;
    assert Pair(idmaps[s][k], s) == ns[i];
    NotBefore(ns, i);
    assert pos[s] <= k;
    if pos[s] < k {
      var x := Pair(idmaps[s][pos[s]], s);
      assert x in ns;
      EarlierIn(ns, i, x);
      assert false;
    }
    assert ns[..i + 1] == ns[..i] + [ns[i]];
  }

  lemma NotBefore(ns: seq<Pair>, i: nat)
    requires Ascending(ns) && i < |ns|
    ensures ns[i] !in ns[..i]
  {
  }

  lemma EarlierIn(ns: seq<Pair>, i: nat, x: Pair)
    requires Ascending(ns) && i < |ns| && x in ns && Less(x, ns[i])
    ensures x in ns[..i]
  {
    var j :| 0 <= j < |ns| && ns[j] == x;
    assert j < i;
    assert ns[..i][j] == x;
  }

  /** The neighbours of a node in any shard. */
  ghost predicate Neighbour(idmaps: seq<seq<nat>>, lists: seq<seq<seq<nat>>>, n: nat, j: nat, y: nat)
    requires ShardsOk(idmaps, lists, n)
  {
    exists s, k :: 0 <= s < |idmaps| && 0 <= k < |idmaps[s]| && idmaps[s][k] == j
      && InList(idmaps[s], lists[s], n, k, y)
  }

  ghost predicate InList(idmap: seq<nat>, lists: seq<seq<nat>>, n: nat, k: nat, y: nat)
    requires ShardOk(idmap, lists, n) && k < |lists|
  {
    exists m :: 0 <= m < |lists[k]| && idmap[lists[k][m]] == y
  }

  /** A merged list: distinct neighbours from the shards, at most maxDegree, and all of them if they fit. */
  ghost predicate MergedList(idmaps: seq<seq<nat>>, lists: seq<seq<seq<nat>>>, n: nat, maxDegree: nat, j: nat,
                             r: seq<nat>)
    requires ShardsOk(idmaps, lists, n)
  {
    && Distinct(r) && |r| <= maxDegree && (forall i :: 0 <= i < |r| ==> Neighbour(idmaps, lists, n, j, r[i]))
    && (|r| < maxDegree ==> forall y :: Neighbour(idmaps, lists, n, j, y) ==> y in r)
  }

  /** Collected so far: the distinct neighbours of `node` in the shards of the first i pairs, marked in a bitmap. */
  ghost predicate Gathered(idmaps: seq<seq<nat>>, lists: seq<seq<seq<nat>>>, n: nat, ns: seq<Pair>, i: nat, node: nat,
                           nhood: seq<nat>, mark: seq<bool>)
    requires ShardsOk(idmaps, lists, n) && i <= |ns|
  {
    && Distinct(nhood) && |mark| == n && (forall y :: 0 <= y < n ==> (mark[y] <==> y in nhood))
    && (forall x :: x in nhood ==> x < n)
    && (forall y :: y in nhood <==> FoundIn(idmaps, lists, n, ns[..i], node, y))
  }

  ghost predicate FoundIn(idmaps: seq<seq<nat>>, lists: seq<seq<seq<nat>>>, n: nat, ns: seq<Pair>, node: nat, y: nat)
    requires ShardsOk(idmaps, lists, n)
  {
    exists s, k :: 0 <= s < |idmaps| && 0 <= k < |idmaps[s]| && idmaps[s][k] == node && Pair(node, s) in ns
                   && InList(idmaps[s], lists[s], n, k, y)
  }

  /** Add the renamed entries of one list that are not marked yet. */
  method AddList(idmap: seq<nat>, lists: seq<seq<nat>>, ghost n: nat, k: nat, nhood0: seq<nat>, mark0: seq<bool>)
    returns (nhood: seq<nat>, mark: seq<bool>)
    requires ShardOk(idmap, lists, n) && k < |lists| && |mark0| == n
    requires Distinct(nhood0) && (forall y :: 0 <= y < n ==> (mark0[y] <==> y in nhood0))
    requires forall x :: x in nhood0 ==> x < n
    ensures Distinct(nhood) && |mark| == n && (forall y :: 0 <= y < n ==> (mark[y] <==> y in nhood))
    ensures (forall x :: x in nhood ==> x < n)
    ensures forall y :: y in nhood <==> y in nhood0 || InList(idmap, lists, n, k, y)
  {
    nhood, mark := nhood0, mark0;
    var list := lists[k];
    for j := 0 to |list|
      invariant Distinct(nhood) && |mark| == n && (forall y :: 0 <= y < n ==> (mark[y] <==> y in nhood))
      invariant (forall x :: x in nhood ==> x < n)
      invariant forall y :: y in nhood <==> y in nhood0 || exists m :: 0 <= m < j && idmap[list[m]] == y
    {
      var y := idmap[list[j]];
      if !mark[y] {
        mark := mark[y := true];
        nhood := nhood + [y];
      }
    }
  }

  lemma GatherStep(idmaps: seq<seq<nat>>, lists: seq<seq<seq<nat>>>, n: nat, ns: seq<Pair>, i: nat, k: nat, y: nat)
    requires ShardsOk(idmaps, lists, n) && i < |ns| && ns[i].shard < |idmaps| && k < |idmaps[ns[i].shard]|
    requires idmaps[ns[i].shard][k] == ns[i].node
    ensures FoundIn(idmaps, lists, n, ns[..i + 1], ns[i].node, y)
            <==> (FoundIn(idmaps, lists, n, ns[..i], ns[i].node, y)
                  || InList(idmaps[ns[i].shard], lists[ns[i].shard], n, k, y))
  {
    hide InList;
    assert ns[..i + 1] == ns[..i] + [ns[i]];
    assert Pair(ns[i].node, ns[i].shard) == ns[i];
    assert ShardOk(idmaps[ns[i].shard], lists[ns[i].shard], n);
    if FoundIn(idmaps, lists, n, ns[..i + 1], ns[i].node, y) && !FoundIn(idmaps, lists, n, ns[..i], ns[i].node, y) {
      var s, m :| 0 <= s < |idmaps| && 0 <= m < |idmaps[s]| && idmaps[s][m] == ns[i].node
        && Pair(ns[i].node, s) in ns[..i + 1]
                  && InList(idmaps[s], lists[s], n, m, y);
      assert s == ns[i].shard && m == k;
    }
  }

  /** Once the list has moved past a node, everything of that node has been gathered. */
  lemma GatherComplete(idmaps: seq<seq<nat>>, lists: seq<seq<seq<nat>>>, n: nat, ns: seq<Pair>, i: nat, node: nat,
                       y: nat)
    requires ShardsOk(idmaps, lists, n) && InverseMap(idmaps, ns) && i <= |ns| && (i < |ns| ==> node < ns[i].node)
    ensures FoundIn(idmaps, lists, n, ns[..i], node, y) <==> Neighbour(idmaps, lists, n, node, y)
  {
    hide InList;
    if Neighbour(idmaps, lists, n, node, y) {
      var s, k :| 0 <= s < |idmaps| && 0 <= k < |idmaps[s]| && idmaps[s][k] == node
        && InList(idmaps[s], lists[s], n, k, y);
      assert Pair(node, s) in ns;
      if i < |ns| {
        EarlierIn(ns, i, Pair(node, s));
      } else {
        assert ns[..i] == ns;
      }
    }
  }

  /** The next node is the successor of the current one, because every node is covered. */
  lemma NextNode(idmaps: seq<seq<nat>>, lists: seq<seq<seq<nat>>>, n: nat, ns: seq<Pair>, i: nat, node: nat)
    requires ShardsOk(idmaps, lists, n) && InverseMap(idmaps, ns) && i < |ns| && node <= ns[i].node
    requires forall p :: 0 <= p < i ==> ns[p].node < node
    ensures ns[i].node == node
  {
    var t := ns[i].shard;
    assert ShardOk(idmaps[t], lists[t], n) && ns[i].node < n;
    assert Covered(idmaps, node);
    var s :| 0 <= s < |idmaps| && node in idmaps[s];
    assert Pair(node, s) in ns;
    var q :| 0 <= q < |ns| && ns[q] == Pair(node, s);
  }

  lemma LastNode(idmaps: seq<seq<nat>>, lists: seq<seq<seq<nat>>>, n: nat, ns: seq<Pair>)
    requires ShardsOk(idmaps, lists, n) && InverseMap(idmaps, ns)
    ensures ns != [] && ns[|ns| - 1].node == n - 1
  {
    assert Covered(idmaps, n - 1);
    var s :| 0 <= s < |idmaps| && n - 1 in idmaps[s];
    assert Pair(n - 1, s) in ns;
    var q :| 0 <= q < |ns| && ns[q] == Pair(n - 1, s);
    var t := ns[|ns| - 1].shard;
    assert ShardOk(idmaps[t], lists[t], n) && ns[|ns| - 1].node < n;
  }

  /** Shuffle, cut to the output width. */
  method CutNhood(nhood: seq<nat>, maxDegree: nat) returns (r: seq<nat>)
    requires Distinct(nhood)
    ensures Distinct(r) && |r| <= maxDegree && (forall i :: 0 <= i < |r| ==> r[i] in nhood)
    ensures |r| < maxDegree ==> forall y :: y in nhood ==> y in r
  {
    var shuffled := Enumerate(set x | x in nhood);
    assert Members(shuffled) == set x | x in nhood;
    forall y
      ensures y in shuffled <==> y in nhood
    {
      assert y in Members(shuffled) <==> y in shuffled;
    }
    r := if |shuffled| > maxDegree then shuffled[..maxDegree] else shuffled;
  }

  /** Bytes of the records: a count and the ids, four bytes each. */
  function Bytes(out: seq<seq<nat>>): (b: nat) {
    if out == [] then 0 else Bytes(out[..|out| - 1]) + 4 + 4 * |out[|out| - 1]|
  }

  /** The state of the merge loop before pair i. */
  ghost predicate Merging(idmaps: seq<seq<nat>>, lists: seq<seq<seq<nat>>>, n: nat, maxDegree: nat, ns: seq<Pair>,
                          i: nat, cur: nat, out: seq<seq<nat>>)
    requires ShardsOk(idmaps, lists, n)
  {
    && i <= |ns| && |out| == cur && (forall j :: 0 <= j < cur ==> MergedList(idmaps, lists, n, maxDegree, j, out[j]))
    && (forall p :: 0 <= p < i ==> ns[p].node <= cur) && (i > 0 ==> ns[i - 1].node == cur) && (i == 0 ==> cur == 0)
  }

  /** The list of the current node is complete: cut it and write it. */
  method Emit(idmaps: seq<seq<nat>>, lists: seq<seq<seq<nat>>>, n: nat, maxDegree: nat, ghost ns: seq<Pair>,
              ghost i: nat, cur: nat, nhood: seq<nat>, ghost mark: seq<bool>)
    returns (r: seq<nat>)
    requires ShardsOk(idmaps, lists, n) && InverseMap(idmaps, ns) && i <= |ns| && (i < |ns| ==> cur < ns[i].node)
    requires Gathered(idmaps, lists, n, ns, i, cur, nhood, mark)
    ensures MergedList(idmaps, lists, n, maxDegree, cur, r)
  {
    hide FoundIn, Neighbour, InverseMap, ShardsOk;
    r := CutNhood(nhood, maxDegree);
    forall y: nat
      ensures y in nhood <==> Neighbour(idmaps, lists, n, cur, y)
    {
      GatherComplete(idmaps, lists, n, ns, i, cur, y);
    }
  }

  /** Nothing of a node is gathered before its first pair. */
  lemma GatherNone(idmaps: seq<seq<nat>>, lists: seq<seq<seq<nat>>>, n: nat, ns: seq<Pair>, i: nat, node: nat)
    requires ShardsOk(idmaps, lists, n) && i <= |ns| && forall p :: 0 <= p < i ==> ns[p].node < node
    ensures Gathered(idmaps, lists, n, ns, i, node, [], seq(n, _ => false))
  {
    forall y
      ensures !FoundIn(idmaps, lists, n, ns[..i], node, y)
    {
    }
  }

  /** Read the next list of a pair's shard and add it to what is gathered. */
  method TakePair(idmaps: seq<seq<nat>>, lists: seq<seq<seq<nat>>>, n: nat, ns: seq<Pair>, i: nat, pos0: seq<nat>,
                  nhood0: seq<nat>, mark0: seq<bool>)
    returns (pos: seq<nat>, nhood: seq<nat>, mark: seq<bool>)
    requires ShardsOk(idmaps, lists, n) && InverseMap(idmaps, ns) && i < |ns| && Positioned(idmaps, ns, i, pos0)
    requires Gathered(idmaps, lists, n, ns, i, ns[i].node, nhood0, mark0)
    ensures Positioned(idmaps, ns, i + 1, pos) && Gathered(idmaps, lists, n, ns, i + 1, ns[i].node, nhood, mark)
  {
    hide InList, FoundIn, Covered;
    var node, shard := ns[i].node, ns[i].shard;
    assert ShardOk(idmaps[shard], lists[shard], n);
    ReadsOwnList(idmaps, ns, i, pos0);
    var k := pos0[shard];
    assert |lists[shard]| == |idmaps[shard]|;
    hide ShardOk, Positioned, InverseMap;
    nhood, mark := AddList(idmaps[shard], lists[shard], n, k, nhood0, mark0);
    forall y: nat
      ensures y in nhood <==> FoundIn(idmaps, lists, n, ns[..i + 1], node, y)
    {
      GatherStep(idmaps, lists, n, ns, i, k, y);
    }
    pos := pos0[shard := k + 1];
  }

  lemma NodeNotBelow(idmaps: seq<seq<nat>>, ns: seq<Pair>, i: nat)
    requires InverseMap(idmaps, ns) && 0 < i < |ns|
    ensures ns[i - 1].node <= ns[i].node
  {
    assert Less(ns[i - 1], ns[i]);
  }

  /** The number of nodes is found as the largest id plus one. */
  method CountNodes(idmaps: seq<seq<nat>>, ghost lists: seq<seq<seq<nat>>>, ghost n: nat) returns (nnodes: nat)
    requires ShardsOk(idmaps, lists, n)
    ensures nnodes == n
  {
    nnodes := 0;
    for s := 0 to |idmaps|
      invariant nnodes < n && forall t, k :: 0 <= t < s && 0 <= k < |idmaps[t]| ==> idmaps[t][k] <= nnodes
    {
      assert ShardOk(idmaps[s], lists[s], n);
      for i := 0 to |idmaps[s]|
        invariant nnodes < n && forall k :: 0 <= k < i ==> idmaps[s][k] <= nnodes
        invariant forall t, k :: 0 <= t < s && 0 <= k < |idmaps[t]| ==> idmaps[t][k] <= nnodes
      {
        nnodes := if idmaps[s][i] > nnodes then idmaps[s][i] else nnodes;
      }
    }
    assert Covered(idmaps, n - 1);
    nnodes := nnodes + 1;
  }

  /** The entry points of the shards under their names in the whole graph; the last one becomes the entry point of
      it. */
  method RenameMedoids(idmaps: seq<seq<nat>>, medoids: seq<nat>) returns (renamed: seq<nat>, entry: nat)
    requires |medoids| == |idmaps| > 0 && forall s :: 0 <= s < |idmaps| ==> medoids[s] < |idmaps[s]|
    ensures |renamed| == |idmaps| && forall s :: 0 <= s < |idmaps| ==> renamed[s] == idmaps[s][medoids[s]]
    ensures entry == renamed[|renamed| - 1]
  {
    renamed, entry := [], 0;
    for s := 0 to |idmaps|
      invariant |renamed| == s && forall t :: 0 <= t < s ==> renamed[t] == idmaps[t][medoids[t]]
      invariant s == |idmaps| ==> entry == renamed[s - 1]
    {
      var medoid := idmaps[s][medoids[s]];
      renamed := renamed + [medoid];
      if s == |idmaps| - 1 {
        entry := medoid;
      }
    }
  }

  /** merge_shards: record j of the output is the merged list of node j, the size written to the header is the size of
      the file, and the entry points are nodes of the graph. */
  method MergeShards(idmaps: seq<seq<nat>>, lists: seq<seq<seq<nat>>>, medoids: seq<nat>, maxDegree: nat, ghost n: nat)
    returns (out: seq<seq<nat>>, size: nat, renamed: seq<nat>, entry: nat)
    requires ShardsOk(idmaps, lists, n)
    requires |medoids| == |idmaps| && forall s :: 0 <= s < |idmaps| ==> medoids[s] < |idmaps[s]|
    ensures |out| == n && forall j :: 0 <= j < n ==> MergedList(idmaps, lists, n, maxDegree, j, out[j])
    ensures size == 24 + Bytes(out)
    ensures |renamed| == |idmaps| > 0 && forall s :: 0 <= s < |idmaps| ==> renamed[s] == idmaps[s][medoids[s]] < n
    ensures entry == renamed[|renamed| - 1]
  {
    hide MergedList, ShardsOk, Bytes, Increasing;
    var nnodes := CountNodes(idmaps, lists, n);
    MedoidsBelow(idmaps, lists, medoids, n);
    renamed, entry := RenameMedoids(idmaps, medoids);
    out, size := MergeLists(idmaps, lists, nnodes, maxDegree);
  }

  lemma MedoidsBelow(idmaps: seq<seq<nat>>, lists: seq<seq<seq<nat>>>, medoids: seq<nat>, n: nat)
    requires ShardsOk(idmaps, lists, n)
    requires |medoids| == |idmaps| && forall s :: 0 <= s < |idmaps| ==> medoids[s] < |idmaps[s]|
    ensures |idmaps| > 0 && forall s :: 0 <= s < |idmaps| ==> idmaps[s][medoids[s]] < n
  {
    assert Covered(idmaps, 0);
    forall s | 0 <= s < |idmaps|
      ensures idmaps[s][medoids[s]] < n
    {
      assert ShardOk(idmaps[s], lists[s], n);
    }
  }

  /** The loop over the pairs of node and shard. */
  method MergeLists(idmaps: seq<seq<nat>>, lists: seq<seq<seq<nat>>>, n: nat, maxDegree: nat)
    returns (out: seq<seq<nat>>, size: nat)
    requires ShardsOk(idmaps, lists, n)
    ensures |out| == n && forall j :: 0 <= j < n ==> MergedList(idmaps, lists, n, maxDegree, j, out[j])
    ensures size == 24 + Bytes(out)
  {
    hide MergedList, Gathered, Positioned, InverseMap, ShardsOk, Increasing, Bytes, Merging;
    MapsIncrease(idmaps, lists, n);
    var ns := InvertMaps(idmaps);
    out, size := [], 24;
    var pos: seq<nat> := seq(|idmaps|, _ => 0);
    var cur: nat, nhood, mark := 0, [], seq(n, _ => false);
    PositionedStart(idmaps, ns, pos);
    GatherNone(idmaps, lists, n, ns, 0, 0);
    MergingStart(idmaps, lists, n, maxDegree, ns);
    for i := 0 to |ns|
      invariant Merging(idmaps, lists, n, maxDegree, ns, i, cur, out) && size == 24 + Bytes(out)
      invariant Positioned(idmaps, ns, i, pos) && Gathered(idmaps, lists, n, ns, i, cur, nhood, mark)
    {
      MergingStep(idmaps, lists, n, maxDegree, ns, i, cur, out);
      if cur < ns[i].node {
        var r := Emit(idmaps, lists, n, maxDegree, ns, i, cur, nhood, mark);
        MergingEmit(idmaps, lists, n, maxDegree, ns, i, cur, out, r);
        out, size := out + [r], size + 4 + 4 * |r|;
        cur, nhood, mark := ns[i].node, [], seq(n, _ => false);
        GatherNone(idmaps, lists, n, ns, i, cur);
      }
      pos, nhood, mark := TakePair(idmaps, lists, n, ns, i, pos, nhood, mark);
    }
    LastNode(idmaps, lists, n, ns);
    var r := Emit(idmaps, lists, n, maxDegree, ns, |ns|, cur, nhood, mark);
    BytesSnoc(out, r);
    MergingDone(idmaps, lists, n, maxDegree, ns, cur, out, r);
    out, size := out + [r], size + 4 + 4 * |r|;
  }

  /** A record takes four bytes for its count and four for each id. */
  lemma {:induction false} BytesJoin(a: seq<seq<nat>>, b: seq<seq<nat>>)
    ensures Bytes(a + b) == Bytes(a) + Bytes(b) && (|b| == 1 ==> Bytes(b) == 4 * (1 + |b[0]|))
  {
    if b == [] {
      assert a + b == a;
    } else {
      var n := |b| - 1;
      BytesJoin(a, b[..n]);
      assert (a + b)[..|a + b| - 1] == a + b[..n];
      assert |b| == 1 ==> b[..n] == [];
    }
  }

  lemma BytesSnoc(out: seq<seq<nat>>, r: seq<nat>)
    ensures Bytes(out + [r]) == Bytes(out) + 4 + 4 * |r|
  {
    assert (out + [r])[..|out|] == out;
  }

  /** A pair of the same node leaves the records as they are. */
  lemma MergingStep(idmaps: seq<seq<nat>>, lists: seq<seq<seq<nat>>>, n: nat, maxDegree: nat, ns: seq<Pair>, i: nat,
                    cur: nat, out: seq<seq<nat>>)
    requires ShardsOk(idmaps, lists, n) && InverseMap(idmaps, ns) && i < |ns|
    requires Merging(idmaps, lists, n, maxDegree, ns, i, cur, out)
    ensures cur <= ns[i].node && (cur == ns[i].node ==> Merging(idmaps, lists, n, maxDegree, ns, i + 1, cur, out))
  {
    hide MergedList, ShardsOk;
    if i > 0 {
      NodeNotBelow(idmaps, ns, i);
    }
  }

  /** A pair of the next node completes the record of the current one. */
  lemma MergingEmit(idmaps: seq<seq<nat>>, lists: seq<seq<seq<nat>>>, n: nat, maxDegree: nat, ns: seq<Pair>, i: nat,
                    cur: nat, out: seq<seq<nat>>, r: seq<nat>)
    requires ShardsOk(idmaps, lists, n) && InverseMap(idmaps, ns) && i < |ns| && cur < ns[i].node
    requires Merging(idmaps, lists, n, maxDegree, ns, i, cur, out) && MergedList(idmaps, lists, n, maxDegree, cur, r)
    ensures Merging(idmaps, lists, n, maxDegree, ns, i + 1, ns[i].node, out + [r])
    ensures Bytes(out + [r]) == Bytes(out) + 4 + 4 * |r|
    ensures forall p :: 0 <= p < i ==> ns[p].node < ns[i].node
  {
    hide MergedList, ShardsOk, InverseMap, Bytes;
    NextNode(idmaps, lists, n, ns, i, cur + 1);
    BytesSnoc(out, r);
  }

  lemma CollectNone(idmaps: seq<seq<nat>>)
    ensures Collected(idmaps, [], 0, 0)
  {
  }

  lemma CollectedAscending(idmaps: seq<seq<nat>>, ns: seq<Pair>, s: nat, k: nat)
    requires Collected(idmaps, ns, s, k)
    ensures Ascending(ns)
  {
  }

  lemma CollectedShard(idmaps: seq<seq<nat>>, ns: seq<Pair>, s: nat)
    requires s < |idmaps| && Collected(idmaps, ns, s, |idmaps[s]|)
    ensures Collected(idmaps, ns, s + 1, 0)
  {
  }

  lemma CollectedAll(idmaps: seq<seq<nat>>, ns: seq<Pair>)
    requires Collected(idmaps, ns, |idmaps|, 0)
    ensures InverseMap(idmaps, ns)
  {
  }

  lemma MapsIncrease(idmaps: seq<seq<nat>>, lists: seq<seq<seq<nat>>>, n: nat)
    requires ShardsOk(idmaps, lists, n)
    ensures forall s :: 0 <= s < |idmaps| ==> Increasing(idmaps[s])
  {
  }

  lemma PositionedStart(idmaps: seq<seq<nat>>, ns: seq<Pair>, pos: seq<nat>)
    requires |pos| == |idmaps| && forall s :: 0 <= s < |pos| ==> pos[s] == 0
    ensures Positioned(idmaps, ns, 0, pos)
  {
  }

  lemma MergingStart(idmaps: seq<seq<nat>>, lists: seq<seq<seq<nat>>>, n: nat, maxDegree: nat, ns: seq<Pair>)
    requires ShardsOk(idmaps, lists, n)
    ensures Merging(idmaps, lists, n, maxDegree, ns, 0, 0, []) && Bytes([]) == 0
  {
  }

  lemma MergingDone(idmaps: seq<seq<nat>>, lists: seq<seq<seq<nat>>>, n: nat, maxDegree: nat, ns: seq<Pair>, cur: nat,
                    out: seq<seq<nat>>, r: seq<nat>)
    requires ShardsOk(idmaps, lists, n) && ns != [] && ns[|ns| - 1].node == n - 1
    requires Merging(idmaps, lists, n, maxDegree, ns, |ns|, cur, out) && MergedList(idmaps, lists, n, maxDegree, cur, r)
    ensures |out + [r]| == n && forall j :: 0 <= j < n ==> MergedList(idmaps, lists, n, maxDegree, j, (out + [r])[j])
  {
    hide MergedList;
  }
}
