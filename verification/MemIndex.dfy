/** The life of the in-memory index: points are added, deleted lazily, and consolidated. Between calls the index is
    compact: locations 0 .. nd - 1 are in use, the frozen start point sits at location `max`. */
module MemIndexModel {
  import opened Counting
  import opened Pruning
  import opened Compaction
  import opened MemLinks

  ghost predicate TagsInverse(locToTag: map<nat, nat>, tagToLoc: map<nat, nat>) {
    && (forall l :: l in locToTag ==> locToTag[l] in tagToLoc && tagToLoc[locToTag[l]] == l)
    && (forall t :: t in tagToLoc ==> tagToLoc[t] in locToTag && locToTag[tagToLoc[t]] == t)
  }

  /** Lists of used locations lead to used locations or to the frozen point; lists of free locations are empty. */
  ghost predicate EdgesOk(graph: seq<seq<nat>>, nd: nat, max: nat) {
    && |graph| == max + 1
    && (forall i, k :: 0 <= i <= max && 0 <= k < |graph[i]| ==> graph[i][k] < nd || graph[i][k] == max)
    && (forall i :: nd <= i < max ==> graph[i] == [])
  }

  /** `after` is `before` with the deleted points dropped: the same tags, each with its coordinates and its consolidated
      list, at locations 0 .. n - 1 in the old order. */
  ghost predicate Isomorphic<V>(max: nat, tagToLoc: map<nat, nat>, h: seq<seq<nat>>, data: seq<V>,
                                tagToLoc': map<nat, nat>, graph': seq<seq<nat>>, data': seq<V>)
    requires |h| == |data| == |graph'| == |data'| == max + 1
  {
    var live := tagToLoc.Values;
    && tagToLoc'.Keys == tagToLoc.Keys
    && (forall t :: t in tagToLoc ==>
          && tagToLoc[t] <= max && tagToLoc'[t] == Rank(live, tagToLoc[t])
          && data'[tagToLoc'[t]] == data[tagToLoc[t]] && graph'[tagToLoc'[t]] == Renumbered(live, max, h[tagToLoc[t]]))
    && data'[max] == data[max] && graph'[max] == Renumbered(live, max, h[max])
  }

  /** Rebuild both tag maps for the new locations. */
  method RebuildTags(locToTag: map<nat, nat>, newLoc: seq<nat>) returns (tagToLoc: map<nat, nat>)
    requires forall l :: l in locToTag ==> l < |newLoc|
    requires forall l, k :: l in locToTag && k in locToTag && locToTag[l] == locToTag[k] ==> l == k
    ensures tagToLoc.Keys == locToTag.Values
    ensures forall l :: l in locToTag ==> tagToLoc[locToTag[l]] == newLoc[l]
  {
    tagToLoc := map[];
    var left := locToTag.Keys;
    while left != {}
      invariant left <= locToTag.Keys
      invariant forall t :: t in tagToLoc ==> t in locToTag.Values
      invariant forall l :: l in locToTag && l !in left ==>
                  locToTag[l] in tagToLoc && tagToLoc[locToTag[l]] == newLoc[l]
    {
      var l :| l in left;
      tagToLoc := tagToLoc[locToTag[l] := newLoc[l]];
      left := left - {l};
    }
  }

  method InvertTags(tagToLoc: map<nat, nat>) returns (locToTag: map<nat, nat>)
    requires forall s, t :: s in tagToLoc && t in tagToLoc && tagToLoc[s] == tagToLoc[t] ==> s == t
    ensures TagsInverse(locToTag, tagToLoc)
  {
    locToTag := map[];
    var left := tagToLoc.Keys;
    while left != {}
      invariant left <= tagToLoc.Keys
      invariant forall l :: l in locToTag ==>
                  locToTag[l] in tagToLoc && locToTag[l] !in left && tagToLoc[locToTag[l]] == l
      invariant forall t :: t in tagToLoc && t !in left ==> tagToLoc[t] in locToTag && locToTag[tagToLoc[t]] == t
    {
      var t :| t in left;
      locToTag := locToTag[tagToLoc[t] := t];
      left := left - {t};
    }
  }

  // ----- the start node -----

  /** x is the first entry of the list that is deleted. */
  ghost predicate FirstGone(list: seq<nat>, del: set<nat>, x: nat) {
    exists k :: 0 <= k < |list| && list[k] == x && x in del && forall j :: 0 <= j < k ==> list[j] !in del
  }

  /** The first entry of a list that is deleted, or else the start itself. */
  function FirstDeleted(ep: nat, list: seq<nat>, del: set<nat>): (r: nat)
    ensures r == ep || (r in list && r in del)
  {
    if list == [] then ep
    else if list[0] in del then list[0]
    else FirstDeleted(ep, list[1..], del)
  }

  lemma {:induction false} FirstDeletedIs(ep: nat, list: seq<nat>, del: set<nat>)
    ensures var r := FirstDeleted(ep, list, del);
            if AnyDeleted(list, del) then FirstGone(list, del, r) else r == ep
  {
    if list != [] {
      var t := list[1..];
      if AnyDeleted(t, del) {
        var i :| 0 <= i < |t| && t[i] in del;
        assert list[i + 1] in del;
      }
      if list[0] in del {
        assert FirstGone(list, del, list[0]);
      } else {
        FirstDeletedIs(ep, t, del);
        if AnyDeleted(list, del) {
          var i :| 0 <= i < |list| && list[i] in del;
          assert t[i - 1] in del;
          var r := FirstDeleted(ep, t, del);
          var k :| 0 <= k < |t| && t[k] == r && r in del && forall j :: 0 <= j < k ==> t[j] !in del;
          assert list[k + 1] == r && forall j :: 0 <= j < k + 1 ==> j == 0 || list[j] == t[j - 1];
        }
      }
    }
  }

  /** The start is not deleted, or a deleted neighbour is found to take its place. */
  ghost predicate StartReplaceable(ep: nat, list: seq<nat>, del: set<nat>) {
    ep !in del || exists x :: x != ep && FirstGone(list, del, x)
  }

  lemma FirstGoneUnique(list: seq<nat>, del: set<nat>, x: nat, y: nat)
    requires FirstGone(list, del, x) && FirstGone(list, del, y)
    ensures x == y
  {
    var i :| 0 <= i < |list| && list[i] == x && x in del && forall j :: 0 <= j < i ==> list[j] !in del;
    var k :| 0 <= k < |list| && list[k] == y && y in del && forall j :: 0 <= j < k ==> list[j] !in del;
  }

  lemma ReplaceableIs(ep: nat, list: seq<nat>, del: set<nat>)
    ensures StartReplaceable(ep, list, del) <==> ep !in del || FirstDeleted(ep, list, del) != ep
    ensures StartReplaceable(ep, list, del) ==>
              if ep in del then FirstGone(list, del, NewStart(ep, list, del)) else NewStart(ep, list, del) == ep
  {
    hide FirstDeleted;
    FirstDeletedIs(ep, list, del);
    var r := FirstDeleted(ep, list, del);
    if ep in del && StartReplaceable(ep, list, del) {
      var x :| x != ep && FirstGone(list, del, x);
      var i :| 0 <= i < |list| && list[i] == x && x in del;
      assert AnyDeleted(list, del);
      FirstGoneUnique(list, del, x, r);
    }
    if r != ep {
      assert FirstGone(list, del, r);
    }
  }

  /** The start after a compaction: a deleted one is replaced, and the number is kept although points move. */
  function NewStart(ep: nat, list: seq<nat>, del: set<nat>): nat {
    if ep in del then FirstDeleted(ep, list, del) else ep
  }

  /** The replacement of a deleted start node looks for an active neighbour but tests for a deleted one. */
  method ReplaceStart(ep: nat, list: seq<nat>, del: set<nat>) returns (ok: bool, start: nat)
    ensures start == NewStart(ep, list, del) && (ok <==> ep !in del || start != ep)
  {
    start := ep;
    if ep !in del {
      return true, ep;
    }
    var k := 0;
    while k < |list| && list[k] !in del
      invariant k <= |list| && FirstDeleted(ep, list, del) == FirstDeleted(ep, list[k..], del)
    {
      assert list[k..][1..] == list[k + 1..];
      k := k + 1;
    }
    if k < |list| {
      start := list[k];
    }
    ok := start != ep;
  }

  /** After a compaction the start is the node it was before: the frozen point, or the point with the same tag. */
  ghost predicate StartKept(max: nat, ep: nat, locToTag: map<nat, nat>, ep': nat, locToTag': map<nat, nat>) {
    || (ep == max && ep' == max)
    || (ep in locToTag && ep' in locToTag' && locToTag'[ep'] == locToTag[ep])
  }

  /** The start is the frozen point, or a live point with none of the locations before it deleted. */
  ghost predicate StartSafe(max: nat, ep: nat, live: set<nat>) {
    ep == max || (ep in live && forall y: nat :: y < ep ==> y in live)
  }

  lemma {:induction false} RankAll(live: set<nat>, x: nat)
    ensures Rank(live, x) == x <==> forall y: nat :: y < x ==> y in live
  {
    if x > 0 {
      RankAll(live, x - 1);
    }
  }

  /** Compaction keeps the start node if and only if it was safe. */
  lemma StartKeptExactly(max: nat, ep: nat, list: seq<nat>, del: set<nat>, locToTag: map<nat, nat>,
                         tagToLoc: map<nat, nat>, locToTag': map<nat, nat>, tagToLoc': map<nat, nat>)
    requires TagsInverse(locToTag, tagToLoc) && TagsInverse(locToTag', tagToLoc') && tagToLoc'.Keys == tagToLoc.Keys
    requires forall t :: t in tagToLoc ==> tagToLoc'[t] == Rank(tagToLoc.Values, tagToLoc[t])
    requires Apart(locToTag.Keys, del, max) && max !in locToTag
    ensures StartKept(max, ep, locToTag, NewStart(ep, list, del), locToTag') <==> StartSafe(max, ep, locToTag.Keys)
  {
    assert tagToLoc.Values == locToTag.Keys;
    RankAll(locToTag.Keys, ep);
    hide Rank;
    if ep in locToTag {
      var t := locToTag[ep];
      assert tagToLoc'[t] == Rank(locToTag.Keys, ep);
    }
  }

  lemma StillLive(live: set<nat>, nd: nat, max: nat, x: nat)
    requires live == Range(0, nd) && x <= nd
    ensures Rank(live, x) == x
  {
    if x > 0 {
      StillLive(live, nd, max, x - 1);
    }
  }

  /** Renumbering a list of survivors gives locations below the number of survivors. */
  lemma RenumberedBelow(live: set<nat>, max: nat, list: seq<nat>)
    requires ListSurvives(list, live, max) && max !in live && forall x :: x in live ==> x < max
    ensures forall k :: 0 <= k < |list| ==> var y := Renumbered(live, max, list)[k]; y < Rank(live, max) || y == max
  {
    forall k | 0 <= k < |list|
      ensures var y := Renumbered(live, max, list)[k]; y < Rank(live, max) || y == max
    {
      if list[k] in live {
        RankGrows(live, list[k], max);
      }
    }
  }

  /** Locations below nd hold a live or a deleted point, the others are empty. */
  ghost predicate Partition(live: set<nat>, del: set<nat>, empty: set<nat>, nd: nat, max: nat) {
    live + del == Range(0, nd) && live !! del && empty == Range(nd, max)
  }

  lemma PartitionFacts(live: set<nat>, del: set<nat>, empty: set<nat>, nd: nat, max: nat)
    requires Partition(live, del, empty, nd, max)
    ensures live !! del && forall d :: d in del ==> d < nd
  {
    forall d | d in del
      ensures d < nd
    {
      assert d in Range(0, nd);
    }
  }

  lemma PartitionAdd(live: set<nat>, del: set<nat>, empty: set<nat>, nd: nat, max: nat)
    requires Partition(live, del, empty, nd, max) && nd < max
    ensures nd !in live && Partition(live + {nd}, del, empty - {nd}, nd + 1, max)
  {
    assert Range(0, nd + 1) == Range(0, nd) + {nd};
    assert Range(nd, max) == {nd} + Range(nd + 1, max);
  }

  lemma PartitionDelete(live: set<nat>, del: set<nat>, empty: set<nat>, nd: nat, max: nat, l: nat)
    requires Partition(live, del, empty, nd, max) && l in live
    ensures Partition(live - {l}, del + {l}, empty, nd, max)
  {
    assert live - {l} + (del + {l}) == live + del;
  }

  lemma TagsAdd(locToTag: map<nat, nat>, tagToLoc: map<nat, nat>, l: nat, t: nat)
    requires TagsInverse(locToTag, tagToLoc) && l !in locToTag && t !in tagToLoc
    ensures TagsInverse(locToTag[l := t], tagToLoc[t := l]) && locToTag[l := t].Keys == locToTag.Keys + {l}
  {
  }

  lemma TagsRemove(locToTag: map<nat, nat>, tagToLoc: map<nat, nat>, t: nat)
    requires TagsInverse(locToTag, tagToLoc) && t in tagToLoc
    ensures tagToLoc[t] in locToTag
    ensures TagsInverse(locToTag - {tagToLoc[t]}, tagToLoc - {t})
    ensures (locToTag - {tagToLoc[t]}).Keys == locToTag.Keys - {tagToLoc[t]}
  {
  }

  lemma EdgesUse(graph: seq<seq<nat>>, nd: nat, max: nat)
    requires EdgesOk(graph, nd, max) && nd <= max
    ensures forall i, k :: 0 <= i < |graph| && 0 <= k < |graph[i]| ==> graph[i][k] < |graph|
  {
  }

  /** Deleted locations are ordinary ones, and not live. */
  ghost predicate Apart(live: set<nat>, del: set<nat>, max: nat) {
    live !! del && forall d :: d in del ==> d < max
  }

  lemma EdgesAdd(graph: seq<seq<nat>>, nd: nat, max: nat, list: seq<nat>)
    requires EdgesOk(graph, nd, max) && nd < max && forall k :: 0 <= k < |list| ==> list[k] < nd || list[k] == max
    ensures EdgesOk(graph[nd := list], nd + 1, max)
  {
  }

  /** Lists of surviving points lead to surviving points. */
  ghost predicate Surviving(graph: seq<seq<nat>>, live: set<nat>, max: nat) {
    && |graph| == max + 1 && (forall x :: x in live ==> x < max)
    && (forall i, k :: 0 <= i <= max && 0 <= k < |graph[i]| ==> graph[i][k] <= max)
    && (forall i :: 0 <= i <= max && (i in live || i == max) ==> ListSurvives(graph[i], live, max))
  }

  lemma ConsolidatedSurvives(g: seq<seq<nat>>, live: set<nat>, del: set<nat>, empty: set<nat>, nd: nat, max: nat,
                             ps: Settings, h: seq<seq<nat>>)
    requires EdgesOk(g, nd, max) && nd <= max && Partition(live, del, empty, nd, max)
    requires Consolidated(g, del, del + empty, ps, h)
    ensures Surviving(h, live, max)
  {
    var ok := Range(0, nd) + {max};
    forall i | 0 <= i <= max && (i in live || i == max)
      ensures ListSurvives(h[i], live, max)
    {
      forall k | 0 <= k < |h[i]|
        ensures h[i][k] in live || h[i][k] == max
      {
        hide NewList;
        NoEdgeToDeleted(g, del, del + empty, ps, h, ok, i, k);
      }
    }
    forall i, k | 0 <= i <= max && 0 <= k < |h[i]|
      ensures h[i][k] <= max
    {
      hide NewList, ListSurvives;
      if i !in del + empty {
        NoEdgeToDeleted(g, del, del + empty, ps, h, ok, i, k);
      }
    }
  }

  lemma AfterConsolidation(g: seq<seq<nat>>, live: set<nat>, del: set<nat>, empty: set<nat>, nd: nat, max: nat,
                           ps: Settings, h: seq<seq<nat>>)
    requires EdgesOk(g, nd, max) && nd <= max && Partition(live, del, empty, nd, max)
    requires Consolidated(g, del, del + empty, ps, h)
    ensures Surviving(h, live, max) && Apart(live, del, max) && |del| <= nd && nd - |del| == Rank(live, max)
    ensures del == {} ==> h == g
  {
    ConsolidatedSurvives(g, live, del, empty, nd, max, ps, h);
    hide Rank, EdgesOk, Surviving;
    LiveCount(live, del, empty, nd, max);
    PartitionFacts(live, del, empty, nd, max);
    if del == {} {
      NothingDeleted(g, empty, ps, h, nd, max);
    }
  }

  lemma LiveCount(live: set<nat>, del: set<nat>, empty: set<nat>, nd: nat, max: nat)
    requires Partition(live, del, empty, nd, max) && nd <= max
    ensures |live| == nd - |del| && Rank(live, max) == |live|
  {
    RangeCard(0, nd);
    assert |live + del| == |live| + |del|;
    RankCard(live, max);
    assert (set x | x in live && x < max) == live by {
      forall x | x in live
        ensures x < max
      {
        assert x in Range(0, nd);
      }
    }
  }

  /** Moving every survivor, and the tags with it, is an isomorphism. */
  lemma MovedIsomorphic<V>(max: nat, locToTag: map<nat, nat>, tagToLoc: map<nat, nat>, h: seq<seq<nat>>, data: seq<V>,
                           g: seq<seq<nat>>, d: seq<V>, tagToLoc': map<nat, nat>)
    requires TagsInverse(locToTag, tagToLoc) && |g| == |h| == |d| == |data| == max + 1
    requires forall l :: l in locToTag ==> l < max
    requires Moved(h, data, locToTag.Keys, max, max, g[max := h[max]], d)
    requires g[max] == Renumbered(locToTag.Keys, max, h[max])
    requires tagToLoc'.Keys == locToTag.Values
    requires forall l :: l in locToTag ==> tagToLoc'[locToTag[l]] == NewLoc(locToTag.Keys, max, l)
    ensures Isomorphic(max, tagToLoc, h, data, tagToLoc', g, d)
  {
    var live := locToTag.Keys;
    assert tagToLoc.Values == live;
    assert tagToLoc.Keys == locToTag.Values;
    forall t | t in tagToLoc
      ensures && tagToLoc[t] <= max && tagToLoc'[t] == Rank(live, tagToLoc[t])
              && d[tagToLoc'[t]] == data[tagToLoc[t]] && g[tagToLoc'[t]] == Renumbered(live, max, h[tagToLoc[t]])
    {
      hide Renumbered, Rank;
      assert tagToLoc[t] in live;
    }
  }

  /** The compacted graph uses exactly the locations below the number of survivors. */
  lemma MovedEdges<V>(max: nat, live: set<nat>, h: seq<seq<nat>>, data: seq<V>, g: seq<seq<nat>>, d: seq<V>)
    requires Surviving(h, live, max) && |g| == |d| == |data| == max + 1
    requires Moved(h, data, live, max, max, g[max := h[max]], d) && g[max] == Renumbered(live, max, h[max])
    ensures EdgesOk(g, Rank(live, max), max)
  {
    var n := Rank(live, max);
    forall y | n <= y < max
      ensures g[y] == []
    {
      assert g[max := h[max]][y] == [];
    }
    forall y | 0 <= y < n || y == max
      ensures forall k :: 0 <= k < |g[y]| ==> g[y][k] < n || g[y][k] == max
    {
      var x := max;
      if y < n {
        x := RankOnto(live, max, y);
      }
      hide Rank, Renumbered;
      assert g[max := h[max]][y] == if y < n then Renumbered(live, max, h[x]) else h[max];
      RenumberedBelow(live, max, h[x]);
    }
  }

  ghost predicate TagsMoved(max: nat, locToTag: map<nat, nat>, tagToLoc': map<nat, nat>) {
    && tagToLoc'.Keys == locToTag.Values
    && (forall l :: l in locToTag ==> l < max && tagToLoc'[locToTag[l]] == Rank(locToTag.Keys, l))
  }

  /** The new locations of the tags are distinct. */
  lemma NewTagLocsDistinct(max: nat, locToTag: map<nat, nat>, tagToLoc': map<nat, nat>)
    requires TagsMoved(max, locToTag, tagToLoc')
    ensures forall s, t :: s in tagToLoc' && t in tagToLoc' && tagToLoc'[s] == tagToLoc'[t] ==> s == t
  {
    hide Rank;
    forall s, t | s in tagToLoc' && t in tagToLoc' && tagToLoc'[s] == tagToLoc'[t]
      ensures s == t
    {
      var a :| a in locToTag && locToTag[a] == s;
      var b :| b in locToTag && locToTag[b] == t;
      if a < b {
        RankGrows(locToTag.Keys, a, b);
      } else {
        RankGrows(locToTag.Keys, b, a);
      }
    }
  }

  /** The new locations of the tags are 0 .. n - 1. */
  lemma NewTagLocs(max: nat, locToTag: map<nat, nat>, tagToLoc': map<nat, nat>)
    requires TagsMoved(max, locToTag, tagToLoc')
    ensures tagToLoc'.Values == Range(0, Rank(locToTag.Keys, max))
  {
    hide Rank, Range;
    var live := locToTag.Keys;
    forall r: nat | r < Rank(live, max)
      ensures r in tagToLoc'.Values
    {
      var x := RankOnto(live, max, r);
      assert tagToLoc'[locToTag[x]] == r;
    }
    forall r | r in tagToLoc'.Values
      ensures r < Rank(live, max)
    {
      var t :| t in tagToLoc' && tagToLoc'[t] == r;
      var a :| a in locToTag && locToTag[a] == t;
      RankGrows(live, a, max);
    }
  }

  /** The edges follow the points: an edge to a point with some tag becomes one to the new location of that tag, and an
      edge to the frozen point stays one. */
  lemma EdgesFollow<V>(max: nat, locToTag: map<nat, nat>, tagToLoc: map<nat, nat>, h: seq<seq<nat>>, data: seq<V>,
                       tagToLoc': map<nat, nat>, g: seq<seq<nat>>, d: seq<V>, t: nat, k: nat)
    requires |h| == |data| == |g| == |d| == max + 1 && TagsInverse(locToTag, tagToLoc) && max !in locToTag
    requires Isomorphic(max, tagToLoc, h, data, tagToLoc', g, d) && t in tagToLoc
    ensures tagToLoc[t] <= max && t in tagToLoc' && tagToLoc'[t] <= max
    ensures |g[tagToLoc'[t]]| == |h[tagToLoc[t]]|
    ensures k < |h[tagToLoc[t]]| ==>
              var x, y := h[tagToLoc[t]][k], g[tagToLoc'[t]][k];
              && (x in locToTag ==> locToTag[x] in tagToLoc' && y == tagToLoc'[locToTag[x]])
              && (x == max ==> y == max)
  {
    hide Rank;
    assert tagToLoc.Values == locToTag.Keys;
    var x := tagToLoc[t];
    if k < |h[x]| && h[x][k] in locToTag {
      var u := locToTag[h[x][k]];
      assert tagToLoc[u] == h[x][k];
    }
  }

  /** With nothing deleted, staying in place is an isomorphism. */
  lemma StayIsomorphic<V>(max: nat, nd: nat, locToTag: map<nat, nat>, tagToLoc: map<nat, nat>, h: seq<seq<nat>>,
                          data: seq<V>)
    requires TagsInverse(locToTag, tagToLoc) && |h| == |data| == max + 1 && locToTag.Keys == Range(0, nd) && nd <= max
    requires Surviving(h, locToTag.Keys, max)
    ensures Isomorphic(max, tagToLoc, h, data, tagToLoc, h, data)
  {
    var live := locToTag.Keys;
    assert tagToLoc.Values == live;
    forall i | 0 <= i <= max && (i in live || i == max)
      ensures Renumbered(live, max, h[i]) == h[i]
    {
      forall k | 0 <= k < |h[i]|
        ensures NewLoc(live, max, h[i][k]) == h[i][k]
      {
        assert ListSurvives(h[i], live, max);
        if h[i][k] in live {
          StillLive(live, nd, max, h[i][k]);
        }
      }
    }
    forall t | t in tagToLoc
      ensures Rank(live, tagToLoc[t]) == tagToLoc[t]
    {
      StillLive(live, nd, max, tagToLoc[t]);
    }
  }

  /** The body of compact_data: new locations, the swap loop, and the rebuilt tag maps. */
  method MoveSurvivors<V>(max: nat, h: seq<seq<nat>>, d0: seq<V>, locToTag: map<nat, nat>,
                          ghost tagToLoc: map<nat, nat>)
    returns (ok: bool, g: seq<seq<nat>>, d: seq<V>, locToTag': map<nat, nat>, tagToLoc': map<nat, nat>)
    requires |h| == |d0| == max + 1 && TagsInverse(locToTag, tagToLoc) && Surviving(h, locToTag.Keys, max)
    ensures ok && |g| == |d| == max + 1 && EdgesOk(g, Rank(locToTag.Keys, max), max)
    ensures TagsInverse(locToTag', tagToLoc')
    ensures locToTag'.Keys == Range(0, Rank(locToTag.Keys, max)) && Isomorphic(max, tagToLoc, h, d0, tagToLoc', g, d)
  {
    hide TagsInverse, Surviving, Rank, Moved, Renumbered, EdgesOk, Isomorphic, NewLoc, ListSurvives;
    var live := locToTag.Keys;
    SurvivingFacts(h, live, max);
    var newLoc, n := NewLocations(live, max);
    ok, g, d := MoveAll(h, d0, live, max, newLoc);
    MovedShape(h, d0, live, max, g, d);
    MovedEdges(max, live, h, d0, g, d);
    InjectiveTags(locToTag, tagToLoc);
    tagToLoc' := RebuildTags(locToTag, newLoc);
    TagsMovedTo(max, locToTag, tagToLoc');
    NewTagLocsDistinct(max, locToTag, tagToLoc');
    NewTagLocs(max, locToTag, tagToLoc');
    MovedIsomorphic(max, locToTag, tagToLoc, h, d0, g, d, tagToLoc');
    locToTag' := InvertTags(tagToLoc');
    KeysOfInverse(locToTag', tagToLoc');
  }

  /** A list of a saved index with the frozen point, which was last, at location `max`. */
  function Repositioned(list: seq<nat>, nd: nat, max: nat): (r: seq<nat>)
    ensures |r| == |list| && forall k :: 0 <= k < |r| ==> r[k] == if list[k] == nd then max else list[k]
  {
    seq(|list|, k requires 0 <= k < |list| => if list[k] == nd then max else list[k])
  }

  /** reposition_frozen_point_to_end on the loaded lists. */
  function PlaceLists(lists: seq<seq<nat>>, max: nat): (g: seq<seq<nat>>)
    requires 0 < |lists| <= max + 1
    ensures |g| == max + 1
  {
    var nd := |lists| - 1;
    seq(max + 1, i requires 0 <= i <= max =>
      if i < nd then Repositioned(lists[i], nd, max) else if i == max then lists[nd] else [])
  }

  /** The tags of the points that are not deleted. */
  function LoadTags(tags: seq<nat>, dels: set<nat>): (m: map<nat, nat>)
    ensures forall i: nat :: i in m <==> i < |tags| && i !in dels
    ensures forall i: nat :: i in m ==> m[i] == tags[i]
    ensures Distinct(tags) ==> forall i: nat, j: nat :: i in m && j in m && m[i] == m[j] ==> i == j
  {
    map i: nat | 0 <= i < |tags| && i !in dels :: tags[i]
  }

  lemma LoadedTags(tags: seq<nat>, dels: set<nat>, locToTag: map<nat, nat>, tagToLoc: map<nat, nat>)
    requires TagsInverse(tagToLoc, locToTag)
    ensures TagsInverse(locToTag, tagToLoc)
  {
  }

  lemma LoadedEdges(lists: seq<seq<nat>>, max: nat)
    requires 0 < |lists| <= max + 1 && forall i, k :: 0 <= i < |lists| && 0 <= k < |lists[i]| ==> lists[i][k] < |lists|
    requires |lists| - 1 !in lists[|lists| - 1]
    ensures EdgesOk(PlaceLists(lists, max), |lists| - 1, max)
    ensures var g, nd := PlaceLists(lists, max), |lists| - 1;
            g[max] == lists[nd] && forall i :: 0 <= i < nd ==> g[i] == Repositioned(lists[i], nd, max)
  {
    var nd := |lists| - 1;
    assert forall k :: 0 <= k < |lists[nd]| ==> lists[nd][k] in lists[nd];
  }

  lemma LoadedPartition(live: set<nat>, dels: set<nat>, nd: nat, max: nat)
    requires nd <= max && (forall d :: d in dels ==> d < nd) && forall i: nat :: i in live <==> i < nd && i !in dels
    ensures Partition(live, dels, Range(nd, max), nd, max)
  {
    forall x: nat
      ensures x in live + dels <==> x in Range(0, nd)
    {
    }
  }

  method LinkPoint(k: Linking, g: seq<seq<nat>>, nd: nat, max: nat, found: seq<Candidate>) returns (g': seq<seq<nat>>)
    requires EdgesOk(g, nd, max) && nd < max && forall i :: 0 <= i < |found| ==> found[i].id < nd || found[i].id == max
    ensures EdgesOk(g', nd + 1, max) && Linked(k, g, nd, MemPruned(k, found), g')
  {
    hide MemPruned, BackLinks;
    var list := MemPrune(k, found);
    MemPrunedFacts(k, found);
    forall i | 0 <= i < |list|
      ensures list[i] < nd || list[i] == max
    {
      assert HasId(found, list[i]);
    }
    EdgesAdd(g, nd, max, list);
    g' := InterInsert(k, g[nd := list], nd, list);
    BackLinksFacts(k, g[nd := list], nd, list);
    EdgesLinked(g[nd := list], nd, max, list, g');
  }

  lemma EdgesLinked(g: seq<seq<nat>>, n: nat, max: nat, list: seq<nat>, g': seq<seq<nat>>)
    requires EdgesOk(g, n + 1, max) && n < max && |g'| == |g|
    requires forall i, x :: 0 <= i < |g| && x in g'[i] ==> x in g[i] || (x == n && i in list)
    requires forall i :: 0 <= i < |g| && i !in list ==> g'[i] == g[i]
    requires forall i :: 0 <= i < |list| ==> list[i] < n || list[i] == max
    ensures EdgesOk(g', n + 1, max)
  {
    forall i, k | 0 <= i <= max && 0 <= k < |g'[i]|
      ensures g'[i][k] < n + 1 || g'[i][k] == max
    {
      assert g'[i][k] in g'[i];
      if g'[i][k] in g[i] {
        var j :| 0 <= j < |g[i]| && g[i][j] == g'[i][k];
      }
    }
  }

  lemma LiveBelow(h: seq<seq<nat>>, live: set<nat>, max: nat)
    requires Surviving(h, live, max)
    ensures max !in live
  {
  }

  lemma MovedTags<V>(max: nat, tags: map<nat, nat>, h: seq<seq<nat>>, data: seq<V>, tags': map<nat, nat>,
                     g: seq<seq<nat>>, d: seq<V>)
    requires |h| == |data| == |g| == |d| == max + 1 && Isomorphic(max, tags, h, data, tags', g, d)
    ensures tags'.Keys == tags.Keys && forall t :: t in tags ==> tags'[t] == Rank(tags.Values, tags[t])
  {
  }

  lemma StartBelow(ep: nat, list: seq<nat>, live: set<nat>, del: set<nat>, max: nat)
    requires ep <= max && Apart(live, del, max)
    ensures NewStart(ep, list, del) <= max
  {
  }

  /** Drop a tag and put its location, if it has one, into the delete set. */
  method Untag<V>(tag: nat, ghost max: nat, ghost graph: seq<seq<nat>>, ghost data: seq<V>, locToTag: map<nat, nat>,
                  tagToLoc: map<nat, nat>, del: set<nat>, ghost empty: set<nat>, ghost nd: nat, lazyDone: bool)
    returns (locToTag': map<nat, nat>, tagToLoc': map<nat, nat>, del': set<nat>, lazyDone': bool)
    requires Sound(max, graph, data, locToTag, tagToLoc, del, empty, nd)
    ensures Sound(max, graph, data, locToTag', tagToLoc', del', empty, nd)
    ensures tagToLoc' == tagToLoc - {tag} && del' == del + if tag in tagToLoc then {tagToLoc[tag]} else {}
    ensures lazyDone ==> lazyDone'
    ensures (del != {} ==> lazyDone) ==> (del' != {} ==> lazyDone')
  {
    hide TagsInverse, Partition;
    locToTag', tagToLoc', del', lazyDone' := locToTag, tagToLoc, del, lazyDone || tag in tagToLoc;
    if tag in tagToLoc {
      var l := tagToLoc[tag];
      TagsRemove(locToTag, tagToLoc, tag);
      PartitionDelete(locToTag.Keys, del, empty, nd, max, l);
      locToTag', tagToLoc', del' := locToTag - {l}, tagToLoc - {tag}, del + {l};
    } else {
      assert tagToLoc == tagToLoc - {tag};
    }
  }

  /** What an insert does: nothing to the points if the index is full, and otherwise a new point at the next
      location. */
  ghost predicate Inserted<V>(tag: nat, coords: V, found: seq<Candidate>, k: Linking, loc: int,
                              graph: seq<seq<nat>>, data: seq<V>, tagToLoc: map<nat, nat>, nd: nat,
                              graph': seq<seq<nat>>, data': seq<V>, tagToLoc': map<nat, nat>, nd': nat) {
    if loc == -1 then graph' == graph && data' == data && tagToLoc' == tagToLoc - {tag} && nd' == nd
    else
      && loc == nd < |data| && nd' == nd + 1 && tagToLoc' == (tagToLoc - {tag})[tag := nd]
      && data' == data[nd := coords] && Linked(k, graph, nd, MemPruned(k, found), graph')
  }

  method InsertOrFull<V>(max: nat, graph: seq<seq<nat>>, data: seq<V>, locToTag: map<nat, nat>, tagToLoc: map<nat, nat>,
                         del: set<nat>, empty: set<nat>, nd: nat, lazyDone: bool, tag: nat, coords: V,
                         found: seq<Candidate>, k: Linking)
    returns (loc: int, g: seq<seq<nat>>, d: seq<V>, locs: map<nat, nat>, tags: map<nat, nat>, del': set<nat>,
             empty': set<nat>, nd': nat, lazyDone': bool)
    requires Sound(max, graph, data, locToTag, tagToLoc, del, empty, nd)
    requires forall i :: 0 <= i < |found| ==> found[i].id < nd || found[i].id == max
    ensures Sound(max, g, d, locs, tags, del', empty', nd') && (loc == -1 <==> nd == max)
    ensures del' == del + if tag in tagToLoc then {tagToLoc[tag]} else {}
    ensures (del != {} ==> lazyDone) ==> (del' != {} ==> lazyDone')
    ensures Inserted(tag, coords, found, k, loc, graph, data, tagToLoc, nd, g, d, tags, nd')
  {
    hide Sound, MemPruned, Linked;
    locs, tags, del', lazyDone' := Untag(tag, max, graph, data, locToTag, tagToLoc, del, empty, nd, lazyDone);
    SoundShape(max, graph, data, locs, tags, del', empty, nd);
    loc, g, d, empty', nd' := -1, graph, data, empty, nd;
    if nd < max {
      g, d, locs, tags, empty' := Added(max, graph, data, locs, tags, del', empty, nd, tag, coords, found, k);
      loc, nd' := nd, nd + 1;
    }
  }

  lemma NothingToCompact<V>(max: nat, nd: nat, locToTag: map<nat, nat>, tagToLoc: map<nat, nat>, h: seq<seq<nat>>,
                            data: seq<V>, del: set<nat>, empty: set<nat>, ep: nat)
    requires TagsInverse(locToTag, tagToLoc) && Surviving(h, locToTag.Keys, max) && |h| == |data| == max + 1
    requires nd <= max
    requires del == {} && Partition(locToTag.Keys, del, empty, nd, max) && Apart(locToTag.Keys, del, max) && ep <= max
    ensures Isomorphic(max, tagToLoc, h, data, tagToLoc, h, data)
    ensures NewStart(ep, h[ep], del) == ep && StartReplaceable(ep, h[ep], del)
    ensures StartKept(max, ep, locToTag, ep, locToTag) <==> StartSafe(max, ep, locToTag.Keys)
  {
    hide Surviving, Rank, Isomorphic, StartKept, StartSafe, Apart, TagsInverse;
    AllLive(locToTag.Keys, empty, nd, max);
    StayIsomorphic(max, nd, locToTag, tagToLoc, h, data);
    LiveBelow(h, locToTag.Keys, max);
    MovedTags(max, tagToLoc, h, data, tagToLoc, h, data);
    StartKeptExactly(max, ep, h[ep], del, locToTag, tagToLoc, locToTag, tagToLoc);
  }

  /** Graph, tags and the sets of locations agree. */
  ghost predicate Sound<V>(max: nat, graph: seq<seq<nat>>, data: seq<V>, locToTag: map<nat, nat>,
                           tagToLoc: map<nat, nat>, del: set<nat>, empty: set<nat>, nd: nat) {
    && |data| == max + 1 && nd <= max && EdgesOk(graph, nd, max) && TagsInverse(locToTag, tagToLoc)
    && Partition(locToTag.Keys, del, empty, nd, max)
  }

  lemma SoundShape<V>(max: nat, graph: seq<seq<nat>>, data: seq<V>, locToTag: map<nat, nat>, tagToLoc: map<nat, nat>,
                      del: set<nat>, empty: set<nat>, nd: nat)
    requires Sound(max, graph, data, locToTag, tagToLoc, del, empty, nd)
    ensures |graph| == |data| == max + 1 && nd <= max
  {
  }

  /** The next location with a new point, linked into the graph. */
  method Added<V>(max: nat, graph: seq<seq<nat>>, data: seq<V>, locToTag: map<nat, nat>, tagToLoc: map<nat, nat>,
                  ghost del: set<nat>, empty: set<nat>, nd: nat, tag: nat, coords: V, found: seq<Candidate>, k: Linking)
    returns (g: seq<seq<nat>>, d: seq<V>, locs: map<nat, nat>, tags: map<nat, nat>, empty': set<nat>)
    requires Sound(max, graph, data, locToTag, tagToLoc, del, empty, nd) && nd < max && tag !in tagToLoc
    requires forall i :: 0 <= i < |found| ==> found[i].id < nd || found[i].id == max
    ensures Sound(max, g, d, locs, tags, del, empty', nd + 1)
    ensures |data| == max + 1 && d == data[nd := coords] && tags == tagToLoc[tag := nd]
    ensures Linked(k, graph, nd, MemPruned(k, found), g)
  {
    hide TagsInverse, Partition, EdgesOk, MemPruned, Linked;
    PartitionAdd(locToTag.Keys, del, empty, nd, max);
    TagsAdd(locToTag, tagToLoc, nd, tag);
    g := LinkPoint(k, graph, nd, max, found);
    d, locs, tags, empty' := data[nd := coords], locToTag[nd := tag], tagToLoc[tag := nd], empty - {nd};
  }

  /** The replaced start and the moved survivors. */
  method Compacted<V>(max: nat, h: seq<seq<nat>>, d0: seq<V>, locToTag: map<nat, nat>, ghost tagToLoc: map<nat, nat>,
                      del: set<nat>, ep: nat)
    returns (ok: bool, start: nat, g: seq<seq<nat>>, d: seq<V>, locToTag': map<nat, nat>, tagToLoc': map<nat, nat>)
    requires |h| == |d0| == max + 1 && TagsInverse(locToTag, tagToLoc) && Surviving(h, locToTag.Keys, max)
    requires Apart(locToTag.Keys, del, max) && ep <= max
    ensures ok <==> StartReplaceable(ep, h[ep], del)
    ensures ok ==> start == NewStart(ep, h[ep], del) && start <= max
    ensures ok ==> if ep in del then FirstGone(h[ep], del, start) else start == ep
    ensures ok ==>
              |g| == |d| == max + 1 && EdgesOk(g, Rank(locToTag.Keys, max), max) && TagsInverse(locToTag', tagToLoc')
    ensures ok ==>
              locToTag'.Keys == Range(0, Rank(locToTag.Keys, max)) && Isomorphic(max, tagToLoc, h, d0, tagToLoc', g, d)
    ensures ok ==> (StartKept(max, ep, locToTag, start, locToTag') <==> StartSafe(max, ep, locToTag.Keys))
  {
    hide TagsInverse, Surviving, Rank, EdgesOk, Isomorphic, FirstDeleted, StartKept, StartSafe, Apart, FirstGone,
         StartReplaceable;
    ok, start := ReplaceStart(ep, h[ep], del);
    ReplaceableIs(ep, h[ep], del);
    g, d, locToTag', tagToLoc' := h, d0, locToTag, map[];
    if ok {
      StartBelow(ep, h[ep], locToTag.Keys, del, max);
      ok, g, d, locToTag', tagToLoc' := MoveSurvivors(max, h, d0, locToTag, tagToLoc);
      LiveBelow(h, locToTag.Keys, max);
      MovedTags(max, tagToLoc, h, d0, tagToLoc', g, d);
      StartKeptExactly(max, ep, h[ep], del, locToTag, tagToLoc, locToTag', tagToLoc');
    }
  }

  class MemIndex<V> {
    const max: nat
    var graph: seq<seq<nat>>
    var data: seq<V>
    var locToTag: map<nat, nat>
    var tagToLoc: map<nat, nat>
    var deleteSet: set<nat>
    var emptySlots: set<nat>
    var nd: nat
    var lazyDone: bool
    var compacted: bool
    var ep: nat

    ghost predicate Valid()
      reads this
    {
      && Sound(max, graph, data, locToTag, tagToLoc, deleteSet, emptySlots, nd)
      && ep <= max && (deleteSet != {} ==> lazyDone) && compacted
    }

    constructor (max: nat, blank: V)
      ensures Valid() && this.max == max && ep == max && tagToLoc == map[] && nd == 0
    {
      this.max := max;
      graph, data := seq(max + 1, _ => []), seq(max + 1, _ => blank);
      locToTag, tagToLoc, deleteSet, emptySlots, nd := map[], map[], {}, Range(0, max), 0;
      lazyDone, compacted, ep := false, true, max;
    }

    /** Load a saved index: the lists and coordinates of its points, the frozen point last, their tags, the deleted
        locations, and the start of the file's header. The frozen point moves to location `max` and becomes the start,
        but if the index is full it is there already and the start of the header is taken as it is. */
    constructor Load(max: nat, lists: seq<seq<nat>>, coords: seq<V>, tags: seq<nat>, dels: set<nat>, start: nat,
                     blank: V)
      requires |tags| <= max && |lists| == |coords| == |tags| + 1 && Distinct(tags) && start <= |tags|
      requires forall i, k :: 0 <= i < |lists| && 0 <= k < |lists[i]| ==> lists[i][k] <= |tags|
      requires |tags| !in lists[|tags|] && forall d :: d in dels ==> d < |tags|
      ensures Valid() && this.max == max && nd == |tags| && deleteSet == dels
      ensures ep == if nd == max then start else max
      ensures forall i :: 0 <= i < nd ==> graph[i] == Repositioned(lists[i], nd, max) && data[i] == coords[i]
      ensures graph[max] == lists[nd] && data[max] == coords[nd]
      ensures forall i: nat :: i in locToTag <==> i < nd && i !in dels
      ensures forall i :: i in locToTag ==> locToTag[i] == tags[i]
    {
      this.max := max;
      nd := |tags|;
      graph := PlaceLists(lists, max);
      data := seq(max + 1, i requires 0 <= i <= max =>
        if i < |tags| then coords[i] else if i == max then coords[|tags|] else blank);
      deleteSet, emptySlots := dels, Range(|tags|, max);
      lazyDone, compacted := dels != {}, true;
      ep := if |tags| == max then start else max;
      locToTag, tagToLoc := LoadTags(tags, dels), map[];
      new;
      hide EdgesOk, Partition, TagsInverse, PlaceLists, LoadTags, Distinct;
      tagToLoc := InvertTags(locToTag);
      LoadedTags(tags, dels, locToTag, tagToLoc);
      LoadedPartition(locToTag.Keys, dels, nd, max);
      LoadedEdges(lists, max);
    }

    /** Take the next free location for a new point, choose its list among the candidates a search found, and link the
        neighbours back. A point that has the tag already is lazily deleted first. -1 if there is no free location. */
    method AddPoint(tag: nat, coords: V, found: seq<Candidate>, k: Linking) returns (loc: int)
      requires Valid() && found != [] && forall i :: 0 <= i < |found| ==> found[i].id < nd || found[i].id == max
      modifies this`graph, this`data, this`locToTag, this`tagToLoc, this`emptySlots, this`nd, this`deleteSet,
               this`lazyDone
      ensures Valid() && (loc == -1 <==> old(nd) == max)
      ensures deleteSet == old(deleteSet) + if tag in old(tagToLoc) then {old(tagToLoc)[tag]} else {}
      ensures Inserted(tag, coords, found, k, loc, old(graph), old(data), old(tagToLoc), old(nd), graph, data, tagToLoc,
                       nd)
    {
      hide Sound, Inserted;
      loc, graph, data, locToTag, tagToLoc, deleteSet, emptySlots, nd, lazyDone :=
        InsertOrFull(max, graph, data, locToTag, tagToLoc, deleteSet, emptySlots, nd, lazyDone, tag, coords, found, k);
    }

    /** lazy_delete: 0, or -1 for an unknown tag. */
    method LazyDelete(tag: nat) returns (r: int)
      requires Valid()
      modifies this`locToTag, this`tagToLoc, this`deleteSet, this`lazyDone
      ensures Valid() && (r == 0 <==> tag in old(tagToLoc)) && (r == 0 || r == -1)
      ensures tagToLoc == old(tagToLoc) - {tag}
      ensures deleteSet == old(deleteSet) + if r == 0 then {old(tagToLoc)[tag]} else {}
    {
      hide Sound;
      r := if tag in tagToLoc then 0 else -1;
      locToTag, tagToLoc, deleteSet, lazyDone := Untag(tag, max, graph, data, locToTag, tagToLoc, deleteSet, emptySlots,
                                                       nd, true);
    }

    /** Between consolidation and compaction: the survivors' lists are closed, and nd counts the survivors. */
    ghost predicate Consolidating()
      reads this
    {
      && |data| == max + 1 && ep <= max && TagsInverse(locToTag, tagToLoc) && Surviving(graph, locToTag.Keys, max)
      && Apart(locToTag.Keys, deleteSet, max)
      && nd == Rank(locToTag.Keys, max) && (deleteSet != {} ==> lazyDone) && (compacted <==> deleteSet == {})
      && (deleteSet == {} ==> Valid())
    }

    method ConsolidateDeletes(ps: Settings)
      requires Valid()
      modifies this`graph, this`emptySlots, this`nd, this`compacted
      ensures Consolidating() && nd == old(nd) - |deleteSet|
      ensures Consolidated(old(graph), deleteSet, deleteSet + old(emptySlots), ps, graph)
    {
      hide TagsInverse, Consolidated, Surviving, Rank, Partition, EdgesOk, Apart;
      EdgesUse(graph, nd, max);
      var g := ConsolidateGraph(graph, deleteSet, deleteSet + emptySlots, ps);
      AfterConsolidation(graph, locToTag.Keys, deleteSet, emptySlots, nd, max, ps, g);
      assert deleteSet == {} ==> emptySlots + deleteSet == emptySlots;
      graph, emptySlots, nd, compacted := g, emptySlots + deleteSet, nd - |deleteSet|, deleteSet == {};
    }

    /** Move the survivors to the front. The abort for an edge to a deleted point cannot happen; the one for a deleted
        start without a deleted neighbour can. The start keeps its number, and so stays the node it was only if it was
        safe. */
    method CompactData() returns (ok: bool)
      requires Consolidating()
      modifies this`graph, this`data, this`locToTag, this`tagToLoc, this`deleteSet, this`emptySlots, this`lazyDone,
               this`compacted, this`ep
      ensures |old(graph)| == max + 1
      ensures ok <==> StartReplaceable(old(ep), old(graph)[old(ep)], old(deleteSet))
      ensures ok ==> if old(ep) in old(deleteSet) then FirstGone(old(graph)[old(ep)], old(deleteSet), ep)
                     else ep == old(ep)
      ensures ok ==> Valid() && deleteSet == {} && ep == NewStart(old(ep), old(graph)[old(ep)], old(deleteSet))
      ensures ok ==> Isomorphic(max, old(tagToLoc), old(graph), old(data), tagToLoc, graph, data)
      ensures ok ==> (StartKept(max, old(ep), old(locToTag), ep, locToTag) <==>
                      StartSafe(max, old(ep), old(locToTag).Keys))
    {
      hide TagsInverse, Surviving, Rank, EdgesOk, Partition, Isomorphic, FirstDeleted, StartKept, StartSafe, Apart,
           FirstGone, StartReplaceable;
      SurvivingShape(graph, locToTag.Keys, max);
      if !lazyDone || compacted {
        NothingToCompact(max, nd, locToTag, tagToLoc, graph, data, deleteSet, emptySlots, ep);
        return true;
      }
      var start, g, d, locs, tags;
      ok, start, g, d, locs, tags := Compacted(max, graph, data, locToTag, tagToLoc, deleteSet, ep);
      if !ok {
        return;
      }
      graph, data, locToTag, tagToLoc, ep := ClearFrom(g, nd, max), d, locs, tags, start;
      deleteSet, emptySlots, lazyDone, compacted := {}, Range(nd, max), false, true;
      AllLivePartition(nd, max);
    }

    /** consolidate: the deleted points are gone, every other tag keeps its point, and the survivors' lists are the
        consolidated ones under new names. */
    method Consolidate(ps: Settings) returns (ok: bool, ghost h: seq<seq<nat>>)
      requires Valid()
      modifies this`graph, this`data, this`locToTag, this`tagToLoc, this`deleteSet, this`emptySlots, this`nd,
               this`lazyDone, this`compacted, this`ep
      ensures |old(graph)| == |h| == max + 1 && old(ep) <= max
      ensures ok <==> StartReplaceable(old(ep), old(graph)[old(ep)], old(deleteSet))
      ensures ok ==> if old(ep) in old(deleteSet) then FirstGone(old(graph)[old(ep)], old(deleteSet), ep)
                     else ep == old(ep)
      ensures ok ==> Valid() && deleteSet == {} && nd == old(nd) - |old(deleteSet)|
                     && ep == NewStart(old(ep), old(graph)[old(ep)], old(deleteSet))
      ensures Consolidated(old(graph), old(deleteSet), old(deleteSet + emptySlots), ps, h)
      ensures ok ==> Isomorphic(max, old(tagToLoc), h, old(data), tagToLoc, graph, data)
      ensures ok ==> (StartKept(max, old(ep), old(locToTag), ep, locToTag) <==>
                      StartSafe(max, old(ep), old(locToTag).Keys))
    {
      hide TagsInverse, Surviving, Rank, Consolidated, EdgesOk, Partition, Isomorphic, FirstDeleted, StartKept,
           StartSafe, Apart, FirstGone, StartReplaceable;
      EdgesShape(graph, nd, max);
      ghost var g0 := graph;
      ConsolidateDeletes(ps);
      h := graph;
      SurvivingShape(h, locToTag.Keys, max);
      DeletedListsStay(g0, deleteSet, old(deleteSet + emptySlots), ps, h);
      SameReplacement(ep, g0[ep], h[ep], deleteSet);
      ok := CompactData();
    }
  }

  lemma SameReplacement(ep: nat, list: seq<nat>, list': seq<nat>, del: set<nat>)
    requires ep in del ==> list == list'
    ensures StartReplaceable(ep, list, del) <==> StartReplaceable(ep, list', del)
  {
  }

  lemma DeletedListsStay(g: seq<seq<nat>>, del: set<nat>, gone: set<nat>, ps: Settings, h: seq<seq<nat>>)
    requires Consolidated(g, del, gone, ps, h) && del <= gone
    ensures |h| == |g| && forall i :: 0 <= i < |g| && i in del ==> h[i] == g[i]
  {
  }

  /** Clear the lists of the locations that are no longer used. */
  function ClearFrom(g: seq<seq<nat>>, nd: nat, max: nat): (r: seq<seq<nat>>)
    requires EdgesOk(g, nd, max)
    ensures r == g
  {
    var r := seq(|g|, i requires 0 <= i < |g| => if nd <= i < max then [] else g[i]);
    assert r == g;
    r
  }

  lemma InjectiveTags(locToTag: map<nat, nat>, tagToLoc: map<nat, nat>)
    requires TagsInverse(locToTag, tagToLoc)
    ensures forall l, k :: l in locToTag && k in locToTag && locToTag[l] == locToTag[k] ==> l == k
  {
  }

  lemma KeysOfInverse(locToTag: map<nat, nat>, tagToLoc: map<nat, nat>)
    requires TagsInverse(locToTag, tagToLoc)
    ensures locToTag.Keys == tagToLoc.Values
  {
  }

  lemma NothingDeleted(g: seq<seq<nat>>, empty: set<nat>, ps: Settings, h: seq<seq<nat>>, nd: nat, max: nat)
    requires Consolidated(g, {}, {} + empty, ps, h)
    ensures h == g
  {
  }

  lemma SurvivingShape(h: seq<seq<nat>>, live: set<nat>, max: nat)
    requires Surviving(h, live, max)
    ensures |h| == max + 1
  {
  }

  lemma SurvivingFacts(h: seq<seq<nat>>, live: set<nat>, max: nat)
    requires Surviving(h, live, max)
    ensures |h| == max + 1 && (forall x :: x in live ==> x < max)
    ensures forall i, k :: 0 <= i <= max && 0 <= k < |h[i]| ==> h[i][k] <= max
    ensures forall i :: 0 <= i <= max && (i in live || i == max) ==> ListSurvives(h[i], live, max)
  {
  }

  lemma MovedShape<V>(h: seq<seq<nat>>, d0: seq<V>, live: set<nat>, max: nat, g: seq<seq<nat>>, d: seq<V>)
    requires |h| == |g| == max + 1 && Moved(h, d0, live, max, max, g[max := h[max]], d)
    ensures |d| == max + 1
  {
  }

  lemma TagsMovedTo(max: nat, locToTag: map<nat, nat>, tagToLoc': map<nat, nat>)
    requires (forall l :: l in locToTag ==> l < max) && tagToLoc'.Keys == locToTag.Values
    requires forall l :: l in locToTag ==> tagToLoc'[locToTag[l]] == NewLoc(locToTag.Keys, max, l)
    ensures TagsMoved(max, locToTag, tagToLoc')
  {
  }

  lemma EdgesShape(graph: seq<seq<nat>>, nd: nat, max: nat)
    requires EdgesOk(graph, nd, max)
    ensures |graph| == max + 1
  {
  }

  lemma AllLive(live: set<nat>, empty: set<nat>, nd: nat, max: nat)
    requires Partition(live, {}, empty, nd, max)
    ensures live == Range(0, nd)
  {
  }

  lemma AllLivePartition(nd: nat, max: nat)
    ensures Partition(Range(0, nd), {}, Range(nd, max), nd, max)
  {
  }

  /** A full index of two points whose start is the second of them. Deleting the first one moves the second to its
      place, and the start, which keeps its number, is left at a location without a point. */
  method LoseStart(ps: Settings) returns (m: MemIndex<int>)
    ensures m.Valid() && m.locToTag.Keys == {0} && m.locToTag[0] == 11 && m.ep == 1 && m.ep != m.max
  {
    m := new MemIndex<int>.Load(2, [[1], [0], [0]], [7, 8, 9], [10, 11], {}, 1, 0);
    assert m.locToTag[0] == 10 && m.locToTag[1] == 11;
    var r := m.LazyDelete(10);
    var ok, h := m.Consolidate(ps);
  }

  /** The same index with the first point as start: deleting it aborts, although its neighbour is alive. */
  method AbortOnStart(ps: Settings) returns (ok: bool)
    ensures !ok
  {
    hide Partition, Consolidated, Isomorphic, StartKept, StartSafe, Rank;
    ReplaceableIs(0, [1], {0});
    assert FirstDeleted(0, [1], {0}) == 0;
    var m := new MemIndex<int>.Load(2, [[1], [0], [0]], [7, 8, 9], [10, 11], {}, 0, 0);
    assert m.locToTag[0] == 10 && m.graph[0] == [1];
    var r := m.LazyDelete(10);
    ghost var h;
    ok, h := m.Consolidate(ps);
  }
}
