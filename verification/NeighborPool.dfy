/** The candidate pool of the graph searches: an array of neighbours sorted by distance to the query. */
module NeighborPool {

  /** `flag` marks an entry not yet expanded (or, in the pipelined search, not yet requested). */
  datatype Neighbor = Neighbor(id: nat, distance: real, flag: bool, visited: bool)

  ghost predicate Sorted(s: seq<Neighbor>) {
    forall i, j :: 0 <= i < j < |s| ==> s[i].distance <= s[j].distance
  }

  /** First position whose distance exceeds `d`. */
  function FirstGreater(s: seq<Neighbor>, d: real): (p: nat)
    ensures p <= |s| && (p < |s| ==> s[p].distance > d) && forall i :: 0 <= i < p ==> s[i].distance <= d
  {
    if s == [] then 0 else if s[0].distance > d then 0 else 1 + FirstGreater(s[1..], d)
  }

  /** Where InsertIntoPool puts an entry: after the entries that are no farther, except that it goes before the very
      last entry if that one is at the same distance. */
  function InsertPos(s: seq<Neighbor>, d: real): (p: nat)
    requires s != []
    ensures p <= |s|
  {
    if s[|s| - 1].distance == d then |s| - 1 else FirstGreater(s, d)
  }

  function PoolInsert(s: seq<Neighbor>, nn: Neighbor): (r: seq<Neighbor>)
    requires s != []
  {
    var p := InsertPos(s, nn.distance);
    s[..p] + [nn] + s[p..]
  }

  lemma FirstGreaterUnique(s: seq<Neighbor>, d: real, p: nat)
    requires Sorted(s) && p <= |s| && (p < |s| ==> s[p].distance > d) && forall i :: 0 <= i < p ==> s[i].distance <= d
    ensures FirstGreater(s, d) == p
  {
  }

  lemma PoolInsertSorted(s: seq<Neighbor>, nn: Neighbor)
    requires s != [] && Sorted(s)
    ensures Sorted(PoolInsert(s, nn))
  {
  }

  /** memmove of addr[pos..K] one place up, then store `nn` at `pos`. */
  method PlaceAt(addr: array<Neighbor>, pos: nat, K: nat, nn: Neighbor)
    requires pos <= K < addr.Length
    modifies addr
    ensures addr[..K + 1] == old(addr[..K])[..pos] + [nn] + old(addr[..K])[pos..]
    ensures forall i :: K < i < addr.Length ==> addr[i] == old(addr[i])
  {
    forall i | pos < i <= K {
      addr[i] := addr[i - 1];
    }
    addr[pos] := nn;
  }

  /** The binary search for the insert position of a distance within the pool's range. */
  method SearchPos(addr: array<Neighbor>, K: nat, d: real) returns (left: nat, right: nat)
    requires 1 <= K <= addr.Length && Sorted(addr[..K])
    requires addr[0].distance <= d <= addr[K - 1].distance
    ensures left <= right < K && (left < right ==> left == right - 1)
    ensures addr[left].distance <= d <= addr[right].distance
    ensures right == InsertPos(addr[..K], d)
    ensures forall i :: 0 <= i < K && addr[i].distance == d ==> i <= left || i == right
  {
    ghost var s := addr[..K];
    left, right := 0, K - 1;
    while right > 1 && left < right - 1
      invariant left <= right < K && addr[left].distance <= d <= addr[right].distance
      invariant right < K - 1 ==> addr[right].distance > d
      invariant left == right ==> K == 1
    {
      var mid := (left + right) / 2;
      if addr[mid].distance > d {
        right := mid;
      } else {
        left := mid;
      }
    }
    assert s[left].distance <= d <= s[right].distance;
    if s[K - 1].distance != d {
      FirstGreaterUnique(s, d, right);
    }
  }

  /** Is an entry with the id of `nn` among those at the same distance? */
  method HasEqualId(addr: array<Neighbor>, K: nat, left0: nat, right: nat, nn: Neighbor) returns (dup: bool)
    requires left0 <= right < K <= addr.Length && Sorted(addr[..K])
    requires forall i :: 0 <= i < K && addr[i].distance == nn.distance ==> i <= left0 || i == right
    ensures dup ==> exists i :: 0 <= i < K && addr[i].id == nn.id
    ensures !dup ==> forall i :: 0 <= i < K && addr[i].distance == nn.distance ==> addr[i].id != nn.id
  {
    ghost var s := addr[..K];
    assert forall i :: 0 <= i < K ==> s[i] == addr[i];
    var left: nat := left0;
    while left > 0
      invariant left <= left0
      invariant forall i :: left < i <= left0 ==> s[i].id != nn.id
    {
      if addr[left].distance < nn.distance {
        break;
      }
      if addr[left].id == nn.id {
        return true;
      }
      left := left - 1;
    }
    dup := addr[left].id == nn.id || addr[right].id == nn.id;
  }

  /** Insert `nn` into the sorted pool addr[..K], which has room for one more entry. Position K + 1 means that an entry
      with the same id is already there, and nothing changes. */
  method InsertIntoPool(addr: array<Neighbor>, K: nat, nn: Neighbor) returns (r: nat)
    requires 1 <= K < addr.Length && Sorted(addr[..K])
    modifies addr
    ensures r <= K ==> r == InsertPos(old(addr[..K]), nn.distance) && addr[..K + 1] == PoolInsert(old(addr[..K]), nn)
    ensures r > K ==> r == K + 1 && addr[..] == old(addr[..]) && exists i :: 0 <= i < K && addr[i].id == nn.id
    ensures (exists i :: 0 <= i < K && old(addr[i].id) == nn.id && old(addr[i].distance) == nn.distance) ==> r == K + 1
    ensures forall i :: K < i < addr.Length ==> addr[i] == old(addr[i])
  {
    ghost var s := addr[..K];
    assert forall i :: 0 <= i < K ==> s[i] == addr[i];
    if addr[0].distance > nn.distance {
      FirstGreaterUnique(s, nn.distance, 0);
      PlaceAt(addr, 0, K, nn);
      return 0;
    }
    if addr[K - 1].distance < nn.distance {
      FirstGreaterUnique(s, nn.distance, K);
      PlaceAt(addr, K, K, nn);
      return K;
    }
    var left, right := SearchPos(addr, K, nn.distance);
    var dup := HasEqualId(addr, K, left, right, nn);
    if dup {
      return K + 1;
    }
    PlaceAt(addr, right, K, nn);
    return right;
  }

  predicate Before(a: Neighbor, b: Neighbor) {
    a.distance < b.distance || (a.distance == b.distance && a.id < b.id)
  }

  function SortPos(s: seq<Neighbor>, e: Neighbor): (p: nat)
    ensures p <= |s| && (p > 0 ==> !Before(e, s[p - 1])) && (p < |s| ==> Before(e, s[p]))
  {
    if s == [] || !Before(e, s[|s| - 1]) then |s| else SortPos(s[..|s| - 1], e)
  }

  function SortInsert(s: seq<Neighbor>, e: Neighbor): (r: seq<Neighbor>) {
    var p := SortPos(s, e);
    s[..p] + [e] + s[p..]
  }

  /** std::sort by distance, then by id. */
  function SortNeighbors(s: seq<Neighbor>): (r: seq<Neighbor>) {
    if s == [] then [] else SortInsert(SortNeighbors(s[..|s| - 1]), s[|s| - 1])
  }

  ghost predicate DistinctIds(pool: seq<Neighbor>) {
    forall i, j :: 0 <= i < j < |pool| ==> pool[i].id != pool[j].id
  }

  ghost predicate SameEntries(s: seq<Neighbor>, t: seq<Neighbor>) {
    |s| == |t| && (forall i :: 0 <= i < |s| ==> s[i] in t) && (forall i :: 0 <= i < |t| ==> t[i] in s)
  }

  lemma SortInsertSorted(s: seq<Neighbor>, e: Neighbor)
    requires Sorted(s)
    ensures Sorted(SortInsert(s, e))
  {
  }

  lemma SortInsertEntries(s: seq<Neighbor>, t: seq<Neighbor>, e: Neighbor)
    requires SameEntries(s, t)
    ensures SameEntries(SortInsert(s, e), t + [e])
  {
    var r, p := SortInsert(s, e), SortPos(s, e);
    forall i | 0 <= i < |t + [e]|
      ensures (t + [e])[i] in r
    {
      if i < |t| {
        var j :| 0 <= j < |s| && s[j] == t[i];
        assert r[if j < p then j else j + 1] == t[i];
      } else {
        assert r[p] == e;
      }
    }
    forall i | 0 <= i < |r|
      ensures r[i] in t + [e]
    {
      if i < p {
        assert r[i] == s[i];
      } else if i > p {
        assert r[i] == s[i - 1];
      }
    }
  }

  lemma SortInsertDistinct(s: seq<Neighbor>, t: seq<Neighbor>, e: Neighbor)
    requires DistinctIds(s) && SameEntries(s, t) && DistinctIds(t + [e])
    ensures DistinctIds(SortInsert(s, e))
  {
    forall i | 0 <= i < |s|
      ensures s[i].id != e.id
    {
      var j :| 0 <= j < |t| && t[j] == s[i];
      assert (t + [e])[j].id != (t + [e])[|t|].id;
    }
  }

  lemma PrefixDistinct(s: seq<Neighbor>, n: nat)
    requires n <= |s| && DistinctIds(s)
    ensures DistinctIds(s[..n])
  {
  }

  lemma {:induction false} SortKeeps(s: seq<Neighbor>)
    ensures var r := SortNeighbors(s); Sorted(r) && SameEntries(r, s) && (DistinctIds(s) ==> DistinctIds(r))
  {
    hide SortInsert, Sorted, SameEntries, DistinctIds;
    if s == [] {
      SortedNone();
    } else {
      var t, x := s[..|s| - 1], s[|s| - 1];
      SortKeeps(t);
      var r := SortNeighbors(t);
      SortInsertSorted(r, x);
      SortInsertEntries(r, t, x);
      assert s == t + [x];
      if DistinctIds(s) {
        PrefixDistinct(s, |t|);
        SortInsertDistinct(r, t, x);
      }
    }
  }

  lemma SortedNone()
    ensures Sorted([]) && SameEntries([], []) && DistinctIds([])
  {
  }
}
