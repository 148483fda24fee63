/** The robin-hood open-addressing table behind robin_map and robin_set: linear probing with early stop,
    displacement on insert and backward shift on erase. */
module RobinHash {
  import opened Wrappers
  import opened Counting

  /** A bucket knows how far its value sits from its ideal bucket; an empty bucket has distance -1. */
  datatype Bucket<K, V> = Empty | Full(key: K, value: V, dist: nat)

  type Table<K, V> = seq<Bucket<K, V>>

  function D<K, V>(b: Bucket<K, V>): int {
    if b.Empty? then -1 else b.dist
  }

  /** next_bucket: one step along the circular bucket array. */
  function Next(n: nat, i: nat): (r: nat)
    requires i < n
    ensures r < n
  {
    if i + 1 == n then 0 else i + 1
  }

  function Prev(n: nat, i: nat): (r: nat)
    requires i < n
    ensures r < n && Next(n, r) == i && forall k :: 0 <= k < n && Next(n, k) == i ==> k == r
  {
    if i == 0 then n - 1 else i - 1
  }

  /** The bucket `d` steps after bucket `s`. */
  function Adv(n: nat, s: nat, d: nat): (r: nat)
    requires s < n && d <= n
    ensures r < n
  {
    if s + d < n then s + d else s + d - n
  }

  /** bucket_for_hash: `hash & mask` for a power-of-two bucket count. */
  function Home<K>(hash: K -> nat, n: nat, k: K): (r: nat)
    requires n > 0
    ensures r < n
  {
    hash(k) % n
  }

  /** The stored distance is the circular offset from the ideal bucket. */
  ghost predicate Placed<K, V>(hash: K -> nat, n: nat, i: nat, b: Bucket<K, V>)
    requires i < n
  {
    b.Full? ==> b.dist < n && Adv(n, Home(hash, n, b.key), b.dist) == i
  }

  /** The table invariant: distances are right, and grow by at most one from a bucket to the next. */
  ghost predicate TableInv<K, V>(hash: K -> nat, t: Table<K, V>) {
    forall i :: 0 <= i < |t| ==> Placed(hash, |t|, i, t[i]) && D(t[Next(|t|, i)]) <= D(t[i]) + 1
  }

  /** The table stores exactly the map `m`, each key once. */
  ghost predicate Represents<K(!new), V>(t: Table<K, V>, m: map<K, V>) {
    && (forall i :: 0 <= i < |t| && t[i].Full? ==> t[i].key in m && m[t[i].key] == t[i].value)
    && (forall k :: k in m ==> exists i :: 0 <= i < |t| && t[i].Full? && t[i].key == k)
    && (forall i, j :: 0 <= i < j < |t| && t[i].Full? && t[j].Full? ==> t[i].key != t[j].key)
  }

  // ----- lookup -----

  /** Seen from bucket `s`, a value `d` steps away with distance at least `d` keeps the probe going all the way. */
  lemma {:induction false} ProbeReaches<K, V>(hash: K -> nat, t: Table<K, V>, s: nat, d: nat, j: nat)
    requires TableInv(hash, t) && s < |t| && j <= d < |t| && D(t[Adv(|t|, s, d)]) >= d
    ensures D(t[Adv(|t|, s, j)]) >= j
    decreases d
  {
    if j < d {
      assert Next(|t|, Adv(|t|, s, d - 1)) == Adv(|t|, s, d);
      ProbeReaches(hash, t, s, d - 1, j);
    }
  }

  /** Where a value with key `key` may be written: `ib` is `dist` steps from its ideal bucket and the bucket before
      it is far enough from its own. */
  ghost predicate Insertable<K, V>(hash: K -> nat, t: Table<K, V>, key: K, ib: nat, dist: nat) {
    && ib < |t| && dist <= |t| && Adv(|t|, Home(hash, |t|, key), dist) == ib
    && dist <= D(t[Prev(|t|, ib)]) + 1
  }

  /** The probe loop shared by find and insert: stops at the key, or as soon as a bucket is closer to its ideal
      bucket than the probe is to the key's. */
  method Probe<K(==, !new), V>(hash: K -> nat, t: Table<K, V>, key: K, ghost m: map<K, V>)
    returns (found: bool, ib: nat, dist: nat)
    requires TableInv(hash, t) && Represents(t, m)
    ensures found <==> key in m
    ensures found ==> ib < |t| && t[ib].Full? && t[ib].key == key
    ensures !found && |t| > 0 ==> Insertable(hash, t, key, ib, dist) && D(t[ib]) < dist
  {
    if |t| == 0 {
      return false, 0, 0;
    }
    hide Home;
    var n := |t|;
    ib, dist := Home(hash, n, key), 0;
    while dist <= D(t[ib])
      invariant Insertable(hash, t, key, ib, dist)
      invariant forall j :: 0 <= j < dist ==>
                  t[Adv(n, Home(hash, n, key), j)].Full? && t[Adv(n, Home(hash, n, key), j)].key != key
      decreases n - dist
    {
      if t[ib].key == key {
        return true, ib, dist;
      }
      assert Placed(hash, n, ib, t[ib]);
      assert Next(n, ib) == Adv(n, Home(hash, n, key), dist + 1) && Prev(n, Next(n, ib)) == ib;
      ib, dist := Next(n, ib), dist + 1;
    }
    found := false;
    if key in m {
      var i :| 0 <= i < n && t[i].Full? && t[i].key == key;
      assert Placed(hash, n, i, t[i]);
      if dist <= t[i].dist {
        ProbeReaches(hash, t, Home(hash, n, key), t[i].dist, dist);
      }
      assert false;
    }
  }

  // ----- insertion -----

  lemma {:induction false} EmptyBound<K, V>(hash: K -> nat, t: Table<K, V>, e: nat, j: nat)
    requires TableInv(hash, t) && e < |t| && t[e].Empty? && j < |t|
    ensures D(t[Adv(|t|, e, j)]) <= j - 1
  {
    if j > 0 {
      EmptyBound(hash, t, e, j - 1);
      assert Next(|t|, Adv(|t|, e, j - 1)) == Adv(|t|, e, j);
    }
  }

  /** How many steps from bucket `i` to bucket `e`. */
  function Gap(n: nat, i: nat, e: nat): (g: nat)
    requires i < n && e < n
    ensures g < n && Adv(n, i, g) == e
  {
    if i <= e then e - i else e + n - i
  }

  /** With an empty bucket left, no probe goes all the way round. */
  lemma InsertableInRange<K, V>(hash: K -> nat, t: Table<K, V>, key: K, ib: nat, dist: nat, e: nat)
    requires TableInv(hash, t) && Insertable(hash, t, key, ib, dist) && e < |t| && t[e].Empty?
    ensures dist < |t| && ib < |t|
  {
    var n := |t|;
    EmptyBound(hash, t, e, Gap(n, e, Prev(n, ib)));
  }

  /** The carried value is still owed: the table holds the target map without it. */
  ghost predicate Owes<K(!new), V>(t: Table<K, V>, m: map<K, V>, key: K, value: V) {
    key in m && m[key] == value && Represents(t, m - {key})
  }

  /** Writing a carried value into a bucket that is closer to its ideal bucket keeps the table invariant. */
  lemma WriteKeepsInv<K, V>(hash: K -> nat, t: Table<K, V>, key: K, value: V, ib: nat, dist: nat)
    requires TableInv(hash, t) && Insertable(hash, t, key, ib, dist) && dist < |t| && D(t[ib]) < dist
    ensures var t' := t[ib := Full(key, value, dist)];
            && TableInv(hash, t')
            && (t[ib].Full? ==> Insertable(hash, t', t[ib].key, Next(|t|, ib), t[ib].dist + 1))
  {
    hide Home;
    var n, t' := |t|, t[ib := Full(key, value, dist)];
    forall i | 0 <= i < n
      ensures Placed(hash, n, i, t'[i]) && D(t'[Next(n, i)]) <= D(t'[i]) + 1
    {
      assert Placed(hash, n, i, t[i]) && D(t[Next(n, i)]) <= D(t[i]) + 1;
      if Next(n, i) == ib {
        assert i == Prev(n, ib);
      }
    }
    if t[ib].Full? {
      assert Placed(hash, n, ib, t[ib]);
    }
  }

  /** ... and moves the debt from the carried value to the one it displaced, if any. */
  lemma WriteKeepsContents<K(!new), V>(t: Table<K, V>, m: map<K, V>, key: K, value: V, ib: nat, dist: nat)
    requires ib < |t| && Owes(t, m, key, value)
    ensures var t' := t[ib := Full(key, value, dist)];
            if t[ib].Full? then Owes(t', m, t[ib].key, t[ib].value) else Represents(t', m)
  {
    var t' := t[ib := Full(key, value, dist)];
    var m' := if t[ib].Full? then m - {t[ib].key} else m;
    forall k | k in m'
      ensures exists i :: 0 <= i < |t'| && t'[i].Full? && t'[i].key == k
    {
      if k == key {
        assert t'[ib].key == k;
      } else {
        assert k in m - {key};
        var i :| 0 <= i < |t| && t[i].Full? && t[i].key == k;
        assert t'[i].Full?;
      }
    }
    assert forall i :: 0 <= i < |t| && t[i].Full? ==> t[i].key != key;
  }

  const FAR_PROBES: nat := 128

  /** Bucket i was occupied and now holds another key than the new one, at 128 or more probes. */
  ghost predicate FarAt<K, V>(t0: Table<K, V>, t: Table<K, V>, key: K, i: nat) {
    && i < |t0| && i < |t| && t0[i].Full? && t[i].Full? && t[i] != t0[i] && t[i].key != key
    && t[i].dist >= FAR_PROBES
  }

  /** Inserting `key` moved a value from bucket to bucket to 128 or more probes, displacing another one there. */
  ghost predicate FarMove<K, V>(t0: Table<K, V>, t: Table<K, V>, key: K) {
    exists i: nat :: FarAt(t0, t, key, i)
  }

  lemma FarNone<K, V>(t0: Table<K, V>, ib: nat, key: K, value: V, dist: nat)
    requires ib < |t0|
    ensures !FarMove(t0, t0[ib := Full(key, value, dist)], key)
  {
  }

  /** Writing into a bucket that is still as it was. */
  lemma FarStep<K, V>(t0: Table<K, V>, t: Table<K, V>, key0: K, ib: nat, b: Bucket<K, V>)
    requires |t| == |t0| && ib < |t| && t[ib] == t0[ib] && b.Full? && D(t[ib]) < b.dist && b.key != key0
    ensures FarMove(t0, t[ib := b], key0) <==> FarMove(t0, t, key0) || (t[ib].Full? && b.dist >= FAR_PROBES)
  {
    var t' := t[ib := b];
    if FarMove(t0, t, key0) {
      var i: nat :| FarAt(t0, t, key0, i);
      assert FarAt(t0, t', key0, i);
    }
    if t[ib].Full? && b.dist >= FAR_PROBES {
      assert FarAt(t0, t', key0, ib);
    }
    if FarMove(t0, t', key0) {
      var i: nat :| FarAt(t0, t', key0, i);
      assert i != ib ==> FarAt(t0, t, key0, i);
    }
  }

  lemma OwesApart<K(!new), V>(t: Table<K, V>, m: map<K, V>, key: K, value: V)
    requires Owes(t, m, key, value)
    ensures forall i :: 0 <= i < |t| && t[i].Full? ==> t[i].key != key
  {
  }

  /** The buckets from `ib` on, up to the empty one at `e`, are as they were. */
  ghost predicate Untouched<K, V>(t0: Table<K, V>, t: Table<K, V>, ib: nat, e: nat) {
    && |t| == |t0| && ib < |t| && e < |t|
    && forall j :: 0 <= j < |t| && Gap(|t|, j, e) <= Gap(|t|, ib, e) ==> t[j] == t0[j]
  }

  lemma UntouchedStart<K, V>(t0: Table<K, V>, ib: nat, e: nat, b: Bucket<K, V>)
    requires ib < |t0| && e < |t0| && ib != e
    ensures Untouched(t0, t0[ib := b], Next(|t0|, ib), e)
  {
  }

  lemma UntouchedStep<K, V>(t0: Table<K, V>, t: Table<K, V>, ib: nat, e: nat, b: Bucket<K, V>)
    requires Untouched(t0, t, ib, e)
    ensures t[ib] == t0[ib]
    ensures ib != e ==> Untouched(t0, t, Next(|t|, ib), e) && Untouched(t0, t[ib := b], Next(|t|, ib), e)
    ensures ib != e ==> Gap(|t|, Next(|t|, ib), e) < Gap(|t|, ib, e)
  {
  }

  /** insert_value: put the value into `ib`, carry the displaced value on, and so on until an empty bucket.
      `far` reports that a carried value displaced another one at 128 or more probes. */
  method InsertValue<K(==, !new), V>(hash: K -> nat, t0: Table<K, V>, ib0: nat, dist0: nat, key0: K, value0: V,
                                     ghost m: map<K, V>, ghost e: nat)
    returns (t: Table<K, V>, far: bool)
    requires TableInv(hash, t0) && Owes(t0, m, key0, value0)
    requires Insertable(hash, t0, key0, ib0, dist0) && t0[ib0].Full? && t0[ib0].dist < dist0
    requires e < |t0| && t0[e].Empty?
    ensures |t| == |t0| && TableInv(hash, t) && Represents(t, m)
    ensures far <==> FarMove(t0, t, key0)
  {
    hide Home, TableInv, Represents, Insertable, Placed, FarMove, Untouched, Gap;
    var n := |t0|;
    InsertableInRange(hash, t0, key0, ib0, dist0, e);
    OwesApart(t0, m, key0, value0);
    FarNone(t0, ib0, key0, value0, dist0);
    UntouchedStart(t0, ib0, e, Full(key0, value0, dist0));
    WriteKeepsInv(hash, t0, key0, value0, ib0, dist0);
    WriteKeepsContents(t0, m, key0, value0, ib0, dist0);
    t, far := t0[ib0 := Full(key0, value0, dist0)], false;
    var key, value := t0[ib0].key, t0[ib0].value;
    var ib: nat, dist: nat := Next(n, ib0), t0[ib0].dist + 1;
    while t[ib].Full?
      invariant |t| == n && TableInv(hash, t) && Owes(t, m, key, value)
      invariant ib < n && Insertable(hash, t, key, ib, dist) && t[e].Empty?
      invariant Untouched(t0, t, ib, e) && key != key0 && (far <==> FarMove(t0, t, key0))
      decreases Gap(n, ib, e)
    {
      InsertableInRange(hash, t, key, ib, dist, e);
      UntouchedStep(t0, t, ib, e, Full(key, value, dist));
      if dist > t[ib].dist {
        FarStep(t0, t, key0, ib, Full(key, value, dist));
        if dist >= FAR_PROBES {
          far := true;
        }
        WriteKeepsInv(hash, t, key, value, ib, dist);
        WriteKeepsContents(t, m, key, value, ib, dist);
        var b := t[ib];
        t := t[ib := Full(key, value, dist)];
        key, value, dist := b.key, b.value, b.dist;
      } else {
        StepOn(hash, t, key, ib, dist);
      }
      ib, dist := Next(n, ib), dist + 1;
    }
    InsertableInRange(hash, t, key, ib, dist, e);
    WriteKeepsInv(hash, t, key, value, ib, dist);
    WriteKeepsContents(t, m, key, value, ib, dist);
    UntouchedStep(t0, t, ib, e, t[ib]);
    FarStep(t0, t, key0, ib, Full(key, value, dist));
    t := t[ib := Full(key, value, dist)];
  }

  /** The end of insert_impl: fill an empty bucket or displace the value in it. */
  method PutNew<K(==, !new), V>(hash: K -> nat, t0: Table<K, V>, ib: nat, dist: nat, key: K, value: V,
                                ghost m: map<K, V>)
    returns (t: Table<K, V>, far: bool)
    requires TableInv(hash, t0) && Represents(t0, m) && key !in m && |m| < |t0|
    requires Insertable(hash, t0, key, ib, dist) && D(t0[ib]) < dist
    ensures |t| == |t0| && TableInv(hash, t) && Represents(t, m[key := value])
    ensures far <==> FarMove(t0, t, key)
  {
    hide TableInv, Represents, Home, FarMove;
    ghost var m' := m[key := value];
    assert m' - {key} == m;
    ghost var e := EmptyExists(t0, m);
    if t0[ib].Empty? {
      InsertableInRange(hash, t0, key, ib, dist, e);
      WriteKeepsInv(hash, t0, key, value, ib, dist);
      WriteKeepsContents(t0, m', key, value, ib, dist);
      FarNone(t0, ib, key, value, dist);
      t, far := t0[ib := Full(key, value, dist)], false;
    } else {
      t, far := InsertValue(hash, t0, ib, dist, key, value, m', e);
    }
  }

  /** Passing a bucket that is at least as far from its ideal bucket. */
  lemma StepOn<K, V>(hash: K -> nat, t: Table<K, V>, key: K, ib: nat, dist: nat)
    requires Insertable(hash, t, key, ib, dist) && dist < |t| && t[ib].Full? && dist <= t[ib].dist
    ensures Insertable(hash, t, key, Next(|t|, ib), dist + 1)
  {
    hide Home;
  }

  /** insert_value_on_rehash: the same displacement, started at the ideal bucket of a key known to be new. */
  method InsertOnRehash<K(==, !new), V>(hash: K -> nat, t0: Table<K, V>, key0: K, value0: V, ghost m: map<K, V>,
                                        ghost e: nat)
    returns (t: Table<K, V>)
    requires TableInv(hash, t0) && Owes(t0, m, key0, value0) && e < |t0| && t0[e].Empty?
    ensures |t| == |t0| && TableInv(hash, t) && Represents(t, m)
  {
    hide Home, TableInv, Represents, Placed;
    t := t0;
    var n, key, value := |t0|, key0, value0;
    var ib: nat, dist: nat := Home(hash, n, key), 0;
    while true
      invariant |t| == n && TableInv(hash, t) && Owes(t, m, key, value)
      invariant ib < n && Insertable(hash, t, key, ib, dist) && t[e].Empty?
      decreases Gap(n, ib, e)
    {
      InsertableInRange(hash, t, key, ib, dist, e);
      if dist > D(t[ib]) {
        WriteKeepsInv(hash, t, key, value, ib, dist);
        WriteKeepsContents(t, m, key, value, ib, dist);
        var b := t[ib];
        t := t[ib := Full(key, value, dist)];
        if b.Empty? {
          return;
        }
        key, value, dist := b.key, b.value, b.dist;
      } else {
        StepOn(hash, t, key, ib, dist);
      }
      ib, dist := Next(n, ib), dist + 1;
    }
  }

  // ----- erase -----

  /** During the backward shift bucket `hole` is empty; it stands for a value at distance `g`, which is how far the
      bucket after it may still be from its ideal bucket. */
  ghost predicate ShiftInv<K, V>(hash: K -> nat, t: Table<K, V>, hole: nat, g: int) {
    && hole < |t| && t[hole].Empty? && g <= D(t[Prev(|t|, hole)]) + 1
    && (forall i :: 0 <= i < |t| ==>
          && Placed(hash, |t|, i, t[i])
          && D(t[Next(|t|, i)]) <= (if i == hole then g else D(t[i])) + 1)
  }

  lemma ShiftStep<K, V>(hash: K -> nat, t: Table<K, V>, hole: nat, g: int)
    requires ShiftInv(hash, t, hole, g) && Next(|t|, hole) != hole && D(t[Next(|t|, hole)]) > 0
    ensures var i := Next(|t|, hole);
            ShiftInv(hash, t[hole := t[i].(dist := t[i].dist - 1)][i := Empty], i, t[i].dist)
  {
    hide Home;
    var n, i := |t|, Next(|t|, hole);
    var t' := t[hole := t[i].(dist := t[i].dist - 1)][i := Empty];
    assert Placed(hash, n, i, t[i]);
    forall k | 0 <= k < n
      ensures Placed(hash, n, k, t'[k]) && D(t'[Next(n, k)]) <= (if k == i then t[i].dist else D(t'[k])) + 1
    {
      assert Placed(hash, n, k, t[k]) && D(t[Next(n, k)]) <= (if k == hole then g else D(t[k])) + 1;
      if Next(n, k) == hole {
        assert k == Prev(n, hole);
      }
    }
  }

  lemma MoveKeepsContents<K(!new), V>(t: Table<K, V>, m: map<K, V>, hole: nat, i: nat, d: nat)
    requires hole < |t| && i < |t| && hole != i && t[hole].Empty? && t[i].Full? && Represents(t, m)
    ensures Represents(t[hole := t[i].(dist := d)][i := Empty], m)
  {
    var t' := t[hole := t[i].(dist := d)][i := Empty];
    forall k | k in m
      ensures exists j :: 0 <= j < |t'| && t'[j].Full? && t'[j].key == k
    {
      var j :| 0 <= j < |t| && t[j].Full? && t[j].key == k;
      assert t'[if j == i then hole else j].key == k;
    }
  }

  lemma ClearStart<K(!new), V>(hash: K -> nat, t: Table<K, V>, m: map<K, V>, pos: nat)
    requires TableInv(hash, t) && Represents(t, m) && pos < |t| && t[pos].Full?
    ensures |t| > 1 ==> ShiftInv(hash, t[pos := Empty], pos, t[pos].dist)
    ensures Represents(t[pos := Empty], m - {t[pos].key})
  {
    hide Home;
    var t' := t[pos := Empty];
    var n := |t|;
    assert Placed(hash, n, pos, t[pos]);
    if n > 1 {
      forall i | 0 <= i < n
        ensures Placed(hash, n, i, t'[i]) && D(t'[Next(n, i)]) <= (if i == pos then t[pos].dist else D(t'[i])) + 1
      {
        assert Placed(hash, n, i, t[i]) && D(t[Next(n, i)]) <= D(t[i]) + 1;
      }
      assert D(t[Next(n, Prev(n, pos))]) <= D(t[Prev(n, pos)]) + 1;
    }
    forall k | k in m - {t[pos].key}
      ensures exists j :: 0 <= j < |t'| && t'[j].Full? && t'[j].key == k
    {
      var j :| 0 <= j < n && t[j].Full? && t[j].key == k;
      assert t'[j].Full?;
    }
  }

  lemma ShiftDone<K, V>(hash: K -> nat, t: Table<K, V>, hole: nat, g: int)
    requires ShiftInv(hash, t, hole, g) && D(t[Next(|t|, hole)]) <= 0
    ensures TableInv(hash, t)
  {
    hide Home;
    forall i | 0 <= i < |t|
      ensures Placed(hash, |t|, i, t[i]) && D(t[Next(|t|, i)]) <= D(t[i]) + 1
    {
      assert Placed(hash, |t|, i, t[i]) && D(t[Next(|t|, i)]) <= (if i == hole then g else D(t[i])) + 1;
    }
  }

  /** erase_from_bucket: clear the bucket and shift the following values back while that brings them closer. */
  method EraseFromBucket<K(==, !new), V>(hash: K -> nat, t0: Table<K, V>, pos: nat, ghost m: map<K, V>, ghost e: nat)
    returns (t: Table<K, V>)
    requires TableInv(hash, t0) && Represents(t0, m) && pos < |t0| && t0[pos].Full?
    requires e < |t0| && t0[e].Empty?
    ensures |t| == |t0| && TableInv(hash, t) && Represents(t, m - {t0[pos].key})
  {
    hide Home, TableInv, Represents, ShiftInv;
    var n := |t0|;
    ClearStart(hash, t0, m, pos);
    t := t0[pos := Empty];
    ghost var m', g: int := m - {t0[pos].key}, t0[pos].dist;
    var previous := pos;
    var ib := Next(n, previous);
    while D(t[ib]) > 0
      invariant |t| == n && previous < n && ib == Next(n, previous) && previous != e && t[e].Empty?
      invariant ShiftInv(hash, t, previous, g) && t[previous].Empty? && Represents(t, m')
      decreases Gap(n, previous, e)
    {
      ShiftStep(hash, t, previous, g);
      MoveKeepsContents(t, m', previous, ib, t[ib].dist - 1);
      g := t[ib].dist;
      t := t[previous := t[ib].(dist := t[ib].dist - 1)][ib := Empty];
      previous := ib;
      ib := Next(n, ib);
    }
    ShiftDone(hash, t, previous, g);
  }

  // ----- growth -----

  ghost function KeysUpTo<K(!new), V>(t: Table<K, V>, j: nat): set<K>
    requires j <= |t|
  {
    if j == 0 then {}
    else if t[j - 1].Full? then KeysUpTo(t, j - 1) + {t[j - 1].key}
    else KeysUpTo(t, j - 1)
  }

  lemma {:induction false} KeysAreIn<K(!new), V>(t: Table<K, V>, m: map<K, V>, j: nat)
    requires j <= |t| && forall i :: 0 <= i < j && t[i].Full? ==> t[i].key in m
    ensures KeysUpTo(t, j) <= m.Keys
  {
    if j > 0 {
      KeysAreIn(t, m, j - 1);
    }
  }

  lemma {:induction false} KeyNotIn<K(!new), V>(t: Table<K, V>, j: nat, k: K)
    requires j <= |t| && forall i :: 0 <= i < j && t[i].Full? ==> t[i].key != k
    ensures k !in KeysUpTo(t, j)
  {
    if j > 0 {
      KeyNotIn(t, j - 1, k);
    }
  }

  lemma {:induction false} FullBuckets<K(!new), V>(t: Table<K, V>, j: nat)
    requires j <= |t| && forall i :: 0 <= i < j ==> t[i].Full?
    requires forall i, k :: 0 <= i < k < j ==> t[i].key != t[k].key
    ensures |KeysUpTo(t, j)| == j
  {
    if j > 0 {
      FullBuckets(t, j - 1);
      KeyNotIn(t, j - 1, t[j - 1].key);
    }
  }

  /** A table with more buckets than keys has an empty bucket. */
  lemma EmptyExists<K(!new), V>(t: Table<K, V>, m: map<K, V>) returns (e: nat)
    requires Represents(t, m) && |m| < |t|
    ensures e < |t| && t[e].Empty?
  {
    if forall i :: 0 <= i < |t| ==> t[i].Full? {
      FullBuckets(t, |t|);
      KeysAreIn(t, m, |t|);
      CardSubset(KeysUpTo(t, |t|), m.Keys);
      assert false;
    }
    e :| 0 <= e < |t| && t[e].Empty?;
  }

  /** The part of the map stored in the first `i` buckets. */
  ghost function Prefix<K(!new), V>(t: Table<K, V>, i: nat): (r: map<K, V>)
    requires i <= |t|
  {
    if i == 0 then map[]
    else if t[i - 1].Full? then Prefix(t, i - 1)[t[i - 1].key := t[i - 1].value]
    else Prefix(t, i - 1)
  }

  lemma {:induction false} PrefixOk<K(!new), V>(t: Table<K, V>, m: map<K, V>, i: nat)
    requires Represents(t, m) && i <= |t|
    ensures var p := Prefix(t, i);
            && p.Keys <= m.Keys && (forall k :: k in p ==> p[k] == m[k])
            && (forall j :: i <= j < |t| && t[j].Full? ==> t[j].key !in p)
            && (forall j :: 0 <= j < i && t[j].Full? ==> t[j].key in p)
  {
    if i > 0 {
      PrefixOk(t, m, i - 1);
    }
  }

  lemma PrefixAll<K(!new), V>(t: Table<K, V>, m: map<K, V>)
    requires Represents(t, m)
    ensures Prefix(t, |t|) == m
  {
    PrefixOk(t, m, |t|);
  }

  lemma EmptyTable<K(!new), V>(hash: K -> nat, t: Table<K, V>)
    requires forall i :: 0 <= i < |t| ==> t[i].Empty?
    ensures TableInv(hash, t) && Represents(t, map[])
  {
  }

  /** rehash_impl: reinsert every value into a table of `count` empty buckets. */
  method Rehash<K(==, !new), V>(hash: K -> nat, t0: Table<K, V>, count: nat, ghost m: map<K, V>)
    returns (t: Table<K, V>)
    requires Represents(t0, m) && (|m| < count || m == map[])
    ensures |t| == count && TableInv(hash, t) && Represents(t, m)
  {
    t := seq(count, _ => Empty);
    EmptyTable(hash, t);
    PrefixAll(t0, m);
    hide TableInv, Represents;
    for i := 0 to |t0|
      invariant |t| == count && TableInv(hash, t) && Represents(t, Prefix(t0, i))
    {
      if t0[i].Full? {
        PrefixOk(t0, m, i);
        var key, value := t0[i].key, t0[i].value;
        ghost var next := Prefix(t0, i + 1);
        assert next - {key} == Prefix(t0, i);
        PrefixOk(t0, m, i + 1);
        CardSubset(Prefix(t0, i).Keys, m.Keys);
        ghost var e := EmptyExists(t, Prefix(t0, i));
        t := InsertOnRehash(hash, t, key, value, next, e);
      }
    }
  }

  /** round_up_to_power_of_two of a positive count. */
  function RoundUp(count: nat): (r: nat)
    requires count > 0
    ensures count <= r < 2 * count
  {
    if count == 1 then 1 else 2 * RoundUp((count + 1) / 2)
  }

  predicate PowerOfTwo(n: nat) {
    n == 1 || (n > 0 && n % 2 == 0 && PowerOfTwo(n / 2))
  }

  /** Rounding up gives a power of two; no smaller one will do, as half of it is below the count. */
  lemma {:induction false} RoundUpPower(count: nat)
    requires count > 0
    ensures PowerOfTwo(RoundUp(count)) && RoundUp(count) < 2 * count
  {
    if count > 1 {
      RoundUpPower((count + 1) / 2);
      Doubled(RoundUp((count + 1) / 2));
    }
  }

  lemma Doubled(n: nat)
    requires PowerOfTwo(n)
    ensures PowerOfTwo(2 * n)
  {
    assert 2 * n / 2 == n && 2 * n % 2 == 0;
  }

  /** m_load_threshold: the element count at which the next insert grows the table, the largest one within the load
      factor. */
  function Threshold(n: nat, factor: real): (r: nat)
    requires 0.1 <= factor <= 0.95
    ensures if n == 0 then r == 0 else r < n
    ensures r as real <= n as real * factor < (r + 1) as real
  {
    assert n > 0 ==> n as real * (1.0 - factor) > 0.0;
    (n as real * factor).Floor
  }

  /** ceil(size / max_load_factor): the fewest buckets that hold `size` elements. */
  function BucketsFor(size: nat, factor: real): (r: nat)
    requires 0.1 <= factor <= 0.95
    ensures if size == 0 then r == 0 else size < r
    ensures size as real <= r as real * factor
  {
    var q := size as real / factor;
    assert q * factor == size as real;
    assert size > 0 ==> q > size as real;
    if size == 0 then 0 else -((-q).Floor)
  }

  /** One bucket less would not do. */
  lemma BucketsLeast(size: nat, factor: real)
    requires 0.1 <= factor <= 0.95 && size > 0
    ensures (BucketsFor(size, factor) - 1) as real * factor < size as real
  {
    var q := size as real / factor;
    assert q * factor == size as real;
    Scaled((BucketsFor(size, factor) - 1) as real, q, factor, size as real);
  }

  lemma Scaled(a: real, b: real, factor: real, c: real)
    requires a < b && 0.0 < factor && b * factor == c
    ensures a * factor < c
  {
    assert (b - a) * factor > 0.0;
  }

  lemma LoadFits(size: nat, factor: real, n: nat)
    requires 0.1 <= factor <= 0.95 && BucketsFor(size, factor) <= n
    ensures size as real <= n as real * factor
  {
    assert (n - BucketsFor(size, factor)) as real * factor >= 0.0;
  }

  // ----- the table object -----

  /** load_factor: 0 for a table without buckets. */
  function LoadFactor(count: nat, n: nat): real {
    if n == 0 then 0.0 else count as real / n as real
  }

  class RobinMap<K(==, !new), V> {
    const hash: K -> nat
    var buckets: Table<K, V>
    var nbElements: nat
    var loadThreshold: nat
    var maxLoadFactor: real
    var growOnNextInsert: bool
    ghost var contents: map<K, V>

    ghost predicate Valid()
      reads this
    {
      && TableInv(hash, buckets) && Represents(buckets, contents)
      && nbElements == |contents|
      && (if |buckets| == 0 then nbElements == 0 else nbElements < |buckets|)
      && 0.1 <= maxLoadFactor <= 0.95
      && loadThreshold == Threshold(|buckets|, maxLoadFactor)
    }

    /** A table with room for `count` buckets; the load factor is clamped to [0.1, 0.95]. */
    constructor (hash: K -> nat, count: nat, loadFactor: real)
      ensures Valid() && contents == map[] && this.hash == hash
    {
      this.hash := hash;
      hide TableInv, Represents, Threshold, RoundUp;
      buckets := seq(if count == 0 then 0 else RoundUp(count), _ => Empty);
      nbElements, growOnNextInsert, contents := 0, false, map[];
      maxLoadFactor := if loadFactor < 0.1 then 0.1 else if loadFactor > 0.95 then 0.95 else loadFactor;
      new;
      loadThreshold := Threshold(|buckets|, maxLoadFactor);
      EmptyTable(hash, buckets);
    }

    method Find(key: K) returns (r: Option<V>)
      requires Valid()
      ensures r == if key in contents then Some(contents[key]) else None
    {
      var found, ib, dist := Probe(hash, buckets, key, contents);
      if found {
        return Some(buckets[ib].value);
      }
      return None;
    }

    method Erase(key: K) returns (count: nat)
      requires Valid()
      modifies this
      ensures Valid() && contents == old(contents) - {key}
      ensures count == if key in old(contents) then 1 else 0
    {
      hide TableInv, Represents, Threshold, Insertable;
      var found, ib, dist := Probe(hash, buckets, key, contents);
      if !found {
        assert contents - {key} == contents;
        return 0;
      }
      ghost var e := EmptyExists(buckets, contents);
      buckets := EraseFromBucket(hash, buckets, ib, contents, e);
      nbElements := nbElements - 1;
      contents := contents - {key};
      return 1;
    }

    method RehashImpl(count: nat)
      requires TableInv(hash, buckets) && Represents(buckets, contents) && nbElements == |contents|
      requires 0.1 <= maxLoadFactor <= 0.95 && (|contents| < count || contents == map[])
      modifies this
      ensures Valid() && contents == old(contents) && maxLoadFactor == old(maxLoadFactor)
      ensures |buckets| == (if count == 0 then 0 else RoundUp(count)) && !growOnNextInsert
    {
      hide TableInv, Represents, Threshold, RoundUp;
      var n := if count == 0 then 0 else RoundUp(count);
      buckets := Rehash(hash, buckets, n, contents);
      loadThreshold := Threshold(n, maxLoadFactor);
      growOnNextInsert := false;
    }

    /** rehash: never shrinks below what the load factor needs. */
    method RehashTo(count: nat)
      requires Valid()
      modifies this
      ensures Valid() && contents == old(contents) && count <= |buckets| && maxLoadFactor == old(maxLoadFactor)
      ensures |contents| as real <= |buckets| as real * maxLoadFactor
      ensures var least := BucketsFor(|contents|, maxLoadFactor); var n := if count < least then least else count;
              |buckets| == if n == 0 then 0 else RoundUp(n)
    {
      hide BucketsFor, RoundUp, TableInv, Represents;
      var least := BucketsFor(nbElements, maxLoadFactor);
      RehashImpl(if count < least then least else count);
      LoadFits(nbElements, maxLoadFactor, |buckets|);
    }

    /** try_emplace: a key already present keeps its value. The next insert is told to grow exactly if, in the table
        `before` that the new value went into, a value was displaced at 128 or more probes by another one than the new
        value while the table was loaded to at least 0.15. */
    method TryEmplace(key: K, value: V) returns (inserted: bool, ghost before: Table<K, V>)
      requires Valid()
      modifies this
      ensures Valid()
      ensures inserted <==> key !in old(contents)
      ensures contents == if inserted then old(contents)[key := value] else old(contents)
      ensures |buckets| == if inserted && (old(growOnNextInsert) || old(nbElements) >= old(loadThreshold))
                           then RoundUp(2 * if |old(buckets)| == 0 then 1 else |old(buckets)|) else |old(buckets)|
      ensures |before| == |buckets| && Represents(before, old(contents))
      ensures !inserted || (!old(growOnNextInsert) && old(nbElements) < old(loadThreshold)) ==> before == old(buckets)
      ensures !inserted ==> growOnNextInsert == old(growOnNextInsert) && buckets == old(buckets)
      ensures inserted ==>
                growOnNextInsert == (FarMove(before, buckets, key) && LoadFactor(old(nbElements), |buckets|) >= 0.15)
    {
      hide TableInv, Represents, Threshold, Insertable, RoundUp, FarMove;
      before := buckets;
      var found, ib, dist := Probe(hash, buckets, key, contents);
      if found {
        return false, buckets;
      }
      if growOnNextInsert || nbElements >= loadThreshold {
        // grow_on_high_load; the policy of an empty table has mask 0, so it asks for 2 buckets
        RehashImpl(2 * if |buckets| == 0 then 1 else |buckets|);
        found, ib, dist := Probe(hash, buckets, key, contents);
        before := buckets;
      }
      var far;
      buckets, far := PutNew(hash, buckets, ib, dist, key, value, contents);
      if far && LoadFactor(nbElements, |buckets|) >= 0.15 {
        growOnNextInsert := true;
      }
      nbElements := nbElements + 1;
      contents := contents[key := value];
      return true, before;
    }
  }
}
