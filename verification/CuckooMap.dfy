/** The cuckoo hash map as its users see it. */
module CuckooMapModel {
  import opened Wrappers
  import opened CuckooIndex
  import opened CuckooTable
  import opened CuckooPath

  /** Sum of the per-lock element counters. */
  function Sum(c: seq<int>): (r: int) {
    if c == [] then 0 else Sum(c[..|c| - 1]) + c[|c| - 1]
  }

  lemma {:induction false} SumUpdate(c: seq<int>, l: nat, d: int)
    requires l < |c|
    ensures Sum(c[l := c[l] + d]) == Sum(c) + d
  {
    var n := |c| - 1;
    var c' := c[l := c[l] + d];
    if l == n {
      assert c'[..n] == c[..n];
    } else {
      assert c'[..n] == c[..n][l := c[..n][l] + d];
      SumUpdate(c[..n], l, d);
    }
  }

  lemma {:induction false} SumZeros(c: seq<int>, k: nat)
    ensures Sum(c + seq(k, _ => 0)) == Sum(c)
    decreases k
  {
    var s := c + seq(k, _ => 0);
    if k == 0 {
      assert s == c;
    } else {
      assert s[..|s| - 1] == c + seq(k - 1, _ => 0);
      SumZeros(c, k - 1);
    }
  }

  lemma EmptyTableOk<K(!new), V>(hash: K -> nat, t: Table<K, V>)
    requires t == Table(t.hp, VacantBuckets(Pow2(t.hp)), [], seq(NumLocks(t.hp), _ => true))
    ensures Inv(hash, t, map[])
  {
    hide Pow2, NumLocks;
    assert forall p: Pos :: Get(t, p).Vacant?;
  }

  lemma InvRange<K(!new), V>(hash: K -> nat, t: Table<K, V>, m: map<K, V>)
    requires Inv(hash, t, m)
    ensures Shaped(t) && |t.buckets| == Pow2(t.hp) && forall i :: 0 <= i < |t.buckets| ==> |t.buckets[i]| == SLOTS
  {
  }

  lemma RemoveSize<K, V>(m: map<K, V>, k: K)
    ensures |m - {k}| == if k in m then |m| - 1 else |m|
    ensures k !in m ==> m - {k} == m
  {
    assert (m - {k}).Keys == m.Keys - {k};
  }

  lemma LocksGrow(hp: nat)
    ensures NumLocks(hp) <= NumLocks(hp + 1)
  {
    hide Pow2;
    Pow2Mono(if hp < LOCK_BITS then hp else LOCK_BITS, if hp + 1 < LOCK_BITS then hp + 1 else LOCK_BITS);
  }

  ghost predicate BothFull<K, V>(t: Table<K, V>, i1: nat, i2: nat) {
    && i1 < |t.buckets| && i2 < |t.buckets| && |t.buckets[i1]| == |t.buckets[i2]| == SLOTS
    && forall k :: 0 <= k < SLOTS ==> t.buckets[i1][k].Item? && t.buckets[i2][k].Item?
  }

  /** try_find_insert_bucket on both buckets: the last vacant slot of the first bucket that has one. */
  method VacantSlot<K, V>(t: Table<K, V>, i1: nat, i2: nat) returns (free: bool, i: nat, s: nat)
    requires Shaped(t) && i1 < |t.buckets| && i2 < |t.buckets|
    ensures free ==> (i == i1 || i == i2) && InRange(t, Pos(false, i, s)) && Get(t, Pos(false, i, s)).Vacant?
    ensures !free ==> BothFull(t, i1, i2)
  {
    i := i1;
    free, s := LastVacant(t.buckets[i1]);
    if !free {
      i := i2;
      free, s := LastVacant(t.buckets[i2]);
    }
  }

  method LastVacant<K, V>(b: Bucket<K, V>) returns (free: bool, s: nat)
    ensures free ==> s < |b| && b[s].Vacant? && forall k :: s < k < |b| ==> b[k].Item?
    ensures !free ==> forall k :: 0 <= k < |b| ==> b[k].Item?
  {
    free, s := false, 0;
    for i := 0 to |b|
      invariant free ==> s < i && b[s].Vacant? && forall k :: s < k < i ==> b[k].Item?
      invariant !free ==> forall k :: 0 <= k < i ==> b[k].Item?
    {
      if b[i].Vacant? {
        free, s := true, i;
      }
    }
  }

  datatype InsertStatus = Inserted | Duplicate | TableFull | Retry

  /** One round of cuckoo_insert: use a vacant slot of either bucket, else make room by moving keys along `path`, a
      cuckoo path found before, while other threads may change the table before each lock (`env`, storing `envMap`).
      The key is looked for again after the moves, so it is stored once whatever the others did. `left` is the map they
      have left, and `u` the table under the first locks; `Retry` reports that the path was stale. */
  method InsertWith<K(==, !new), V(!new)>(hash: K -> nat, t: Table<K, V>, key: K, value: V,
                                          path: Option<seq<CuckooRecord>>, env: (nat, Table<K, V>) -> Table<K, V>,
                                          ghost envMap: (nat, map<K, V>) -> map<K, V>, ghost m: map<K, V>)
    returns (status: InsertStatus, r: Table<K, V>, i: nat, ghost left: map<K, V>, ghost u: Table<K, V>)
    requires Inv(hash, t, m) && Lawful(hash, env, envMap)
    requires path.Some? ==> PathOk(t.hp, path.value, I1(t.hp, hash(key)), I2(t.hp, hash(key)))
    ensures Inv(hash, r, if status == Inserted then left[key := value] else left)
    ensures (forall n, u :: env(n, u).hp == u.hp) ==> r.hp == t.hp
    ensures status == Inserted ==> key !in left && Cand(r.hp, hash(key), i)
    ensures status == Duplicate ==> key in left
    ensures left == m || (path.Some? && SomeLeft(envMap, |path.value|, m, left))
    ensures key in m ==> status == Duplicate && left == m
    ensures Inv(hash, u, m) && u.hp == t.hp && Kept(t, u)
    ensures status in {TableFull, Retry} ==> key !in m && BothFull(u, I1(t.hp, hash(key)), I2(t.hp, hash(key)))
    ensures status == TableFull ==> path.None? && r == u
    ensures status == Retry ==> path.Some? && !(Undisturbed(env) && Ready(hash, t, path.value))
  {
    hide Inv, Pow2, LockInd, I1, I2, Lawful, PathOk, After, Kept, Current, Simple, Undisturbed, Ready;
    var h := hash(key);
    var found, s;
    left := m;
    r, found, i, s := LockAndFind(hash, t, key, m);
    u := r;
    if found {
      status := Duplicate;
      return;
    }
    InvRange(hash, t, m);
    InvRange(hash, r, m);
    if path.Some? {
      ReadyKept(hash, t, r, path.value, m);
    }
    var free;
    var i1, i2 := I1(r.hp, h), I2(r.hp, h);
    free, i, s := VacantSlot(r, i1, i2);
    if !free {
      if path.None? {
        status := TableFull;
        return;
      }
      PathSize(r.hp, path.value, i1, i2);
      ReadyIs(hash, r, path.value);
      var ok;
      ghost var d;
      ok, r, left, d := CuckooPathMove(hash, r, path.value, i1, i2, env, envMap, m);
      if !ok {
        status := Retry;
        return;
      }
      found, i, s := FindLocked(hash, r, key, i1, i2, left);
      if found {
        status := Duplicate;
        return;
      }
      i, s := path.value[0].bucket, path.value[0].slot;
    }
    InvRange(hash, r, left);
    AddKeeps(hash, r, left, key, value, Pos(false, i, s));
    status, r := Inserted, Set(r, Pos(false, i, s), Item(key, value));
  }

  lemma PathSize(hp: nat, path: seq<CuckooRecord>, i1: nat, i2: nat)
    requires PathOk(hp, path, i1, i2)
    ensures 1 <= |path| && (path[0].bucket == i1 || path[0].bucket == i2) && path[0].slot < SLOTS
  {
  }

  class CuckooMap<K(==, !new), V(!new)> {
    const hash: K -> nat
    var table: Table<K, V>
    var counters: seq<int>      // elem_counter of each lock
    ghost var contents: map<K, V>

    ghost predicate Valid()
      reads this
    {
      && Inv(hash, table, contents)
      && |counters| == NumLocks(table.hp) && Sum(counters) == |contents|
    }

    constructor (hash: K -> nat, hp: nat)
      ensures Valid() && contents == map[] && this.hash == hash
    {
      this.hash := hash;
      table := Table(hp, VacantBuckets(Pow2(hp)), [], seq(NumLocks(hp), _ => true));
      counters, contents := seq(NumLocks(hp), _ => 0), map[];
      new;
      EmptyTableOk(hash, table);
      SumZeros([], NumLocks(hp));
      assert [] + counters == counters;
    }

    /** Number of elements: the counters are per lock, but only their sum is meaningful after evictions. */
    method Size() returns (n: int)
      requires Valid()
      ensures n == |contents|
    {
      n := Sum(counters);
    }

    method Find(key: K) returns (r: Option<V>)
      requires Valid()
      modifies `table
      ensures Valid()
      ensures r == if key in contents then Some(contents[key]) else None
    {
      hide Inv, Pow2, NumLocks, Sum;
      var t, found, i, s := LockAndFind(hash, table, key, contents);
      InvRange(hash, table, contents);
      InvRange(hash, t, contents);
      table := t;
      if found {
        return Some(Get(t, Pos(false, i, s)).value);
      }
      return None;
    }

    method Erase(key: K) returns (erased: bool)
      requires Valid()
      modifies this
      ensures Valid() && contents == old(contents) - {key}
      ensures erased <==> key in old(contents)
    {
      hide Inv, Pow2, NumLocks, Sum, LockInd, Set, Shaped, Kept;
      var t, found, i, s := LockAndFind(hash, table, key, contents);
      table, erased := t, found;
      if found {
        InvRange(hash, t, contents);
        assert i < Pow2(t.hp);
        LockInRange(t.hp, i);
        RemoveKeeps(hash, t, contents, Pos(false, i, s));
        SumUpdate(counters, LockInd(i), -1);
        table := Set(t, Pos(false, i, s), Vacant);
        counters := counters[LockInd(i) := counters[LockInd(i)] - 1];
      }
      RemoveSize(contents, key);
      contents := contents - {key};
    }

    /** cuckoo_fast_double, with maybe_resize_locks carrying the counters over. */
    method Double()
      requires Valid()
      modifies this
      ensures Valid() && contents == old(contents) && table.hp == old(table.hp) + 1
    {
      hide Inv, Pow2, Sum;
      var hp := table.hp;
      table := FastDouble(hash, table, contents);
      LocksGrow(hp);
      SumZeros(counters, NumLocks(hp + 1) - NumLocks(hp));
      counters := counters + seq(NumLocks(hp + 1) - NumLocks(hp), _ => 0);
    }

    /** One round of an insert that nobody interferes with, with the counter of the bucket's lock. */
    method InsertRound(key: K, value: V, path: Option<seq<CuckooRecord>>) returns (status: InsertStatus)
      requires Valid()
      requires path.Some? ==> PathOk(table.hp, path.value, I1(table.hp, hash(key)), I2(table.hp, hash(key)))
      modifies this
      ensures Valid() && table.hp == old(table.hp)
      ensures status == Duplicate <==> key in old(contents)
      ensures status == TableFull ==> path.None?
      ensures status == Retry ==> path.Some? && !Ready(hash, old(table), path.value)
      ensures contents == if status == Inserted then old(contents)[key := value] else old(contents)
    {
      hide Inv, Pow2, NumLocks, Sum, LockInd, I1, I2, Lawful, PathOk, SomeLeft, Ready, BothFull;
      var i;
      ghost var left, u;
      ghost var m := contents;
      QuietIsLawful<K, V>(hash);
      status, table, i, left, u := InsertWith(hash, table, key, value, path, Quiet<K, V>, QuietMap<K, V>, contents);
      if left != m {
        QuietLeft(|path.value|, m, left);
      }
      if status == Inserted {
        InvRange(hash, table, left[key := value]);
        LockInRange(table.hp, i);
        SumUpdate(counters, LockInd(i), 1);
        counters := counters[LockInd(i) := counters[LockInd(i)] + 1];
        contents := contents[key := value];
      }
    }
  }
}
