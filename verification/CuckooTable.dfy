/** The cuckoo hash map's storage: two candidate buckets per key, doubling with lazy per-lock migration, and
    evictions along a path. */
module CuckooTable {
  import opened CuckooIndex

  const SLOTS: nat := 4

  datatype Slot<K, V> = Vacant | Item(key: K, value: V)

  type Bucket<K, V> = seq<Slot<K, V>>

  /** `buckets` is the current array of 2^hp buckets. After a doubling `prev` holds the previous array; the buckets of
      a lock are moved over when that lock is next taken (`migrated`), which vacates them in `prev`. */
  datatype Table<K, V> = Table(hp: nat, buckets: seq<Bucket<K, V>>, prev: seq<Bucket<K, V>>, migrated: seq<bool>)

  datatype Pos = Pos(inOld: bool, i: nat, s: nat)

  function Get<K, V>(t: Table<K, V>, p: Pos): Slot<K, V> {
    var bs := if p.inOld then t.prev else t.buckets;
    if p.i < |bs| && p.s < |bs[p.i]| then bs[p.i][p.s] else Vacant
  }

  ghost predicate InRange<K, V>(t: Table<K, V>, p: Pos) {
    var bs := if p.inOld then t.prev else t.buckets;
    p.i < |bs| && p.s < |bs[p.i]|
  }

  function Set<K, V>(t: Table<K, V>, p: Pos, x: Slot<K, V>): (r: Table<K, V>)
    requires InRange(t, p)
    ensures Get(r, p) == x && forall q: Pos :: q != p ==> Get(r, q) == Get(t, q)
    ensures r.hp == t.hp && r.migrated == t.migrated && |r.buckets| == |t.buckets| && |r.prev| == |t.prev|
    ensures Shaped(t) ==> Shaped(r)
  {
    if p.inOld then t.(prev := t.prev[p.i := t.prev[p.i][p.s := x]])
    else t.(buckets := t.buckets[p.i := t.buckets[p.i][p.s := x]])
  }

  ghost predicate Shaped<K, V>(t: Table<K, V>) {
    && |t.buckets| == Pow2(t.hp)
    && (forall i :: 0 <= i < |t.buckets| ==> |t.buckets[i]| == SLOTS)
    && (forall i :: 0 <= i < |t.prev| ==> |t.prev[i]| == SLOTS)
    && |t.migrated| == NumLocks(t.hp)
    && (if |t.prev| > 0 then t.hp > 0 && |t.prev| == Pow2(t.hp - 1)
        else forall l :: 0 <= l < |t.migrated| ==> t.migrated[l])
  }

  /** The hash power that governs a position: one less for the previous array. */
  function HpAt<K, V>(t: Table<K, V>, p: Pos): nat {
    if p.inOld && t.hp > 0 then t.hp - 1 else t.hp
  }

  /** Every key sits in one of its two candidate buckets. */
  ghost predicate Placed<K, V>(hash: K -> nat, t: Table<K, V>) {
    forall p: Pos :: Get(t, p).Item? ==> Cand(HpAt(t, p), hash(Get(t, p).key), p.i)
  }

  /** The table stores exactly `m`, each key at one position. */
  ghost predicate Stores<K(!new), V>(t: Table<K, V>, m: map<K, V>) {
    && (forall p: Pos :: Get(t, p).Item? ==> Get(t, p).key in m && m[Get(t, p).key] == Get(t, p).value)
    && (forall k :: k in m ==> exists p: Pos :: Get(t, p).Item? && Get(t, p).key == k)
    && (forall p: Pos, q: Pos :: Get(t, p).Item? && Get(t, q).Item? && Get(t, p).key == Get(t, q).key ==> p == q)
  }

  predicate AllVacant<K, V>(b: Bucket<K, V>) {
    forall s :: 0 <= s < |b| ==> b[s].Vacant?
  }

  /** An old bucket of a migrated lock is empty, and one still in use has untouched target buckets. */
  ghost predicate BucketPending<K, V>(t: Table<K, V>, i: nat)
    requires Shaped(t) && i < |t.prev|
  {
    HalfSize(t);
    LockInRange(t.hp, i);
    && (t.migrated[LockInd(i)] ==> AllVacant(t.prev[i]))
    && (!AllVacant(t.prev[i]) ==> AllVacant(t.buckets[i]) && AllVacant(t.buckets[i + |t.prev|]))
  }

  ghost predicate Migrating<K, V>(t: Table<K, V>)
    requires Shaped(t)
  {
    forall i :: 0 <= i < |t.prev| ==> BucketPending(t, i)
  }

  lemma HalfSize<K, V>(t: Table<K, V>)
    requires Shaped(t) && |t.prev| > 0
    ensures t.hp > 0 && |t.buckets| == 2 * |t.prev| && |t.prev| == Pow2(t.hp - 1)
  {
    hide NumLocks;
  }

  ghost predicate Core<K(!new), V>(hash: K -> nat, t: Table<K, V>, m: map<K, V>) {
    Shaped(t) && Placed(hash, t) && Stores(t, m) && Migrating(t)
  }

  /** The table invariant, with `m` as the map stored: migration is only lazy when every lock has buckets to spare. */
  ghost predicate Inv<K(!new), V>(hash: K -> nat, t: Table<K, V>, m: map<K, V>) {
    Core(hash, t, m) && (|t.prev| > 0 ==> LOCK_BITS < t.hp)
  }

  // ----- moving one item -----

  function Moved<K, V>(t: Table<K, V>, p: Pos, q: Pos): (r: Table<K, V>)
    requires InRange(t, p) && InRange(t, q)
  {
    Set(Set(t, q, Get(t, p)), p, Vacant)
  }

  /** Moving an item to a vacant slot of a bucket it may be in changes neither the map nor the placement rule. */
  lemma Relocate<K(!new), V>(hash: K -> nat, t: Table<K, V>, m: map<K, V>, p: Pos, q: Pos)
    requires Shaped(t) && Placed(hash, t) && Stores(t, m)
    requires InRange(t, p) && InRange(t, q) && Get(t, p).Item? && Get(t, q).Vacant?
    requires Cand(HpAt(t, q), hash(Get(t, p).key), q.i)
    ensures var r := Moved(t, p, q);
            && Shaped(r) && Placed(hash, r) && Stores(r, m) && r.hp == t.hp && r.migrated == t.migrated
            && Get(r, q) == Get(t, p) && Get(r, p).Vacant?
            && (forall x: Pos :: x != p && x != q ==> Get(r, x) == Get(t, x))
  {
    hide Cand, Set, Shaped;
    var t1 := Set(t, q, Get(t, p));
    var r := Moved(t, p, q);
    SetInRange(t, q, Get(t, p), p);
    assert p != q;
    forall k | k in m
      ensures exists x: Pos :: Get(r, x).Item? && Get(r, x).key == k
    {
      var x: Pos :| Get(t, x).Item? && Get(t, x).key == k;
      var y := if x == p then q else x;
      assert Get(r, y).key == k;
    }
  }

  lemma SetInRange<K, V>(t: Table<K, V>, p: Pos, x: Slot<K, V>, q: Pos)
    requires InRange(t, p) && InRange(t, q)
    ensures InRange(Set(t, p, x), q)
  {
  }

  // ----- migration -----

  /** Buckets other than `i` of the previous array and its two targets are as in `t`. */
  ghost predicate OnlyBucket<K, V>(t: Table<K, V>, r: Table<K, V>, i: nat) {
    && r.hp == t.hp && r.migrated == t.migrated && |r.buckets| == |t.buckets| && |r.prev| == |t.prev|
    && (forall j :: 0 <= j < |t.buckets| && j != i && j != i + |t.prev| ==> r.buckets[j] == t.buckets[j])
    && (forall j :: 0 <= j < |t.prev| && j != i ==> r.prev[j] == t.prev[j])
  }

  /** Progress of move_bucket on bucket `i`: slots below `s` are moved, `c` of them to the upper target. */
  ghost predicate Moving<K, V>(t: Table<K, V>, r: Table<K, V>, i: nat, s: nat, c: nat) {
    && i < |t.prev| && Shaped(t) && Shaped(r) && OnlyBucket(t, r, i) && c <= s <= SLOTS
    && (forall k :: 0 <= k < s ==> r.prev[i][k].Vacant?)
    && VacantFrom(r.buckets[i], s) && VacantFrom(r.buckets[i + |t.prev|], c)
  }

  ghost predicate VacantFrom<K, V>(b: Bucket<K, V>, c: nat) {
    forall k :: c <= k < |b| ==> b[k].Vacant?
  }

  lemma MoveSlot<K(!new), V>(hash: K -> nat, t: Table<K, V>, r: Table<K, V>, m: map<K, V>, i: nat, s: nat, c: nat)
    requires Shaped(t) && Moving(t, r, i, s, c) && s < SLOTS && r.prev[i][s].Item?
    requires Placed(hash, r) && Stores(r, m)
    ensures var j := NewHome(t.hp - 1, hash(r.prev[i][s].key), i);
            var q := if j == i then Pos(false, i, s) else Pos(false, j, c);
            && InRange(r, Pos(true, i, s)) && InRange(r, q)
            && var r' := Moved(r, Pos(true, i, s), q);
               Moving(t, r', i, s + 1, if j == i then c else c + 1) && Placed(hash, r') && Stores(r', m)
  {
    hide Cand, NewHome, Pow2, LockInd;
    var p := Pos(true, i, s);
    assert Get(r, p) == r.prev[i][s];
    var h := hash(r.prev[i][s].key);
    assert Cand(HpAt(r, p), h, i);
    NewHomeIsCand(t.hp - 1, h, i);
    HalfSize(t);
    var j := NewHome(t.hp - 1, h, i);
    var q := if j == i then Pos(false, i, s) else Pos(false, j, c);
    Relocate(hash, r, m, p, q);
  }

  /** move_bucket: every key of old bucket `i` goes to bucket `i` or to bucket `i + 2^(hp-1)`. */
  method MoveBucket<K(!new), V>(hash: K -> nat, t: Table<K, V>, i: nat, ghost m: map<K, V>) returns (r: Table<K, V>)
    requires Core(hash, t, m) && i < |t.prev|
    ensures Core(hash, r, m) && OnlyBucket(t, r, i) && AllVacant(r.prev[i])
  {
    r := t;
    if AllVacant(t.prev[i]) {
      return;
    }
    StartMoving(t, i);
    hide Placed, Stores, Pow2, LockInd, Shaped, Migrating, NewHome;
    var c: nat := 0;
    for s := 0 to SLOTS
      invariant Moving(t, r, i, s, c) && Placed(hash, r) && Stores(r, m)
    {
      if r.prev[i][s].Item? {
        MoveSlot(hash, t, r, m, i, s, c);
        var j := NewHome(t.hp - 1, hash(r.prev[i][s].key), i);
        if j == i {
          r := Moved(r, Pos(true, i, s), Pos(false, i, s));
        } else {
          r := Moved(r, Pos(true, i, s), Pos(false, j, c));
          c := c + 1;
        }
      } else {
        SkipSlot(t, r, i, s, c);
      }
    }
    DoneMoving(t, r, i, c);
  }

  lemma StartMoving<K, V>(t: Table<K, V>, i: nat)
    requires Shaped(t) && Migrating(t) && i < |t.prev| && !AllVacant(t.prev[i])
    ensures Moving(t, t, i, 0, 0)
  {
    hide Pow2, LockInd;
    assert BucketPending(t, i);
  }

  lemma SkipSlot<K, V>(t: Table<K, V>, r: Table<K, V>, i: nat, s: nat, c: nat)
    requires Moving(t, r, i, s, c) && s < SLOTS && r.prev[i][s].Vacant?
    ensures Moving(t, r, i, s + 1, c)
  {
    hide Pow2, LockInd;
  }

  lemma DoneMoving<K, V>(t: Table<K, V>, r: Table<K, V>, i: nat, c: nat)
    requires Moving(t, r, i, SLOTS, c) && Migrating(t)
    ensures Shaped(r) && Migrating(r) && AllVacant(r.prev[i])
  {
    assert AllVacant(r.prev[i]);
    OtherBuckets(t, r, i);
  }

  lemma OtherBuckets<K, V>(t: Table<K, V>, r: Table<K, V>, i: nat)
    requires Shaped(t) && Shaped(r) && OnlyBucket(t, r, i) && Migrating(t) && i < |t.prev| && AllVacant(r.prev[i])
    ensures Migrating(r)
  {
    HalfSize(t);
    hide Pow2, LockInd, AllVacant;
    forall j | 0 <= j < |r.prev|
      ensures BucketPending(r, j)
    {
      assert BucketPending(t, j);
    }
  }

  /** rehash_lock: move every old bucket of lock `l`; only buckets under that lock are touched. */
  method RehashLock<K(!new), V>(hash: K -> nat, t: Table<K, V>, l: nat, ghost m: map<K, V>) returns (r: Table<K, V>)
    requires Inv(hash, t, m) && l < |t.migrated|
    ensures Inv(hash, r, m) && r.migrated == t.migrated[l := true]
    ensures OnlyLock(t, r, l) && (t.migrated[l] ==> r == t)
  {
    hide Placed, Stores, Pow2, Low, LockInd, Migrating, Shaped, AllVacant;
    r := t;
    if t.migrated[l] {
      return;
    }
    var step := Pow2(LOCK_BITS);
    LockOfLock(t, l);
    var i := l;
    while i < |t.prev|
      invariant Inv(hash, r, m) && r.migrated == t.migrated && OnlyLock(t, r, l)
      invariant LockInd(i) == l
      invariant forall j :: 0 <= j < i && j < |r.prev| && LockInd(j) == l ==> AllVacant(r.prev[j])
    {
      r := MoveBucketOfLock(hash, t, r, l, i, m);
      LockStride(i);
      i := i + step;
    }
    LockMigrated(hash, r, m, l);
    r := r.(migrated := r.migrated[l := true]);
  }

  /** `r` differs from `t` only in buckets guarded by lock `l`. */
  ghost predicate OnlyLock<K, V>(t: Table<K, V>, r: Table<K, V>, l: nat) {
    && r.hp == t.hp && |r.buckets| == |t.buckets| && |r.prev| == |t.prev|
    && (forall j :: 0 <= j < |t.buckets| && LockInd(j) != l ==> r.buckets[j] == t.buckets[j])
    && (forall j :: 0 <= j < |t.prev| && LockInd(j) != l ==> r.prev[j] == t.prev[j])
  }

  method MoveBucketOfLock<K(!new), V>(hash: K -> nat, ghost t: Table<K, V>, r0: Table<K, V>, l: nat, i: nat,
                                      ghost m: map<K, V>)
    returns (r: Table<K, V>)
    requires Inv(hash, r0, m) && i < |r0.prev| && LockInd(i) == l && OnlyLock(t, r0, l)
    requires forall j :: 0 <= j < i && LockInd(j) == l ==> AllVacant(r0.prev[j])
    ensures Inv(hash, r, m) && OnlyLock(t, r, l) && r.migrated == r0.migrated
    ensures forall j :: 0 <= j <= i && LockInd(j) == l ==> AllVacant(r.prev[j])
  {
    hide Placed, Stores, Pow2, LockInd, Migrating, AllVacant;
    r := MoveBucket(hash, r0, i, m);
    HalfSize(r0);
    SameLock(r0.hp - 1, i);
  }

  lemma LockOfLock<K, V>(t: Table<K, V>, l: nat)
    requires Shaped(t) && (|t.prev| > 0 ==> LOCK_BITS < t.hp) && l < |t.migrated| && !t.migrated[l]
    ensures LockInd(l) == l && forall j :: 0 <= j < l ==> LockInd(j) != l
  {
    hide Pow2;
    assert |t.migrated| == Pow2(LOCK_BITS);
    forall j | 0 <= j <= l
      ensures LockInd(j) == j
    {
      LowId(LOCK_BITS, j);
    }
  }

  lemma LockMigrated<K(!new), V>(hash: K -> nat, r: Table<K, V>, m: map<K, V>, l: nat)
    requires Inv(hash, r, m) && l < |r.migrated|
    requires forall j :: 0 <= j < |r.prev| && LockInd(j) == l ==> AllVacant(r.prev[j])
    ensures Inv(hash, r.(migrated := r.migrated[l := true]), m)
  {
    var r' := r.(migrated := r.migrated[l := true]);
    SameCells(hash, r, r', m);
    hide Pow2, LockInd, AllVacant, Placed, Stores;
    forall j | 0 <= j < |r.prev|
      ensures BucketPending(r', j)
    {
      assert BucketPending(r, j);
    }
  }

  lemma SameCells<K(!new), V>(hash: K -> nat, t: Table<K, V>, r: Table<K, V>, m: map<K, V>)
    requires r.hp == t.hp && r.buckets == t.buckets && r.prev == t.prev && Placed(hash, t) && Stores(t, m)
    ensures Placed(hash, r) && Stores(r, m)
  {
    hide Cand;
    assert forall p: Pos :: Get(r, p) == Get(t, p) && HpAt(r, p) == HpAt(t, p);
    forall k | k in m
      ensures exists p: Pos :: Get(r, p).Item? && Get(r, p).key == k
    {
      var p: Pos :| Get(t, p).Item? && Get(t, p).key == k;
      assert Get(r, p).key == k;
    }
  }

  // ----- doubling -----

  function VacantBuckets<K, V>(n: nat): (bs: seq<Bucket<K, V>>)
    ensures |bs| == n && forall i :: 0 <= i < n ==> |bs[i]| == SLOTS && AllVacant(bs[i])
  {
    seq(n, _ => seq(SLOTS, _ => Vacant))
  }

  ghost predicate PrevVacant<K, V>(t: Table<K, V>) {
    forall i :: 0 <= i < |t.prev| ==> AllVacant(t.prev[i])
  }

  lemma DoubleCells<K(!new), V>(hash: K -> nat, t: Table<K, V>, r: Table<K, V>, m: map<K, V>)
    requires Placed(hash, t) && Stores(t, m) && PrevVacant(t)
    requires r.hp == t.hp + 1 && r.prev == t.buckets && forall i :: 0 <= i < |r.buckets| ==> AllVacant(r.buckets[i])
    ensures Placed(hash, r) && Stores(r, m)
  {
    hide Cand;
    assert forall i, s :: Get(t, Pos(true, i, s)).Vacant?;
    assert forall p: Pos :: Get(r, p) == if p.inOld then Get(t, Pos(false, p.i, p.s)) else Vacant;
    forall k | k in m
      ensures exists p: Pos :: Get(r, p).Item? && Get(r, p).key == k
    {
      var p: Pos :| Get(t, p).Item? && Get(t, p).key == k;
      assert Get(r, Pos(true, p.i, p.s)).key == k;
    }
  }

  /** Once everything is migrated the current array can become the previous one of a table twice the size. */
  lemma DoubleKeeps<K(!new), V>(hash: K -> nat, t: Table<K, V>, m: map<K, V>)
    requires Core(hash, t, m) && PrevVacant(t)
    ensures Core(hash, Table(t.hp + 1, VacantBuckets(Pow2(t.hp + 1)), t.buckets, seq(NumLocks(t.hp + 1), _ => false)),
                 m)
  {
    hide LockInd, NumLocks, Placed, Stores;
    var r := Table(t.hp + 1, VacantBuckets(Pow2(t.hp + 1)), t.buckets, seq(NumLocks(t.hp + 1), _ => false));
    DoubleCells(hash, t, r, m);
    forall j | 0 <= j < |r.prev|
      ensures BucketPending(r, j)
    {
      HalfSize(r);
      LockInRange(r.hp, j);
    }
  }

  /** The emptied previous array can be dropped. */
  lemma DropPrev<K(!new), V>(hash: K -> nat, t: Table<K, V>, m: map<K, V>)
    requires Core(hash, t, m) && PrevVacant(t)
    ensures Inv(hash, t.(prev := [], migrated := seq(|t.migrated|, _ => true)), m)
  {
    hide Cand, Pow2, NumLocks;
    var r := t.(prev := [], migrated := seq(|t.migrated|, _ => true));
    assert forall i, s :: Get(t, Pos(true, i, s)).Vacant?;
    assert forall p: Pos :: Get(r, p) == Get(t, p);
    forall k | k in m
      ensures exists p: Pos :: Get(r, p).Item? && Get(r, p).key == k
    {
      var p: Pos :| Get(t, p).Item? && Get(t, p).key == k;
      assert Get(r, p).key == k;
    }
  }

  method RehashAll<K(!new), V>(hash: K -> nat, t: Table<K, V>, ghost m: map<K, V>) returns (r: Table<K, V>)
    requires Inv(hash, t, m)
    ensures Inv(hash, r, m) && PrevVacant(r) && r.hp == t.hp
  {
    hide Placed, Stores, Pow2, NumLocks, LockInd, BucketPending;
    r := t;
    for l := 0 to |t.migrated|
      invariant Inv(hash, r, m) && r.hp == t.hp && |r.migrated| == |t.migrated| && |r.prev| == |t.prev|
      invariant forall k :: 0 <= k < l ==> r.migrated[k]
    {
      r := RehashLock(hash, r, l, m);
    }
    AllMigrated(r);
  }

  lemma AllMigrated<K, V>(r: Table<K, V>)
    requires Shaped(r) && Migrating(r) && forall k :: 0 <= k < |r.migrated| ==> r.migrated[k]
    ensures PrevVacant(r)
  {
    hide Pow2, NumLocks, LockInd;
    forall i | 0 <= i < |r.prev|
      ensures AllVacant(r.prev[i])
    {
      HalfSize(r);
      LockInRange(r.hp, i);
      assert BucketPending(r, i);
    }
  }

  /** cuckoo_fast_double: finish the pending migration, double, and move the buckets at once if there are fewer of
      them than locks, lazily otherwise. */
  method FastDouble<K(!new), V>(hash: K -> nat, t: Table<K, V>, ghost m: map<K, V>) returns (r: Table<K, V>)
    requires Inv(hash, t, m)
    ensures Inv(hash, r, m) && r.hp == t.hp + 1
    ensures if t.hp < LOCK_BITS
            then r.prev == [] && forall l :: 0 <= l < |r.migrated| ==> r.migrated[l]
            else |r.prev| == Pow2(t.hp) && r.buckets == VacantBuckets(Pow2(r.hp))
                 && forall l :: 0 <= l < |r.migrated| ==> !r.migrated[l]
  {
    hide Placed, Stores, Pow2, NumLocks, LockInd, BucketPending, VacantBuckets;
    r := RehashAll(hash, t, m);
    DoubleKeeps(hash, r, m);
    r := Table(r.hp + 1, VacantBuckets(Pow2(r.hp + 1)), r.buckets, seq(NumLocks(r.hp + 1), _ => false));
    if t.hp < LOCK_BITS {
      var half := |r.prev|;
      for i := 0 to half
        invariant Core(hash, r, m) && r.hp == t.hp + 1 && |r.prev| == half
        invariant forall j :: 0 <= j < i ==> AllVacant(r.prev[j])
      {
        r := MoveBucket(hash, r, i, m);
      }
      DropPrev(hash, r, m);
      r := r.(prev := [], migrated := seq(|r.migrated|, _ => true));
    }
  }

  // ----- operations under the locks of a key's two buckets -----

  ghost predicate Unlocked<K, V>(t: Table<K, V>, i: nat)
    requires Shaped(t)
  {
    i < |t.buckets| && (LockInRange(t.hp, i); t.migrated[LockInd(i)])
  }

  /** lock_two: taking the locks of both buckets migrates what is pending under them. */
  method LockTwo<K(!new), V>(hash: K -> nat, t: Table<K, V>, i1: nat, i2: nat, ghost m: map<K, V>)
    returns (r: Table<K, V>)
    requires Inv(hash, t, m) && i1 < Pow2(t.hp) && i2 < Pow2(t.hp)
    ensures Inv(hash, r, m) && r.hp == t.hp && Unlocked(r, i1) && Unlocked(r, i2) && Kept(t, r)
  {
    hide Placed, Stores, Pow2, NumLocks, LockInd, Migrating;
    LockInRange(t.hp, i1);
    LockInRange(t.hp, i2);
    r := RehashLock(hash, t, LockInd(i1), m);
    r := RehashLock(hash, r, LockInd(i2), m);
    forall i | 0 <= i < |t.buckets| && Unlocked(t, i)
      ensures Unlocked(r, i) && r.buckets[i] == t.buckets[i]
    {
      LockInRange(t.hp, i);
    }
  }

  /** Buckets that have been migrated stay so, with the same contents. */
  ghost predicate Kept<K, V>(t: Table<K, V>, r: Table<K, V>)
    requires Shaped(t) && Shaped(r)
  {
    |r.buckets| == |t.buckets| && forall i :: 0 <= i < |t.buckets| && Unlocked(t, i) ==>
      Unlocked(r, i) && r.buckets[i] == t.buckets[i]
  }

  /** With the locks of both candidate buckets migrated, a stored key is in one of them and nowhere else. */
  lemma KeyIsThere<K(!new), V>(hash: K -> nat, t: Table<K, V>, m: map<K, V>, p: Pos)
    requires Inv(hash, t, m) && Get(t, p).Item?
    requires var h := hash(Get(t, p).key); Unlocked(t, I1(t.hp, h)) && Unlocked(t, I2(t.hp, h))
    ensures !p.inOld && Cand(t.hp, hash(Get(t, p).key), p.i)
  {
    hide Pow2, NumLocks, LockInd, I1, I2, Stores;
    if p.inOld {
      var h := hash(Get(t, p).key);
      HalfSize(t);
      I1Doubling(t.hp - 1, h);
      I2Doubling(t.hp - 1, h);
      SameLock(t.hp - 1, p.i);
      assert Cand(t.hp - 1, h, p.i);
      Pending(t, p.i);
      assert false;
    }
  }

  lemma Pending<K, V>(t: Table<K, V>, i: nat)
    requires Shaped(t) && Migrating(t) && i < |t.prev|
    ensures BucketPending(t, i)
  {
  }

  /** Changing only buckets whose lock is migrated leaves the pending ones pending. */
  lemma KeepsMigrating<K, V>(t: Table<K, V>, r: Table<K, V>)
    requires Shaped(t) && Migrating(t) && Shaped(r) && (|t.prev| > 0 ==> LOCK_BITS < t.hp)
    requires r.hp == t.hp && r.prev == t.prev && r.migrated == t.migrated
    requires forall j :: 0 <= j < |t.buckets| && !Unlocked(t, j) ==> r.buckets[j] == t.buckets[j]
    ensures Migrating(r)
  {
    hide Pow2, NumLocks, LockInd, AllVacant;
    forall j | 0 <= j < |r.prev|
      ensures BucketPending(r, j)
    {
      HalfSize(t);
      SameLock(t.hp - 1, j);
      assert BucketPending(t, j);
      if !AllVacant(t.prev[j]) {
        assert !Unlocked(t, j) && !Unlocked(t, j + |t.prev|);
      }
    }
  }

  /** try_read_from_bucket: the slot of `key`, if it is there. */
  method ReadBucket<K(==), V>(b: Bucket<K, V>, key: K) returns (found: bool, s: nat)
    ensures found ==> s < |b| && b[s].Item? && b[s].key == key
    ensures !found ==> forall k :: 0 <= k < |b| && b[k].Item? ==> b[k].key != key
  {
    s := 0;
    while s < |b|
      invariant 0 <= s <= |b| && forall k :: 0 <= k < s && b[k].Item? ==> b[k].key != key
    {
      if b[s].Item? && b[s].key == key {
        return true, s;
      }
      s := s + 1;
    }
    found := false;
  }

  /** cuckoo_find after snapshot_and_lock_two: where the key is, exactly when it is stored. */
  method LockAndFind<K(==, !new), V>(hash: K -> nat, t: Table<K, V>, key: K, ghost m: map<K, V>)
    returns (r: Table<K, V>, found: bool, i: nat, s: nat)
    requires Inv(hash, t, m)
    ensures Inv(hash, r, m) && r.hp == t.hp && Unlocked(r, I1(r.hp, hash(key))) && Unlocked(r, I2(r.hp, hash(key)))
    ensures Kept(t, r)
    ensures found <==> key in m
    ensures found ==> InRange(r, Pos(false, i, s)) && Get(r, Pos(false, i, s)) == Item(key, m[key]) && Unlocked(r, i)
  {
    var h := hash(key);
    var i1, i2 := I1(t.hp, h), I2(t.hp, h);
    hide Pow2, NumLocks, LockInd, I1, I2, Migrating, Placed;
    r := LockTwo(hash, t, i1, i2, m);
    found, i, s := FindLocked(hash, r, key, i1, i2, m);
  }

  /** cuckoo_find under the locks of both candidate buckets. */
  method FindLocked<K(==, !new), V>(hash: K -> nat, t: Table<K, V>, key: K, i1: nat, i2: nat, ghost m: map<K, V>)
    returns (found: bool, i: nat, s: nat)
    requires Inv(hash, t, m) && i1 == I1(t.hp, hash(key)) && i2 == I2(t.hp, hash(key)) && Unlocked(t, i1)
    requires Unlocked(t, i2)
    ensures found <==> key in m
    ensures found ==> InRange(t, Pos(false, i, s)) && Get(t, Pos(false, i, s)) == Item(key, m[key]) && Unlocked(t, i)
  {
    hide Pow2, NumLocks, LockInd, I1, I2, Migrating, Placed;
    i := i1;
    found, s := ReadBucket(t.buckets[i1], key);
    if !found {
      i := i2;
      found, s := ReadBucket(t.buckets[i2], key);
    }
    if found {
      assert Get(t, Pos(false, i, s)).key == key;
    } else if key in m {
      ghost var p: Pos :| Get(t, p).Item? && Get(t, p).key == key;
      KeyIsThere(hash, t, m, p);
      assert false;
    }
  }

  lemma CellKeepsMigrating<K, V>(t: Table<K, V>, p: Pos, x: Slot<K, V>)
    requires Shaped(t) && Migrating(t) && (|t.prev| > 0 ==> LOCK_BITS < t.hp) && !p.inOld && InRange(t, p)
    requires Unlocked(t, p.i)
    ensures Shaped(Set(t, p, x)) && Migrating(Set(t, p, x)) && Set(t, p, x).prev == t.prev
  {
    hide Pow2, NumLocks, LockInd;
    KeepsMigrating(t, Set(t, p, x));
  }

  /** add_to_bucket: a new key goes into a vacant slot of a candidate bucket. */
  lemma AddKeeps<K(!new), V>(hash: K -> nat, t: Table<K, V>, m: map<K, V>, key: K, value: V, p: Pos)
    requires Inv(hash, t, m) && key !in m && !p.inOld && InRange(t, p) && Get(t, p).Vacant?
    requires Cand(t.hp, hash(key), p.i) && Unlocked(t, p.i)
    ensures Inv(hash, Set(t, p, Item(key, value)), m[key := value])
  {
    hide Cand, Set, Shaped, Migrating, Unlocked;
    var r, m' := Set(t, p, Item(key, value)), m[key := value];
    CellKeepsMigrating(t, p, Item(key, value));
    forall k | k in m'
      ensures exists q: Pos :: Get(r, q).Item? && Get(r, q).key == k
    {
      if k == key {
        assert Get(r, p).key == k;
      } else {
        var q: Pos :| Get(t, q).Item? && Get(t, q).key == k;
        assert Get(r, q).key == k;
      }
    }
  }

  /** del_from_bucket. */
  lemma RemoveKeeps<K(!new), V>(hash: K -> nat, t: Table<K, V>, m: map<K, V>, p: Pos)
    requires Inv(hash, t, m) && !p.inOld && InRange(t, p) && Get(t, p).Item? && Unlocked(t, p.i)
    ensures Inv(hash, Set(t, p, Vacant), m - {Get(t, p).key})
  {
    hide Cand, Set, Shaped, Migrating, Unlocked;
    var r, m' := Set(t, p, Vacant), m - {Get(t, p).key};
    CellKeepsMigrating(t, p, Vacant);
    forall k | k in m'
      ensures exists q: Pos :: Get(r, q).Item? && Get(r, q).key == k
    {
      var q: Pos :| Get(t, q).Item? && Get(t, q).key == k;
      assert q != p && Get(r, q).key == k;
    }
  }

  /** Moving a key between its two buckets, both locked. */
  lemma EvictKeeps<K(!new), V>(hash: K -> nat, t: Table<K, V>, m: map<K, V>, p: Pos, q: Pos)
    requires Inv(hash, t, m) && !p.inOld && !q.inOld && InRange(t, p) && InRange(t, q)
    requires Get(t, p).Item? && Get(t, q).Vacant? && Unlocked(t, p.i) && Unlocked(t, q.i)
    requires q.i == AltIndex(t.hp, Partial(hash(Get(t, p).key)), p.i)
    ensures Inv(hash, Moved(t, p, q), m) && Moved(t, p, q).hp == t.hp && Get(Moved(t, p, q), p).Vacant?
  {
    CandAlt(t.hp, hash(Get(t, p).key), p.i);
    Relocate(hash, t, m, p, q);
    KeepsMigrating(t, Moved(t, p, q));
  }
}
