/** Making room in a full cuckoo table: breadth-first search for an eviction path, its compressed code, and the
    locked moves along it. The search takes its locks one at a time, so every read may see another table. */
module CuckooPath {
  import opened Wrappers
  import opened CuckooIndex
  import opened CuckooTable

  const MAX_BFS_PATH_LEN: nat := 5

  /** A search node: the last bucket of a path, the slots taken so far as digits, and its depth. */
  datatype BSlot = BSlot(bucket: nat, pathcode: nat, depth: nat)

  // ----- path codes -----

  /** Slots appended to the start bucket's digit in base `base`. */
  function Encode(base: nat, start: nat, slots: seq<nat>): (code: nat) {
    if slots == [] then start else Encode(base, start, slots[..|slots| - 1]) * base + slots[|slots| - 1]
  }

  /** cuckoopath_search reads the digits back from the last slot to the first. */
  method Decode(base: nat, code0: nat, depth: nat, ghost start0: nat, ghost slots0: seq<nat>)
    returns (start: nat, slots: seq<nat>)
    requires 1 <= base && |slots0| == depth + 1 && forall k :: 0 <= k <= depth ==> slots0[k] < base
    requires code0 == Encode(base, start0, slots0)
    ensures start == start0 && slots == slots0
  {
    start, slots := code0, [];
    assert slots0[..depth + 1] == slots0;
    var i := depth + 1;
    while i > 0
      invariant 0 <= i <= depth + 1 && slots == slots0[i..] && start == Encode(base, start0, slots0[..i])
    {
      i := i - 1;
      assert slots0[..i + 1][..i] == slots0[..i];
      DigitOf(base, Encode(base, start0, slots0[..i]), slots0[i]);
      slots, start := [start % base] + slots, start / base;
    }
    assert slots0[..0] == [];
  }

  lemma DigitOf(base: nat, x: nat, digit: nat)
    requires digit < base
    ensures (x * base + digit) % base == digit && (x * base + digit) / base == x
  {
    ModUnique(x * base + digit, base, x, digit);
    var q := (x * base + digit) / base;
    assert x * base + digit == q * base + digit;
    assert (q - x) * base == 0;
  }

  function Power(b: nat, e: nat): (r: nat) {
    if e == 0 then 1 else b * Power(b, e - 1)
  }

  lemma MulLe(a: nat, b: nat, c: nat, d: nat)
    requires a <= b && c <= d
    ensures a * c <= b * d
  {
    assert b * d - a * c == (b - a) * d + a * (d - c);
  }

  /** A code of a path of `n` slots from one of two start buckets is below 2 * base^n. */
  lemma {:induction false} CodeBound(base: nat, start: nat, slots: seq<nat>)
    requires start < 2 && forall k :: 0 <= k < |slots| ==> slots[k] < base
    ensures Encode(base, start, slots) < 2 * Power(base, |slots|)
  {
    if slots != [] {
      var n := |slots| - 1;
      CodeBound(base, start, slots[..n]);
      var c, p := Encode(base, start, slots[..n]), Power(base, n);
      CodeStep(c, p, base, slots[n]);
    }
  }

  lemma CodeStep(c: nat, p: nat, base: nat, digit: nat)
    requires c < 2 * p && digit < base
    ensures c * base + digit < 2 * (base * p)
  {
    MulLe(c + 1, 2 * p, base, base);
    assert (c + 1) * base == c * base + base;
    assert (2 * p) * base == 2 * (base * p);
  }

  lemma {:induction false} PowerMono(a: nat, b: nat, e: nat)
    requires a <= b
    ensures Power(a, e) <= Power(b, e)
  {
    if e > 0 {
      PowerMono(a, b, e - 1);
      MulLe(a, b, Power(a, e - 1), Power(b, e - 1));
    }
  }

  lemma {:induction false} PowerUp(a: nat, e: nat, f: nat)
    requires 1 <= a && e <= f
    ensures 1 <= Power(a, e) <= Power(a, f)
    decreases f
  {
    if e < f {
      PowerUp(a, e, f - 1);
      MulLe(1, a, Power(a, f - 1), Power(a, f - 1));
    } else if e > 0 {
      PowerUp(a, e - 1, f - 1);
      MulLe(1, a, 1, Power(a, e - 1));
    }
  }

  ghost predicate IsPath(base: nat, start: nat, slots: seq<nat>) {
    start < 2 && |slots| <= MAX_BFS_PATH_LEN && forall k :: 0 <= k < |slots| ==> slots[k] < base
  }

  /** Every path code fits the 16-bit pathcode field exactly for up to eight slots per bucket, although the source's
      static assertion (base^5 < 65535) also admits nine. */
  lemma CodesFitExactly(base: nat)
    requires 1 <= base && Power(base, MAX_BFS_PATH_LEN) < 0xFFFF
    ensures (forall start, slots :: IsPath(base, start, slots) ==> Encode(base, start, slots) < 0x10000) <==> base <= 8
  {
    if base <= 8 {
      forall start, slots | IsPath(base, start, slots)
        ensures Encode(base, start, slots) < 0x10000
      {
        CodeBound(base, start, slots);
        PowerUp(base, |slots|, MAX_BFS_PATH_LEN);
        PowerMono(base, 8, MAX_BFS_PATH_LEN);
        Powers();
      }
    } else {
      Powers();
      if base >= 10 {
        PowerMono(10, base, MAX_BFS_PATH_LEN);
        assert false;
      }
      NineSlotsOverflow();
      assert IsPath(9, 1, [8, 8, 8, 8, 8]);
    }
  }

  lemma Powers()
    ensures Power(8, MAX_BFS_PATH_LEN) == 32768 && Power(9, MAX_BFS_PATH_LEN) == 59049
    ensures Power(10, MAX_BFS_PATH_LEN) == 100000
  {
    assert Power(8, 1) == 8 && Power(8, 2) == 64 && Power(8, 3) == 512 && Power(8, 4) == 4096;
    assert Power(9, 1) == 9 && Power(9, 2) == 81 && Power(9, 3) == 729 && Power(9, 4) == 6561;
    assert Power(10, 1) == 10 && Power(10, 2) == 100 && Power(10, 3) == 1000 && Power(10, 4) == 10000;
  }

  lemma NineSlotsOverflow()
    ensures Encode(9, 1, [8, 8, 8, 8, 8]) >= 0x10000
  {
    var s := [8, 8, 8, 8, 8];
    assert s[..4] == [8, 8, 8, 8] && s[..4][..3] == [8, 8, 8] && [8, 8, 8][..2] == [8, 8] && [8, 8][..1] == [8]
      && [8][..0] == [];
    assert Encode(9, 1, [8]) == 17 && Encode(9, 1, [8, 8]) == 161 && Encode(9, 1, [8, 8, 8]) == 1457;
    assert Encode(9, 1, [8, 8, 8, 8]) == 13121;
  }

  // ----- breadth-first search -----

  /** Nodes of the search tree below and including a node at `depth`. */
  function TreeSize(depth: nat): (n: nat)
    ensures n >= 1
    decreases MAX_BFS_PATH_LEN - depth
  {
    if depth >= MAX_BFS_PATH_LEN - 1 then 1 else 1 + SLOTS * TreeSize(depth + 1)
  }

  /** The capacity of b_queue: two full search trees, i.e. 2 * (4^5 - 1) / (4 - 1) nodes. */
  const MAX_CUCKOO_COUNT: nat := 682

  lemma QueueCapacity()
    ensures MAX_CUCKOO_COUNT == 2 * TreeSize(0)
  {
    assert TreeSize(4) == 1 && TreeSize(3) == 5 && TreeSize(2) == 21 && TreeSize(1) == 85;
  }

  /** Nodes that the queued nodes from position `first` on can still add. */
  ghost function Potential(q: seq<BSlot>, first: nat): nat
    requires first <= |q|
    decreases |q| - first
  {
    if first == |q| then 0 else TreeSize(q[first].depth) - 1 + Potential(q, first + 1)
  }

  lemma {:induction false} PotentialAppend(q: seq<BSlot>, x: BSlot, first: nat)
    requires first <= |q|
    ensures Potential(q + [x], first) == Potential(q, first) + TreeSize(x.depth) - 1
    decreases |q| - first
  {
    if first < |q| {
      PotentialAppend(q, x, first + 1);
    }
  }

  /** What the n-th locked read finds in a bucket: for each slot the partial key of its item, or nothing. */
  type Reads = (nat, nat) -> seq<Option<nat>>

  /** The path behind a code: its slots, the buckets they lie in, and the reads that saw them. */
  datatype Trail = Trail(start: nat, slots: seq<nat>, buckets: seq<nat>, when: seq<nat>)

  ghost predicate Follows(x: BSlot, t: Trail) {
    && x.depth < MAX_BFS_PATH_LEN && |t.slots| == x.depth && t.start < 2
    && (forall k :: 0 <= k < |t.slots| ==> t.slots[k] < SLOTS)
    && x.pathcode == Encode(SLOTS, t.start, t.slots)
  }

  /** The k-th slot of the path was read occupied, and the next bucket is the partner of what was in it. */
  ghost predicate SeenStep(hp: nat, read: Reads, t: Trail, k: nat)
    requires k < |t.slots| && k < |t.when| && k + 1 < |t.buckets|
  {
    var b := read(t.when[k], t.buckets[k]);
    t.slots[k] < |b| && b[t.slots[k]].Some? && t.buckets[k + 1] == AltIndex(hp, b[t.slots[k]].value, t.buckets[k])
  }

  /** The path leads from its start bucket to `bucket`, along what was read. */
  ghost predicate Traced(hp: nat, i1: nat, i2: nat, read: Reads, t: Trail, bucket: nat) {
    && |t.when| == |t.slots| && |t.buckets| == |t.slots| + 1
    && t.buckets[0] == (if t.start == 0 then i1 else i2) && t.buckets[|t.slots|] == bucket
    && forall k :: 0 <= k < |t.slots| ==> SeenStep(hp, read, t, k)
  }

  ghost predicate QueueOk(q: seq<BSlot>, trails: seq<Trail>, first: nat) {
    first <= |q| == |trails| && forall j :: 0 <= j < |q| ==> Follows(q[j], trails[j])
  }

  ghost predicate QueueTraced(hp: nat, i1: nat, i2: nat, read: Reads, q: seq<BSlot>, trails: seq<Trail>) {
    |q| == |trails| && forall j :: 0 <= j < |q| ==> Traced(hp, i1, i2, read, trails[j], q[j].bucket)
  }

  /** A result: the code of the path `t`. */
  ghost predicate Codes(x: BSlot, t: Trail) {
    && x.depth < MAX_BFS_PATH_LEN && |t.slots| == x.depth + 1 && IsPath(SLOTS, t.start, t.slots)
    && x.pathcode == Encode(SLOTS, t.start, t.slots)
  }

  /** The path leads along occupied slots to a last slot that was read vacant. */
  ghost predicate EndsVacant(hp: nat, i1: nat, i2: nat, read: Reads, t: Trail) {
    && |t.slots| >= 1 && |t.buckets| == |t.when| == |t.slots|
    && t.buckets[0] == (if t.start == 0 then i1 else i2)
    && (forall k :: 0 <= k < |t.slots| - 1 ==> SeenStep(hp, read, t, k))
    && var b := read(t.when[|t.slots| - 1], t.buckets[|t.slots| - 1]);
       t.slots[|t.slots| - 1] < |b| && b[t.slots[|t.slots| - 1]].None?
  }

  lemma Extend(x: BSlot, t: Trail, slot: nat)
    requires Follows(x, t) && slot < SLOTS
    ensures Encode(SLOTS, t.start, t.slots + [slot]) == x.pathcode * SLOTS + slot
    ensures forall k :: 0 <= k <= |t.slots| ==> (t.slots + [slot])[k] < SLOTS
  {
    assert (t.slots + [slot])[..|t.slots|] == t.slots;
  }

  /** The node queued for the item in a slot of x's bucket. */
  function Child(hp: nat, x: BSlot, b: seq<Option<nat>>, slot: nat): (y: BSlot)
    requires slot < |b| && b[slot].Some?
  {
    BSlot(AltIndex(hp, b[slot].value, x.bucket), x.pathcode * SLOTS + slot, x.depth + 1)
  }

  lemma TraceChild(hp: nat, i1: nat, i2: nat, read: Reads, t: Trail, x: BSlot, n: nat, slot: nat)
    requires Traced(hp, i1, i2, read, t, x.bucket) && slot < |read(n, x.bucket)| && read(n, x.bucket)[slot].Some?
    ensures var y := Child(hp, x, read(n, x.bucket), slot);
            Traced(hp, i1, i2, read, Trail(t.start, t.slots + [slot], t.buckets + [y.bucket], t.when + [n]), y.bucket)
  {
    hide AltIndex;
    var y := Child(hp, x, read(n, x.bucket), slot);
    var u := Trail(t.start, t.slots + [slot], t.buckets + [y.bucket], t.when + [n]);
    forall k | 0 <= k < |u.slots|
      ensures SeenStep(hp, read, u, k)
    {
      if k < |t.slots| {
        assert SeenStep(hp, read, t, k);
      }
    }
  }

  lemma TraceEnd(hp: nat, i1: nat, i2: nat, read: Reads, t: Trail, bucket: nat, n: nat, slot: nat)
    requires Traced(hp, i1, i2, read, t, bucket) && slot < |read(n, bucket)| && read(n, bucket)[slot].None?
    ensures EndsVacant(hp, i1, i2, read, Trail(t.start, t.slots + [slot], t.buckets, t.when + [n]))
  {
    hide AltIndex;
    var u := Trail(t.start, t.slots + [slot], t.buckets, t.when + [n]);
    forall k | 0 <= k < |u.slots| - 1
      ensures SeenStep(hp, read, u, k)
    {
      assert SeenStep(hp, read, t, k);
    }
  }

  /** The slots looked at first, in the order of the search. */
  function SlotAt(x: BSlot, i: nat): (slot: nat)
    ensures slot < SLOTS
  {
    (x.pathcode % SLOTS + i) % SLOTS
  }

  lemma SlotOrder(x: BSlot, slot: nat) returns (i: nat)
    requires slot < SLOTS
    ensures i < SLOTS && SlotAt(x, i) == slot
  {
    var c := x.pathcode % SLOTS;
    i := if c <= slot then slot - c else slot + SLOTS - c;
  }

  /** The first i slots of the node's bucket were read occupied, and above the depth limit their partners are queued. */
  ghost predicate Explored(hp: nat, x: BSlot, b: seq<Option<nat>>, i: nat, q: seq<BSlot>) {
    |b| == SLOTS && forall k :: 0 <= k < i ==> SlotDone(hp, x, b, SlotAt(x, k), q)
  }

  ghost predicate SlotDone(hp: nat, x: BSlot, b: seq<Option<nat>>, slot: nat, q: seq<BSlot>)
    requires |b| == SLOTS && slot < SLOTS
  {
    b[slot].Some? && (x.depth < MAX_BFS_PATH_LEN - 1 ==> Child(hp, x, b, slot) in q)
  }

  lemma ExploredMore(hp: nat, x: BSlot, b: seq<Option<nat>>, i: nat, q: seq<BSlot>, more: seq<BSlot>)
    requires Explored(hp, x, b, i, q) && q <= more
    ensures Explored(hp, x, b, i, more)
  {
    hide AltIndex, SlotAt;
    forall k | 0 <= k < i
      ensures SlotDone(hp, x, b, SlotAt(x, k), more)
    {
      assert SlotDone(hp, x, b, SlotAt(x, k), q);
      assert forall y :: y in q ==> y in more;
    }
  }

  /** Nothing was found: every node of the search tree was read with all slots occupied. */
  ghost predicate Exhausted(hp: nat, i1: nat, i2: nat, read: Reads, q: seq<BSlot>) {
    && BSlot(i1, 0, 0) in q && BSlot(i2, 1, 0) in q
    && forall j :: 0 <= j < |q| ==> Explored(hp, q[j], read(j, q[j].bucket), SLOTS, q)
  }

  /** Look at the slots of the dequeued node's bucket: stop at a vacant one, queue the partners of the others. */
  method Expand(hp: nat, i1: nat, i2: nat, read: Reads, n: nat, x: BSlot, q0: seq<BSlot>, ghost t: Trail,
                ghost trails0: seq<Trail>, ghost first: nat)
    returns (found: bool, y: BSlot, q: seq<BSlot>, ghost ty: Trail, ghost trails: seq<Trail>)
    requires |read(n, x.bucket)| == SLOTS && Follows(x, t) && QueueOk(q0, trails0, first)
    requires Traced(hp, i1, i2, read, t, x.bucket) && QueueTraced(hp, i1, i2, read, q0, trails0)
    requires |q0| + Potential(q0, first) + TreeSize(x.depth) - 1 <= MAX_CUCKOO_COUNT
    ensures QueueOk(q, trails, first) && |q| + Potential(q, first) <= MAX_CUCKOO_COUNT
    ensures QueueTraced(hp, i1, i2, read, q, trails) && q0 <= q
    ensures found ==> Codes(y, ty) && EndsVacant(hp, i1, i2, read, ty) && y.depth == x.depth
    ensures forall j :: |q0| <= j < |q| ==> q[j].depth == x.depth + 1
    ensures !found ==> Explored(hp, x, read(n, x.bucket), SLOTS, q)
  {
    hide TreeSize, Potential, Room, AltIndex, Traced, SlotAt, EndsVacant, Explored, QueueOk, QueueTraced, Follows,
         Codes;
    QueueLength(q0, trails0, first);
    RoomStart(x, t);
    var b := read(n, x.bucket);
    ExploredNone(hp, x, b, q0);
    found, y, q, ty, trails := false, x, q0, t, trails0;
    var i := 0;
    while i < SLOTS
      invariant 0 <= i <= SLOTS && QueueOk(q, trails, first) && QueueTraced(hp, i1, i2, read, q, trails) && q0 <= q
      invariant |q| + Potential(q, first) + Room(x.depth, i) <= MAX_CUCKOO_COUNT
      invariant Explored(hp, x, b, i, q) && first <= |q|
      invariant forall j :: |q0| <= j < |q| ==> q[j].depth == x.depth + 1
    {
      var slot := SlotAt(x, i);
      if b[slot].None? {
        TraceEnd(hp, i1, i2, read, t, x.bucket, n, slot);
        FoundCode(x, t, slot, n);
        y := x.(pathcode := x.pathcode * SLOTS + slot);
        ty := Trail(t.start, t.slots + [slot], t.buckets, t.when + [n]);
        return true, y, q, ty, trails;
      }
      RoomStep(x.depth, i);
      ghost var before := q;
      if x.depth < MAX_BFS_PATH_LEN - 1 {
        assert |q| < MAX_CUCKOO_COUNT;  // the queue is not full
        var z := Child(hp, x, b, slot);
        TraceChild(hp, i1, i2, read, t, x, n, slot);
        PotentialAppend(q, z, first);
        QueueAdd(hp, i1, i2, read, q, trails, first, x, t, slot, n);
        q, trails := q + [z], trails + [Trail(t.start, t.slots + [slot], t.buckets + [z.bucket], t.when + [n])];
        assert q[|q| - 1] == z;
      }
      ExploredMore(hp, x, b, i, before, q);
      ExploredNext(hp, x, b, i, q);
      i := i + 1;
    }
  }

  lemma SlotDoneNow(hp: nat, x: BSlot, b: seq<Option<nat>>, slot: nat, q: seq<BSlot>)
    requires |b| == SLOTS && slot < SLOTS && b[slot].Some?
    requires x.depth < MAX_BFS_PATH_LEN - 1 ==> q != [] && q[|q| - 1] == Child(hp, x, b, slot)
    ensures SlotDone(hp, x, b, slot, q)
  {
    hide AltIndex;
  }

  /** The slot codes some path along what was read that ends in a vacant slot. */
  ghost predicate LeadsToVacant(hp: nat, i1: nat, i2: nat, read: Reads, x: BSlot) {
    exists t: Trail :: Codes(x, t) && EndsVacant(hp, i1, i2, read, t)
  }

  /** The whole search tree was read without a vacant slot. */
  ghost predicate AllFull(hp: nat, i1: nat, i2: nat, read: Reads) {
    exists q: seq<BSlot> :: Exhausted(hp, i1, i2, read, q)
  }

  /** slot_search. The queue never overflows whatever is read. A result codes a path of at most 5 slots along what was
      read: each next bucket is the partner of the item seen in the slot before, and the last slot was seen vacant.
      Without a result, every node of the search tree was read with all its slots occupied. */
  method SlotSearch(hp: nat, i1: nat, i2: nat, read: Reads)
    returns (found: bool, x: BSlot, ghost t: Trail, ghost q': seq<BSlot>)
    requires forall n, b :: |read(n, b)| == SLOTS
    ensures found ==> Codes(x, t) && EndsVacant(hp, i1, i2, read, t)
    ensures !found ==> Exhausted(hp, i1, i2, read, q')
    ensures if found then LeadsToVacant(hp, i1, i2, read, x) else AllFull(hp, i1, i2, read)
    ensures found && Static(read) ==> Direct(t)
  {
    hide TreeSize, Codes, EndsVacant, Explored, Traced, Potential, QueueOk, QueueTraced, Follows, Layered, Static,
         Direct;
    QueueCapacity();
    var q := [BSlot(i1, 0, 0), BSlot(i2, 1, 0)];
    ghost var trails := [Trail(0, [], [i1], []), Trail(1, [], [i2], [])];
    StartQueue(hp, i1, i2, read);
    assert q[0] in q && q[1] in q;
    LayeredStart(q);
    var first := 0;
    while first < |q|
      invariant QueueOk(q, trails, first) && QueueTraced(hp, i1, i2, read, q, trails)
      invariant first <= |q| && |q| == |trails| && |q| + Potential(q, first) <= MAX_CUCKOO_COUNT
      invariant BSlot(i1, 0, 0) in q && BSlot(i2, 1, 0) in q && Layered(q, first)
      invariant forall j :: 0 <= j < first ==> Explored(hp, q[j], read(j, q[j].bucket), SLOTS, q)
      decreases MAX_CUCKOO_COUNT - first
    {
      ghost var before := q;
      var node := q[first];
      NextNode(hp, i1, i2, read, q, trails, first);
      found, x, q, t, trails := Expand(hp, i1, i2, read, first, node, q, trails[first], trails, first + 1);
      q' := q;
      if found {
        DirectFound(hp, i1, i2, read, before, first, x, t);
        return;
      }
      LayeredNext(before, q, first);
      QueueLength(q, trails, first + 1);
      StillExplored(hp, read, before, q, first);
      first := first + 1;
    }
    return false, BSlot(0, 0, 0), Trail(0, [], [], []), q;
  }

  /** The queue is in the order of depth, and no entry is more than one level below the first one not expanded. */
  ghost predicate Layered(q: seq<BSlot>, first: nat) {
    && (forall i, j :: 0 <= i < j < |q| ==> q[i].depth <= q[j].depth)
    && (first < |q| ==> forall j :: 0 <= j < |q| ==> q[j].depth <= q[first].depth + 1)
  }

  lemma LayeredStart(q: seq<BSlot>)
    requires forall j :: 0 <= j < |q| ==> q[j].depth == 0
    ensures Layered(q, 0)
  {
  }

  lemma LayeredNext(q: seq<BSlot>, more: seq<BSlot>, first: nat)
    requires Layered(q, first) && first < |q| && q <= more
    requires forall j :: |q| <= j < |more| ==> more[j].depth == q[first].depth + 1
    ensures Layered(more, first + 1)
  {
    assert forall j :: 0 <= j < |q| ==> more[j] == q[j];
  }

  /** What a read finds depends on the bucket only: nothing changes during the search. */
  ghost predicate Static(read: Reads) {
    forall n, k, b :: read(n, b) == read(k, b)
  }

  /** The path visits no bucket twice. */
  ghost predicate Direct(t: Trail) {
    forall i, j :: 0 <= i < j < |t.buckets| ==> t.buckets[i] != t.buckets[j]
  }

  /** The nodes before `first` were read, all their slots occupied. */
  ghost predicate Expanded(hp: nat, read: Reads, q: seq<BSlot>, first: nat) {
    first <= |q| && forall j :: 0 <= j < first ==> Explored(hp, q[j], read(j, q[j].bucket), SLOTS, q)
  }

  lemma ExpandedSlot(hp: nat, read: Reads, q: seq<BSlot>, first: nat, j: nat, slot: nat)
    requires Expanded(hp, read, q, first) && j < first && slot < SLOTS
    ensures |read(j, q[j].bucket)| == SLOTS && SlotDone(hp, q[j], read(j, q[j].bucket), slot, q)
  {
    hide SlotDone, SlotAt;
    var i := SlotOrder(q[j], slot);
  }

  /** In an unchanging table a node with the bucket of a position of the path leads on along the path, as long as its
      descendants lie above the depth that is being expanded. */
  lemma {:induction false} Descend(hp: nat, i1: nat, i2: nat, read: Reads, q: seq<BSlot>, first: nat, t: Trail, a: nat,
                                   j: nat, k: nat)
    returns (c: nat)
    requires Static(read) && Layered(q, first) && Expanded(hp, read, q, first) && EndsVacant(hp, i1, i2, read, t)
    requires first < |q| && q[first].depth < MAX_BFS_PATH_LEN && |t.slots| == q[first].depth + 1
    requires j <= k < |t.slots| && a < |q| && q[a].bucket == t.buckets[j] && q[a].depth <= j
    requires forall i :: 0 <= i < |t.slots| ==> t.slots[i] < SLOTS
    ensures c < |q| && q[c].bucket == t.buckets[k] && q[c].depth == q[a].depth + (k - j)
    decreases k - j
  {
    hide AltIndex, Static, Expanded;
    c := a;
    if j < k {
      var b := Descend(hp, i1, i2, read, q, first, t, a, j, k - 1);
      assert SeenStep(hp, read, t, k - 1);
      ExpandedSlot(hp, read, q, first, b, t.slots[k - 1]);
      SameRead(read, b, t.when[k - 1], q[b].bucket);
      var y := Child(hp, q[b], read(b, q[b].bucket), t.slots[k - 1]);
      c :| 0 <= c < |q| && q[c] == y;
    }
  }

  lemma SameRead(read: Reads, n: nat, k: nat, b: nat)
    requires Static(read)
    ensures read(n, b) == read(k, b)
  {
  }

  /** A path that visited a bucket twice could be shortened, and the shorter one would have been found before. */
  lemma DirectPath(hp: nat, i1: nat, i2: nat, read: Reads, q: seq<BSlot>, first: nat, t: Trail)
    requires Static(read) && Layered(q, first) && Expanded(hp, read, q, first) && EndsVacant(hp, i1, i2, read, t)
    requires first < |q| && q[first].depth < MAX_BFS_PATH_LEN && |t.slots| == q[first].depth + 1
    requires BSlot(i1, 0, 0) in q && BSlot(i2, 1, 0) in q
    requires forall i :: 0 <= i < |t.slots| ==> t.slots[i] < SLOTS
    ensures Direct(t)
  {
    var d := |t.slots| - 1;
    var root :| 0 <= root < |q| && q[root].bucket == t.buckets[0] && q[root].depth == 0;
    forall i, j | 0 <= i < j < |t.buckets|
      ensures t.buckets[i] != t.buckets[j]
    {
      if t.buckets[i] == t.buckets[j] {
        var a := Descend(hp, i1, i2, read, q, first, t, root, 0, i);
        var c := Descend(hp, i1, i2, read, q, first, t, a, j, d);
        SameRead(read, c, t.when[d], q[c].bucket);
        ExpandedSlot(hp, read, q, first, c, t.slots[d]);
      }
    }
  }

  lemma DirectFound(hp: nat, i1: nat, i2: nat, read: Reads, q: seq<BSlot>, first: nat, x: BSlot, t: Trail)
    requires Layered(q, first) && EndsVacant(hp, i1, i2, read, t) && Codes(x, t)
    requires first < |q| && q[first].depth == x.depth && BSlot(i1, 0, 0) in q && BSlot(i2, 1, 0) in q
    requires forall j :: 0 <= j < first ==> Explored(hp, q[j], read(j, q[j].bucket), SLOTS, q)
    ensures Static(read) ==> Direct(t)
  {
    hide Explored, Static, Direct, EndsVacant, Layered, Encode;
    if Static(read) {
      DirectPath(hp, i1, i2, read, q, first, t);
    }
  }

  lemma StillExplored(hp: nat, read: Reads, q: seq<BSlot>, more: seq<BSlot>, first: nat)
    requires first <= |q| && q <= more
    requires forall j :: 0 <= j < first ==> Explored(hp, q[j], read(j, q[j].bucket), SLOTS, q)
    ensures forall j :: 0 <= j < first ==> Explored(hp, more[j], read(j, more[j].bucket), SLOTS, more)
    ensures forall y :: y in q ==> y in more
  {
    hide Explored;
    forall j | 0 <= j < first
      ensures Explored(hp, more[j], read(j, more[j].bucket), SLOTS, more)
    {
      assert more[j] == q[j];
      ExploredMore(hp, q[j], read(j, q[j].bucket), SLOTS, q, more);
    }
  }

  /** In an exhausted search every slot of every node read was occupied, and below the depth limit its partner was
      searched too. */
  lemma ExhaustedFull(hp: nat, i1: nat, i2: nat, read: Reads, q: seq<BSlot>, j: nat, slot: nat)
    requires Exhausted(hp, i1, i2, read, q) && j < |q| && slot < SLOTS
    ensures SlotDone(hp, q[j], read(j, q[j].bucket), slot, q)
  {
    hide SlotDone, SlotAt;
    var i := SlotOrder(q[j], slot);
    assert Explored(hp, q[j], read(j, q[j].bucket), SLOTS, q);
  }

  /** What a node whose slots below `i` are done can still add to the queue. */
  ghost function Room(depth: nat, i: nat): nat
    requires depth < MAX_BFS_PATH_LEN && i <= SLOTS
  {
    if depth == MAX_BFS_PATH_LEN - 1 then 0 else (SLOTS - i) * TreeSize(depth + 1)
  }

  lemma RoomStep(depth: nat, i: nat)
    requires depth < MAX_BFS_PATH_LEN && i < SLOTS
    ensures Room(depth, i) == (if depth < MAX_BFS_PATH_LEN - 1 then TreeSize(depth + 1) else 0) + Room(depth, i + 1)
  {
    if depth < MAX_BFS_PATH_LEN - 1 {
      var k, w := SLOTS - i, TreeSize(depth + 1);
      assert k * w == w + (k - 1) * w;
    }
  }

  lemma RoomStart(x: BSlot, t: Trail)
    requires Follows(x, t)
    ensures x.depth < MAX_BFS_PATH_LEN && Room(x.depth, 0) == TreeSize(x.depth) - 1
  {
  }

  // ----- the path and the moves along it -----

  /** One position of a cuckoo path with the hash of the key seen there. */
  datatype CuckooRecord = CuckooRecord(bucket: nat, slot: nat, hash: nat)

  /** Each position lies in the partner bucket of the key seen at the one before. */
  ghost predicate PathOk(hp: nat, path: seq<CuckooRecord>, i1: nat, i2: nat) {
    && 1 <= |path| <= MAX_BFS_PATH_LEN
    && (path[0].bucket == i1 || path[0].bucket == i2)
    && (forall k :: 0 <= k < |path| ==> path[k].slot < SLOTS)
    && (forall k :: 0 < k < |path| ==> path[k].bucket == AltIndex(hp, Partial(path[k - 1].hash), path[k - 1].bucket))
  }

  lemma PathInRange(hp: nat, path: seq<CuckooRecord>, i1: nat, i2: nat, k: nat)
    requires PathOk(hp, path, i1, i2) && i1 < Pow2(hp) && i2 < Pow2(hp) && k < |path|
    ensures path[k].bucket < Pow2(hp)
  {
    if k > 0 {
      hide Low, Xor, TagHash, Partial, Pow2;
      var alt := AltIndex(hp, Partial(path[k - 1].hash), path[k - 1].bucket);
      assert alt < Pow2(hp);
    }
  }

  /** cuckoopath_search: decode the slots, then walk the buckets again; `peek(n, b, s)` is the hash of the key the n-th
      locked read finds in that slot, if any. A vacant slot on the way ends the path early. */
  method CuckooPathSearch(hp: nat, i1: nat, i2: nat, x: BSlot, ghost t: Trail, peek: (nat, nat, nat) -> Option<nat>)
    returns (path: seq<CuckooRecord>)
    requires Codes(x, t)
    ensures PathOk(hp, path, i1, i2) && |path| <= x.depth + 1
    ensures path[0].bucket == (if t.start == 0 then i1 else i2)
    ensures forall k :: 0 <= k < |path| ==> path[k].slot == t.slots[k]
    ensures forall k :: 0 <= k < |path| - 1 ==> peek(k, path[k].bucket, path[k].slot) == Some(path[k].hash)
    ensures var last := |path| - 1;
            var seen := peek(last, path[last].bucket, path[last].slot);
            if seen.Some? then last == x.depth && seen.value == path[last].hash else true
  {
    hide AltIndex, Partial, Encode;
    var start, slots := Decode(SLOTS, x.pathcode, x.depth, t.start, t.slots);
    var bucket: nat := if start == 0 then i1 else i2;
    path := [];
    for i := 0 to x.depth + 1
      invariant |path| == i && Walk(hp, path, bucket, if t.start == 0 then i1 else i2)
      invariant forall k :: 0 <= k < i ==> path[k].slot == t.slots[k]
      invariant forall k :: 0 <= k < i ==> peek(k, path[k].bucket, path[k].slot) == Some(path[k].hash)
    {
      var seen := peek(i, bucket, slots[i]);
      var hash := if seen.Some? then seen.value else 0;
      path := path + [CuckooRecord(bucket, slots[i], hash)];
      if seen.None? {
        return;
      }
      bucket := AltIndex(hp, Partial(hash), bucket);
    }
  }

  /** A path from bucket `b0` whose next position would be in bucket `next`. */
  ghost predicate Walk(hp: nat, path: seq<CuckooRecord>, next: nat, b0: nat) {
    && (if |path| == 0 then next == b0
        else path[0].bucket == b0 && next == AltIndex(hp, Partial(path[|path| - 1].hash), path[|path| - 1].bucket))
    && (forall k :: 0 < k < |path| ==> path[k].bucket == AltIndex(hp, Partial(path[k - 1].hash), path[k - 1].bucket))
  }

  /** A key with the hash seen is still in the first position, and the second is vacant. */
  ghost predicate Movable<K, V>(hash: K -> nat, t: Table<K, V>, from: CuckooRecord, to: CuckooRecord) {
    && SlotOf(t, from).Item? && hash(SlotOf(t, from).key) == from.hash && SlotOf(t, to).Vacant?
  }

  function SlotOf<K, V>(t: Table<K, V>, x: CuckooRecord): Slot<K, V> {
    Get(t, Pos(false, x.bucket, x.slot))
  }

  /** One locked move of cuckoopath_move. Whatever table the locks are taken on, the key moves to its other bucket
      exactly if it is still there and its place is free in the table `u` seen under the locks; the stored map is the
      same and the table invariant holds. */
  method MoveStep<K(!new), V>(hash: K -> nat, t: Table<K, V>, from: CuckooRecord, to: CuckooRecord, ghost m: map<K, V>)
    returns (ok: bool, r: Table<K, V>, ghost u: Table<K, V>)
    requires Inv(hash, t, m) && from.slot < SLOTS && to.slot < SLOTS
    requires from.bucket < Pow2(t.hp) && to.bucket == AltIndex(t.hp, Partial(from.hash), from.bucket)
    ensures Inv(hash, u, m) && u.hp == t.hp && Kept(t, u) && Unlocked(u, from.bucket) && Unlocked(u, to.bucket)
    ensures Inv(hash, r, m) && r.hp == t.hp && r.migrated == u.migrated && |r.buckets| == |u.buckets|
    ensures ok <==> Movable(hash, u, from, to)
    ensures !ok ==> r == u
    ensures ok ==> SlotOf(r, to) == SlotOf(u, from) && SlotOf(r, from).Vacant? && OthersKept(u, r, from, to)
  {
    hide Placed, Stores, Migrating, AltIndex, Partial, Pow2, NumLocks, LockInd;
    r := LockTwo(hash, t, from.bucket, to.bucket, m);
    u := r;
    var p, q := Pos(false, from.bucket, from.slot), Pos(false, to.bucket, to.slot);
    if Get(r, q).Item? || Get(r, p).Vacant? || hash(Get(r, p).key) != from.hash {
      return false, r, u;
    }
    EvictKeeps(hash, r, m, p, q);
    ok, r := true, Moved(r, p, q);
  }

  ghost predicate OthersKept<K, V>(u: Table<K, V>, r: Table<K, V>, from: CuckooRecord, to: CuckooRecord) {
    forall x: Pos :: x != Pos(false, from.bucket, from.slot) && x != Pos(false, to.bucket, to.slot) ==>
      Get(r, x) == Get(u, x)
  }

  /** Other threads keep the table invariant; they may insert, erase, move keys and double the table. */
  ghost predicate Lawful<K(!new), V(!new)>(hash: K -> nat, env: (nat, Table<K, V>) -> Table<K, V>,
                                           envMap: (nat, map<K, V>) -> map<K, V>)
  {
    forall n: nat, u: Table<K, V>, um: map<K, V> :: Inv(hash, u, um) ==> Inv(hash, env(n, u), envMap(n, um))
  }

  lemma Interfere<K(!new), V(!new)>(hash: K -> nat, env: (nat, Table<K, V>) -> Table<K, V>,
                                    envMap: (nat, map<K, V>) -> map<K, V>, n: nat, u: Table<K, V>, um: map<K, V>)
    requires Lawful(hash, env, envMap) && Inv(hash, u, um)
    ensures Inv(hash, env(n, u), envMap(n, um))
  {
  }

  /** The map after other threads' changes at the depths hi, hi - 1, ..., d + 1 of a path. */
  ghost function After<K(!new), V(!new)>(envMap: (nat, map<K, V>) -> map<K, V>, hi: nat, d: nat,
                                         m: map<K, V>): map<K, V>
    decreases hi - d
  {
    if d >= hi then m else envMap(d + 1, After(envMap, hi, d + 1, m))
  }

  /** What the others have left when a path of n positions has been followed down to depth d. */
  ghost function Left<K(!new), V(!new)>(envMap: (nat, map<K, V>) -> map<K, V>, n: nat, d: nat, m: map<K, V>): map<K, V>
    requires n > 0
  {
    if n == 1 then envMap(0, m) else After(envMap, n - 1, d, m)
  }

  lemma {:induction false} AfterQuiet<K(!new), V(!new)>(envMap: (nat, map<K, V>) -> map<K, V>, hi: nat, d: nat,
                                                        m: map<K, V>)
    requires forall n, um :: envMap(n, um) == um
    ensures After(envMap, hi, d, m) == m
    decreases hi - d
  {
    if d < hi {
      AfterQuiet(envMap, hi, d + 1, m);
    }
  }

  /** The table is as the path needs it up to `depth`: there is a vacant slot at that position, and before it the keys
      are in the slots where they were seen. All buckets of the path are migrated. */
  ghost predicate Current<K, V>(hash: K -> nat, t: Table<K, V>, path: seq<CuckooRecord>, depth: nat)
    requires Shaped(t)
  {
    && depth < |path|
    && (forall k :: 0 <= k < |path| ==> path[k].bucket < |t.buckets| && Unlocked(t, path[k].bucket))
    && (forall k :: 0 <= k < depth ==> SlotOf(t, path[k]).Item? && hash(SlotOf(t, path[k]).key) == path[k].hash)
    && SlotOf(t, path[depth]).Vacant?
  }

  /** No bucket occurs twice on the path. */
  ghost predicate Simple(path: seq<CuckooRecord>) {
    forall i, j :: 0 <= i < j < |path| ==> path[i].bucket != path[j].bucket
  }

  lemma CurrentKept<K, V>(hash: K -> nat, t: Table<K, V>, u: Table<K, V>, path: seq<CuckooRecord>, depth: nat)
    requires Shaped(t) && Shaped(u) && Kept(t, u) && Current(hash, t, path, depth)
    ensures Current(hash, u, path, depth)
  {
    hide Shaped;
  }

  /** Under the locks of a current path the next move can be made. */
  lemma CurrentStep<K, V>(hash: K -> nat, t0: Table<K, V>, t1: Table<K, V>, u: Table<K, V>, path: seq<CuckooRecord>,
                          depth: nat)
    requires Shaped(t0) && Shaped(t1) && Shaped(u) && (t1 == t0 || Kept(t0, t1)) && Kept(t1, u)
    requires Current(hash, t0, path, depth) && depth > 0
    ensures Current(hash, u, path, depth) && Movable(hash, u, path[depth - 1], path[depth])
  {
    hide Shaped, Kept;
    if t1 != t0 {
      CurrentKept(hash, t0, t1, path, depth);
    }
    CurrentKept(hash, t1, u, path, depth);
  }

  lemma CurrentVacant<K, V>(hash: K -> nat, t: Table<K, V>, path: seq<CuckooRecord>)
    requires Shaped(t) && Current(hash, t, path, 0)
    ensures SlotOf(t, path[0]).Vacant?
  {
  }

  lemma CurrentMoved<K, V>(hash: K -> nat, u: Table<K, V>, r: Table<K, V>, path: seq<CuckooRecord>, depth: nat)
    requires Shaped(u) && Shaped(r) && Current(hash, u, path, depth) && Simple(path) && depth > 0
    requires r.hp == u.hp && r.migrated == u.migrated && |r.buckets| == |u.buckets|
    requires SlotOf(r, path[depth - 1]).Vacant? && OthersKept(u, r, path[depth - 1], path[depth])
    ensures Current(hash, r, path, depth - 1)
  {
    hide Shaped, LockInd;
    forall k | 0 <= k < depth - 1
      ensures SlotOf(r, path[k]) == SlotOf(u, path[k])
    {
      assert path[k].bucket != path[depth - 1].bucket && path[k].bucket != path[depth].bucket;
    }
  }

  /** The move out of position depth - 1 of a path. The last one is made under the locks of both insert buckets. */
  method MoveAt<K(!new), V>(hash: K -> nat, t: Table<K, V>, path: seq<CuckooRecord>, i1: nat, i2: nat, depth: nat,
                            ghost m: map<K, V>, ghost current: bool)
    returns (ok: bool, r: Table<K, V>)
    requires Inv(hash, t, m) && PathOk(t.hp, path, i1, i2) && i1 < Pow2(t.hp) && i2 < Pow2(t.hp) && 0 < depth < |path|
    requires current ==> Simple(path) && Current(hash, t, path, depth)
    ensures Inv(hash, r, m) && r.hp == t.hp && (current ==> ok && Current(hash, r, path, depth - 1))
    ensures ok && depth == 1 ==> Unlocked(r, i1) && Unlocked(r, i2) && SlotOf(r, path[0]).Vacant?
  {
    hide Placed, Stores, Migrating, AltIndex, Partial, Pow2, NumLocks, LockInd, Current, Simple, Kept, OthersKept,
         Movable;
    r := t;
    if depth == 1 {
      r := LockTwo(hash, r, i1, i2, m);  // lock_three: both insert buckets and the target
    }
    PathInRange(t.hp, path, i1, i2, depth - 1);
    ghost var t1, u := r, r;
    ok, r, u := MoveStep(hash, r, path[depth - 1], path[depth], m);
    if depth == 1 {
      StillUnlocked(t1, u, r, i1);
      StillUnlocked(t1, u, r, i2);
    }
    if current {
      CurrentStep(hash, t, t1, u, path, depth);
      CurrentMoved(hash, u, r, path, depth);
    }
  }

  lemma StillUnlocked<K, V>(t: Table<K, V>, u: Table<K, V>, r: Table<K, V>, i: nat)
    requires Shaped(t) && Shaped(u) && Shaped(r) && Kept(t, u) && Unlocked(t, i)
    requires r.hp == u.hp && r.migrated == u.migrated && |r.buckets| == |u.buckets|
    ensures Unlocked(r, i)
  {
  }

  method LockInsertBuckets<K(!new), V>(hash: K -> nat, t: Table<K, V>, ghost path: seq<CuckooRecord>, i1: nat, i2: nat,
                                       ghost m: map<K, V>, ghost current: bool)
    returns (r: Table<K, V>)
    requires Inv(hash, t, m) && i1 < Pow2(t.hp) && i2 < Pow2(t.hp) && |path| == 1
    requires current ==> Current(hash, t, path, 0)
    ensures Inv(hash, r, m) && r.hp == t.hp && Unlocked(r, i1) && Unlocked(r, i2)
    ensures current ==> Current(hash, r, path, 0)
  {
    hide Placed, Stores, Migrating, Pow2, NumLocks, LockInd, Current, Kept;
    r := LockTwo(hash, t, i1, i2, m);
    if current {
      CurrentKept(hash, t, r, path, 0);
    }
  }

  /** Other threads change nothing while the path is followed. */
  ghost predicate Undisturbed<K(!new), V(!new)>(env: (nat, Table<K, V>) -> Table<K, V>) {
    forall n, u :: env(n, u) == u
  }

  /** cuckoopath_move with interference: before each lock acquisition other threads may turn the table into any other
      one that satisfies the invariant (`env`, storing `envMap`). If the hash power has changed, or a key or slot is not
      as it was seen, the path is given up. If all moves succeed, the first slot of the path is free and the locks of
      both insert buckets are held. In every case the table stores exactly the map that the others' changes down to
      depth `d` leave: all of them if the moves succeed. They do succeed if nobody interferes and the path is
      current. */
  method CuckooPathMove<K(!new), V(!new)>(hash: K -> nat, t: Table<K, V>, path: seq<CuckooRecord>, i1: nat, i2: nat,
                                    env: (nat, Table<K, V>) -> Table<K, V>, ghost envMap: (nat, map<K, V>) -> map<K, V>,
                                    ghost m: map<K, V>)
    returns (ok: bool, r: Table<K, V>, ghost m': map<K, V>, ghost d: nat)
    requires Inv(hash, t, m) && PathOk(t.hp, path, i1, i2) && i1 < Pow2(t.hp) && i2 < Pow2(t.hp)
    requires Lawful(hash, env, envMap)
    ensures Inv(hash, r, m') && (ok || (forall n, u :: env(n, u).hp == u.hp) ==> r.hp == t.hp)
    ensures d < |path| && m' == Left(envMap, |path|, d, m) && (ok ==> d == 0)
    ensures ok ==> Unlocked(r, i1) && Unlocked(r, i2) && Get(r, Pos(false, path[0].bucket, path[0].slot)).Vacant?
    ensures Undisturbed(env) && Simple(path) && Current(hash, t, path, |path| - 1) ==> ok
  {
    hide Placed, Stores, Migrating, AltIndex, Partial, Pow2, NumLocks, LockInd, Lawful, Current, Simple, Kept,
         OthersKept;
    ghost var current := Undisturbed(env) && Simple(path) && Current(hash, t, path, |path| - 1);
    r, m' := t, m;
    var depth: nat := |path| - 1;
    d := depth;
    while depth > 0
      invariant 0 <= depth < |path|
      invariant Inv(hash, r, m') && r.hp == t.hp
      invariant m' == After(envMap, |path| - 1, depth, m) && d == depth
      invariant depth == 0 && |path| > 1 ==>
                  Unlocked(r, i1) && Unlocked(r, i2) && Get(r, Pos(false, path[0].bucket, path[0].slot)).Vacant?
      invariant current ==> Current(hash, r, path, depth)
    {
      Interfere(hash, env, envMap, depth, r, m');
      r, m' := env(depth, r), envMap(depth, m');
      d := depth - 1;
      if r.hp != t.hp {
        ok := false;  // the hash power changed before the locks were taken
        return;
      }
      ok, r := MoveAt(hash, r, path, i1, i2, depth, m', current);
      if !ok {
        return;
      }
      depth := depth - 1;
    }
    if |path| == 1 {
      Interfere(hash, env, envMap, 0, r, m');
      r, m' := env(0, r), envMap(0, m');
      if r.hp != t.hp {
        ok := false;
        return;
      }
      r := LockInsertBuckets(hash, r, path, i1, i2, m', current);
    }
    if current {
      CurrentVacant(hash, r, path);
    }
    ok := Get(r, Pos(false, path[0].bucket, path[0].slot)).Vacant?;
  }

  /** Nothing stands in the way of the path: it visits no bucket twice and is as it was seen. */
  ghost predicate Ready<K, V>(hash: K -> nat, t: Table<K, V>, path: seq<CuckooRecord>) {
    path != [] && Shaped(t) && Simple(path) && Current(hash, t, path, |path| - 1)
  }

  lemma ReadyKept<K(!new), V>(hash: K -> nat, t: Table<K, V>, r: Table<K, V>, path: seq<CuckooRecord>, m: map<K, V>)
    requires Inv(hash, t, m) && Inv(hash, r, m) && Shaped(t) && Shaped(r) && Kept(t, r)
    ensures Ready(hash, t, path) ==> Ready(hash, r, path)
  {
    hide Shaped, Kept, Current, Simple;
    if Ready(hash, t, path) {
      CurrentKept(hash, t, r, path, |path| - 1);
    }
  }

  lemma ReadyIs<K, V>(hash: K -> nat, t: Table<K, V>, path: seq<CuckooRecord>)
    requires Shaped(t) && path != []
    ensures Ready(hash, t, path) <==> Simple(path) && Current(hash, t, path, |path| - 1)
  {
    hide Simple, Current;
  }

  // ----- a search that nobody disturbs -----

  /** What reads find in a table that does not change. */
  function ReadsOf<K, V>(hash: K -> nat, t: Table<K, V>): Reads {
    (n: nat, b: nat) => seq(SLOTS, s requires 0 <= s < SLOTS => PartialAt(hash, t, b, s))
  }

  function PartialAt<K, V>(hash: K -> nat, t: Table<K, V>, b: nat, s: nat): Option<nat> {
    var h := HashAt(hash, t, b, s);
    if h.Some? then Some(Partial(h.value)) else None
  }

  function HashAt<K, V>(hash: K -> nat, t: Table<K, V>, b: nat, s: nat): Option<nat> {
    var x := Get(t, Pos(false, b, s));
    if x.Item? then Some(hash(x.key)) else None
  }

  ghost predicate Migrated<K, V>(t: Table<K, V>, i: nat) {
    Shaped(t) && i < |t.buckets| && Unlocked(t, i)
  }

  lemma ReadsStatic<K, V>(hash: K -> nat, t: Table<K, V>)
    ensures Static(ReadsOf(hash, t)) && forall n, b :: |ReadsOf(hash, t)(n, b)| == SLOTS
    ensures forall n, b, s :: 0 <= s < SLOTS ==> ReadsOf(hash, t)(n, b)[s] == PartialAt(hash, t, b, s)
  {
  }

  /** The second walk finds what the first one saw, so it visits the same buckets up to the vacant slot. */
  lemma {:induction false} SameWalk<K, V>(hash: K -> nat, t: Table<K, V>, i1: nat, i2: nat, trail: Trail,
                                          path: seq<CuckooRecord>, k: nat)
    requires EndsVacant(t.hp, i1, i2, ReadsOf(hash, t), trail) && PathOk(t.hp, path, i1, i2)
    requires k < |path| <= |trail.slots| && path[0].bucket == trail.buckets[0]
    requires forall i :: 0 <= i < |path| ==> path[i].slot == trail.slots[i]
    requires forall i :: 0 <= i < |path| - 1 ==> HashAt(hash, t, path[i].bucket, path[i].slot) == Some(path[i].hash)
    ensures path[k].bucket == trail.buckets[k]
    ensures k < |trail.slots| - 1 ==> HashAt(hash, t, path[k].bucket, path[k].slot).Some?
  {
    hide AltIndex, Partial, HashAt;
    if k > 0 {
      SameWalk(hash, t, i1, i2, trail, path, k - 1);
      assert SeenStep(t.hp, ReadsOf(hash, t), trail, k - 1);
    }
    if k < |trail.slots| - 1 {
      assert SeenStep(t.hp, ReadsOf(hash, t), trail, k);
    }
  }

  lemma FoundReady<K, V>(hash: K -> nat, t: Table<K, V>, i1: nat, i2: nat, x: BSlot, trail: Trail,
                         path: seq<CuckooRecord>)
    requires Shaped(t) && EndsVacant(t.hp, i1, i2, ReadsOf(hash, t), trail) && Direct(trail) && Codes(x, trail)
    requires PathOk(t.hp, path, i1, i2) && |path| <= x.depth + 1
    requires path[0].bucket == (if trail.start == 0 then i1 else i2)
    requires forall k :: 0 <= k < |path| ==> path[k].slot == trail.slots[k] && Migrated(t, path[k].bucket)
    requires forall k :: 0 <= k < |path| - 1 ==> HashAt(hash, t, path[k].bucket, path[k].slot) == Some(path[k].hash)
    requires HashAt(hash, t, path[|path| - 1].bucket, path[|path| - 1].slot).None? || |path| == x.depth + 1
    ensures Ready(hash, t, path)
  {
    hide AltIndex, Partial, Encode, PathOk, Shaped;
    PathSome(t.hp, path, i1, i2);
    forall k | 0 <= k < |path|
      ensures path[k].bucket == trail.buckets[k]
      ensures k < |trail.slots| - 1 ==> HashAt(hash, t, path[k].bucket, path[k].slot).Some?
    {
      SameWalk(hash, t, i1, i2, trail, path, k);
    }
    assert |path| == x.depth + 1;
    var last := |path| - 1;
    assert ReadsOf(hash, t)(trail.when[last], trail.buckets[last])[trail.slots[last]]
           == PartialAt(hash, t, path[last].bucket, path[last].slot);
    forall k | 0 <= k < last
      ensures SlotOf(t, path[k]).Item? && hash(SlotOf(t, path[k]).key) == path[k].hash
    {
      assert HashAt(hash, t, path[k].bucket, path[k].slot) == Some(path[k].hash);
    }
  }

  lemma PathSome(hp: nat, path: seq<CuckooRecord>, i1: nat, i2: nat)
    requires PathOk(hp, path, i1, i2)
    ensures path != []
  {
  }

  /** run_cuckoo's search when nobody changes the table. Every bucket is read under its lock, so the buckets of the path
      are migrated; then the moves along the path succeed. Without a path the whole search tree is full. */
  method SearchAlone<K(!new), V(!new)>(hash: K -> nat, t: Table<K, V>, i1: nat, i2: nat, ghost m: map<K, V>)
    returns (path: Option<seq<CuckooRecord>>)
    requires Inv(hash, t, m) && i1 < Pow2(t.hp) && i2 < Pow2(t.hp)
    ensures path.Some? ==> PathOk(t.hp, path.value, i1, i2)
    ensures path.Some? && (forall k :: 0 <= k < |path.value| ==> Migrated(t, path.value[k].bucket)) ==>
              Ready(hash, t, path.value)
    ensures path.None? ==> AllFull(t.hp, i1, i2, ReadsOf(hash, t))
  {
    hide Placed, Stores, Migrating, Pow2, NumLocks, LockInd, Codes, EndsVacant, Exhausted, AllFull, LeadsToVacant,
         Direct;
    hide Static, Ready, ReadsOf, PathOk, Shaped;
    ReadsStatic(hash, t);
    var found, x, trail, q := SlotSearch(t.hp, i1, i2, ReadsOf(hash, t));
    if !found {
      return None;
    }
    var records := CuckooPathSearch(t.hp, i1, i2, x, trail, (n: nat, b: nat, s: nat) => HashAt(hash, t, b, s));
    path := Some(records);
    if forall k :: 0 <= k < |records| ==> Migrated(t, records[k].bucket) {
      FoundReady(hash, t, i1, i2, x, trail, records);
    }
  }

  ghost predicate SomeLeft<K(!new), V(!new)>(envMap: (nat, map<K, V>) -> map<K, V>, n: nat, m: map<K, V>,
                                             left: map<K, V>) {
    exists d: nat :: d < n && left == Left(envMap, n, d, m)
  }

  /** Nobody interferes. */
  function Quiet<K, V>(n: nat, u: Table<K, V>): Table<K, V> { u }

  ghost function QuietMap<K, V>(n: nat, um: map<K, V>): map<K, V> { um }

  lemma QuietIsLawful<K(!new), V(!new)>(hash: K -> nat)
    ensures Lawful(hash, Quiet<K, V>, QuietMap<K, V>)
  {
    hide Inv;
  }

  lemma QuietLeft<K(!new), V(!new)>(n: nat, m: map<K, V>, left: map<K, V>)
    requires SomeLeft(QuietMap<K, V>, n, m, left)
    ensures left == m
  {
    var d: nat :| d < n && left == Left(QuietMap<K, V>, n, d, m);
    AfterQuiet(QuietMap<K, V>, n - 1, d, m);
  }

  lemma QueueLength(q: seq<BSlot>, trails: seq<Trail>, first: nat)
    requires QueueOk(q, trails, first)
    ensures first <= |q| == |trails|
  {
  }

  lemma StartQueue(hp: nat, i1: nat, i2: nat, read: Reads)
    ensures var q, trails := [BSlot(i1, 0, 0), BSlot(i2, 1, 0)], [Trail(0, [], [i1], []), Trail(1, [], [i2], [])];
            QueueOk(q, trails, 0) && QueueTraced(hp, i1, i2, read, q, trails)
              && |q| + Potential(q, 0) == 2 * TreeSize(0)
  {
    var q := [BSlot(i1, 0, 0), BSlot(i2, 1, 0)];
    hide TreeSize;
    assert Potential(q, 2) == 0 && Potential(q, 1) == TreeSize(0) - 1;
  }

  lemma NextNode(hp: nat, i1: nat, i2: nat, read: Reads, q: seq<BSlot>, trails: seq<Trail>, first: nat)
    requires QueueOk(q, trails, first) && QueueTraced(hp, i1, i2, read, q, trails) && first < |q|
    ensures QueueOk(q, trails, first + 1) && Follows(q[first], trails[first])
    ensures Traced(hp, i1, i2, read, trails[first], q[first].bucket)
    ensures Potential(q, first) == Potential(q, first + 1) + TreeSize(q[first].depth) - 1
  {
    hide Traced, Follows, TreeSize;
  }

  lemma FoundCode(x: BSlot, t: Trail, slot: nat, n: nat)
    requires Follows(x, t) && slot < SLOTS
    ensures Codes(x.(pathcode := x.pathcode * SLOTS + slot), Trail(t.start, t.slots + [slot], t.buckets, t.when + [n]))
  {
    Extend(x, t, slot);
    hide Encode;
  }

  lemma QueueAdd(hp: nat, i1: nat, i2: nat, read: Reads, q: seq<BSlot>, trails: seq<Trail>, first: nat, x: BSlot,
                 t: Trail, slot: nat, n: nat)
    requires QueueOk(q, trails, first) && QueueTraced(hp, i1, i2, read, q, trails)
    requires Follows(x, t) && Traced(hp, i1, i2, read, t, x.bucket) && x.depth < MAX_BFS_PATH_LEN - 1
    requires slot < SLOTS && slot < |read(n, x.bucket)| && read(n, x.bucket)[slot].Some?
    ensures var z := Child(hp, x, read(n, x.bucket), slot);
            var u := Trail(t.start, t.slots + [slot], t.buckets + [z.bucket], t.when + [n]);
            QueueOk(q + [z], trails + [u], first) && QueueTraced(hp, i1, i2, read, q + [z], trails + [u])
  {
    hide AltIndex, Traced, Encode;
    TraceChild(hp, i1, i2, read, t, x, n, slot);
    Extend(x, t, slot);
  }

  lemma ExploredNext(hp: nat, x: BSlot, b: seq<Option<nat>>, i: nat, q: seq<BSlot>)
    requires Explored(hp, x, b, i, q) && |b| == SLOTS && b[SlotAt(x, i)].Some?
    requires x.depth < MAX_BFS_PATH_LEN - 1 ==> q != [] && q[|q| - 1] == Child(hp, x, b, SlotAt(x, i))
    ensures Explored(hp, x, b, i + 1, q)
  {
    hide SlotAt, AltIndex;
    SlotDoneNow(hp, x, b, SlotAt(x, i), q);
  }

  lemma ExploredNone(hp: nat, x: BSlot, b: seq<Option<nat>>, q: seq<BSlot>)
    requires |b| == SLOTS
    ensures Explored(hp, x, b, 0, q)
  {
  }
}
