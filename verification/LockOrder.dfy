/** The locking protocol of inserts and searches: every operation takes its locks in one ascending sequence, so that
    no set of operations can wait for each other in a cycle. */
module LockOrder {
  import opened Counting

  /** The lock tables in the order in which an insert takes them. */
  const PAGE: nat := 0
  const VEC: nat := 1
  const IDX: nat := 2
  const PAGE_IDX: nat := 3

  datatype Lock = Lock(table: nat, key: nat)

  datatype Request = Request(lock: Lock, exclusive: bool)

  predicate Before(a: Lock, b: Lock) {
    a.table < b.table || (a.table == b.table && a.key < b.key)
  }

  ghost predicate Ascending(s: seq<Request>) {
    forall i, j :: 0 <= i < j < |s| ==> Before(s[i].lock, s[j].lock)
  }

  // ----- the sequences -----

  ghost predicate NonDecreasing(s: seq<nat>) {
    forall i, j :: 0 <= i < j < |s| ==> s[i] <= s[j]
  }

  function Place(s: seq<nat>, x: nat): (r: seq<nat>)
    requires NonDecreasing(s)
    ensures NonDecreasing(r) && multiset(r) == multiset(s) + multiset{x}
    ensures |r| == |s| + 1 && r[|r| - 1] == if s == [] || s[|s| - 1] <= x then x else s[|s| - 1]
  {
    if s == [] || s[|s| - 1] <= x then s + [x]
    else
      var t, y := s[..|s| - 1], s[|s| - 1];
      assert s == t + [y];
      Place(t, x) + [y]
  }

  function Sort(s: seq<nat>): (r: seq<nat>)
    ensures NonDecreasing(r) && multiset(r) == multiset(s)
  {
    if s == [] then []
    else
      assert s == s[..|s| - 1] + [s[|s| - 1]];
      Place(Sort(s[..|s| - 1]), s[|s| - 1])
  }

  /** std::unique on a sorted list. */
  function Unique(s: seq<nat>): (r: seq<nat>)
    requires NonDecreasing(s)
    ensures Increasing(r) && (s == [] <==> r == []) && (r != [] ==> r[|r| - 1] == s[|s| - 1])
  {
    if s == [] then []
    else
      var r, x := Unique(s[..|s| - 1]), s[|s| - 1];
      if r != [] && r[|r| - 1] == x then r else r + [x]
  }

  /** Every key that was asked for is locked, and no other. */
  lemma {:induction false} UniqueMembers(s: seq<nat>, x: nat)
    requires NonDecreasing(s)
    ensures x in Unique(s) <==> x in s
  {
    if s != [] {
      var t, y := s[..|s| - 1], s[|s| - 1];
      assert s == t + [y];
      UniqueMembers(t, x);
      var r := Unique(t);
      if r != [] && r[|r| - 1] == y {
        assert y in r;
      }
    }
  }

  /** lock_vec sorts without removing duplicates: its sequence ascends exactly if the ids are distinct, and with a
      duplicate the operation would wait for a lock it holds itself. */
  lemma SortAscends(s: seq<nat>)
    ensures Increasing(Sort(s)) <==> forall x :: x in s ==> multiset(s)[x] == 1
  {
    hide Sort;
    var r := Sort(s);
    if Increasing(r) {
      forall x | x in s
        ensures multiset(s)[x] == 1
      {
        IncreasingOnce(r, x);
        assert x in multiset(r);
      }
    } else {
      var i, j :| 0 <= i < j < |r| && r[i] == r[j];
      Twice(r, i, j);
      assert r[i] in multiset(s);
    }
  }

  lemma {:induction false} IncreasingOnce(r: seq<nat>, x: nat)
    requires Increasing(r)
    ensures multiset(r)[x] <= 1
  {
    if r != [] {
      var t, y := r[..|r| - 1], r[|r| - 1];
      assert r == t + [y];
      IncreasingOnce(t, x);
      if x == y {
        assert y !in t;
      }
    }
  }

  lemma Twice(r: seq<nat>, i: nat, j: nat)
    requires i < j < |r| && r[i] == r[j]
    ensures multiset(r)[r[i]] >= 2
  {
    assert r == r[..j] + r[j..];
    assert r[..j][i] == r[i];
    assert r[j..][0] == r[j];
    assert multiset(r) == multiset(r[..j]) + multiset(r[j..]);
    assert r[i] in multiset(r[..j]) && r[i] in multiset(r[j..]);
  }

  function Tagged(table: nat, keys: seq<nat>, exclusive: bool): (r: seq<Request>)
    ensures |r| == |keys| && forall i :: 0 <= i < |r| ==> r[i] == Request(Lock(table, keys[i]), exclusive)
  {
    seq(|keys|, i requires 0 <= i < |keys| => Request(Lock(table, keys[i]), exclusive))
  }

  /** All locks of an insert: pages to write, target and neighbours, their mapping, the pages of their mapping. */
  function InsertLocks(pages: seq<nat>, target: nat, nhood: seq<nat>, mapped: seq<nat>): (r: seq<Request>) {
    Tagged(PAGE, Unique(Sort(pages)), true) + Tagged(VEC, Sort(nhood + [target]), true)
    + Tagged(IDX, Unique(Sort(nhood + [target])), true) + Tagged(PAGE_IDX, Unique(Sort(mapped)), true)
  }

  /** The locks of one round of a beam search. */
  function SearchLocks(frontier: seq<nat>): (r: seq<Request>) {
    Tagged(IDX, Unique(Sort(frontier)), false)
  }

  lemma TaggedIs(table: nat, keys: seq<nat>, exclusive: bool, r: Request)
    ensures r in Tagged(table, keys, exclusive) <==>
            r.lock.table == table && r.lock.key in keys && r.exclusive == exclusive
  {
    if r.lock.table == table && r.lock.key in keys && r.exclusive == exclusive {
      var i :| 0 <= i < |keys| && keys[i] == r.lock.key;
      assert Tagged(table, keys, exclusive)[i] == r;
    }
  }

  lemma SortedMembers(s: seq<nat>, x: nat)
    ensures x in Sort(s) <==> x in s
    ensures x in Unique(Sort(s)) <==> x in s
  {
    hide Sort;
    UniqueMembers(Sort(s), x);
    assert x in Sort(s) <==> x in multiset(Sort(s));
    assert x in s <==> x in multiset(s);
  }

  /** An insert locks exclusively the pages it writes, the vectors and mappings of the target and its neighbours, and
      the pages of the mapping, and nothing else. */
  lemma InsertTakes(pages: seq<nat>, target: nat, nhood: seq<nat>, mapped: seq<nat>, r: Request)
    ensures r in InsertLocks(pages, target, nhood, mapped) <==>
            && r.exclusive
            && ((r.lock.table == PAGE && r.lock.key in pages)
                || (r.lock.table in {VEC, IDX} && (r.lock.key == target || r.lock.key in nhood))
                || (r.lock.table == PAGE_IDX && r.lock.key in mapped))
  {
    hide Sort, Unique, Tagged;
    var ids := nhood + [target];
    var x := r.lock.key;
    SortedMembers(pages, x);
    SortedMembers(ids, x);
    SortedMembers(mapped, x);
    TaggedIs(PAGE, Unique(Sort(pages)), true, r);
    TaggedIs(VEC, Sort(ids), true, r);
    TaggedIs(IDX, Unique(Sort(ids)), true, r);
    TaggedIs(PAGE_IDX, Unique(Sort(mapped)), true, r);
  }

  /** A search round locks the mappings of its frontier, shared. */
  lemma SearchTakes(frontier: seq<nat>, r: Request)
    ensures r in SearchLocks(frontier) <==> !r.exclusive && r.lock.table == IDX && r.lock.key in frontier
  {
    hide Sort, Unique, Tagged;
    SortedMembers(frontier, r.lock.key);
    TaggedIs(IDX, Unique(Sort(frontier)), false, r);
  }

  ghost predicate Below(s: seq<Request>, table: nat) {
    forall i :: 0 <= i < |s| ==> s[i].lock.table < table
  }

  lemma TaggedAscending(table: nat, keys: seq<nat>, exclusive: bool)
    requires Increasing(keys)
    ensures Ascending(Tagged(table, keys, exclusive))
  {
  }

  /** Locks of a later table can follow. */
  lemma ThenTable(a: seq<Request>, table: nat, keys: seq<nat>, exclusive: bool)
    requires Ascending(a) && Below(a, table) && Increasing(keys)
    ensures Ascending(a + Tagged(table, keys, exclusive)) && Below(a + Tagged(table, keys, exclusive), table + 1)
  {
  }

  /** An insert whose target and neighbours are distinct takes all its locks in ascending order. */
  lemma InsertAscends(pages: seq<nat>, target: nat, nhood: seq<nat>, mapped: seq<nat>)
    requires forall x :: x in nhood + [target] ==> multiset(nhood + [target])[x] == 1
    ensures Ascending(InsertLocks(pages, target, nhood, mapped))
  {
    hide Sort, Unique, Tagged, Ascending, Below;
    SortAscends(nhood + [target]);
    NoLocks(PAGE);
    ThenTable([], PAGE, Unique(Sort(pages)), true);
    var a := Tagged(PAGE, Unique(Sort(pages)), true);
    assert [] + a == a;
    ThenTable(a, VEC, Sort(nhood + [target]), true);
    var b := a + Tagged(VEC, Sort(nhood + [target]), true);
    ThenTable(b, IDX, Unique(Sort(nhood + [target])), true);
    var c := b + Tagged(IDX, Unique(Sort(nhood + [target])), true);
    ThenTable(c, PAGE_IDX, Unique(Sort(mapped)), true);
  }

  lemma SearchAscends(frontier: seq<nat>)
    ensures Ascending(SearchLocks(frontier))
  {
    TaggedAscending(IDX, Unique(Sort(frontier)), false);
  }

  // ----- what an operation releases -----

  function Locks(table: nat, keys: seq<nat>): (r: seq<Lock>)
    ensures |r| == |keys| && forall i :: 0 <= i < |r| ==> r[i] == Lock(table, keys[i])
  {
    seq(|keys|, i requires 0 <= i < |keys| => Lock(table, keys[i]))
  }

  /** The releases of an insert in their order. The target has been appended to the neighbours by then, so its vector
      lock is released twice. */
  function InsertReleases(pages: seq<nat>, target: nat, nhood: seq<nat>, mapped: seq<nat>): (r: seq<Lock>) {
    Locks(PAGE_IDX, Unique(Sort(mapped)))
    + (Locks(IDX, Unique(Sort(nhood + [target])))
       + (Locks(VEC, [target] + (nhood + [target])) + Locks(PAGE, Unique(Sort(pages)))))
  }

  function SearchReleases(frontier: seq<nat>): (r: seq<Lock>) {
    Locks(IDX, Unique(Sort(frontier)))
  }

  /** A vector lock that some insert releases twice, if the inserts' targets are among `targets`. */
  ghost predicate Loose(targets: iset<nat>, x: Lock) {
    x.table == VEC && x.key in targets
  }

  /** Every lock taken is released; but for the targets' vector locks nothing else is, and nothing twice. */
  ghost predicate Releases(targets: iset<nat>, taken: seq<Request>, rel: seq<Lock>) {
    && (forall i :: 0 <= i < |taken| ==> taken[i].lock in rel && (taken[i].lock.table == VEC ==> taken[i].exclusive))
    && (forall k :: 0 <= k < |rel| && !Loose(targets, rel[k]) ==> TakenLock(taken, rel[k]))
    && (forall k, l :: 0 <= k < l < |rel| && !Loose(targets, rel[k]) ==> rel[k] != rel[l])
  }

  ghost predicate TakenLock(taken: seq<Request>, x: Lock) {
    exists i :: 0 <= i < |taken| && taken[i].lock == x
  }

  /** One table's part of the taken and of the released locks. */
  lemma TableReleases(targets: iset<nat>, table: nat, keys: seq<nat>, exclusive: bool, rel: seq<Lock>)
    requires table != VEC && Increasing(keys) && rel == Locks(table, keys)
    ensures Releases(targets, Tagged(table, keys, exclusive), rel)
  {
    forall i | 0 <= i < |keys|
      ensures Lock(table, keys[i]) in rel && TakenLock(Tagged(table, keys, exclusive), rel[i])
    {
      assert rel[i] == Lock(table, keys[i]);
      assert Tagged(table, keys, exclusive)[i].lock == rel[i];
    }
  }

  lemma VecReleases(targets: iset<nat>, target: nat, nhood: seq<nat>)
    requires target in targets && forall x :: x in nhood + [target] ==> multiset(nhood + [target])[x] == 1
    ensures Releases(targets, Tagged(VEC, Sort(nhood + [target]), true), Locks(VEC, [target] + (nhood + [target])))
  {
    hide Sort;
    var keys, all := Sort(nhood + [target]), [target] + (nhood + [target]);
    var rel := Locks(VEC, all);
    forall i | 0 <= i < |keys|
      ensures Lock(VEC, keys[i]) in rel
    {
      assert keys[i] in multiset(nhood + [target]);
      var j :| 0 <= j < |nhood + [target]| && (nhood + [target])[j] == keys[i];
      assert all[j + 1] == keys[i];
      assert rel[j + 1] == Lock(VEC, keys[i]);
    }
    forall k | 0 <= k < |rel|
      ensures TakenLock(Tagged(VEC, keys, true), rel[k])
    {
      assert all[k] in nhood + [target];
      assert all[k] in multiset(keys);
      var i :| 0 <= i < |keys| && keys[i] == all[k];
      assert Tagged(VEC, keys, true)[i].lock == rel[k];
    }
    forall k, l | 0 <= k < l < |rel| && !Loose(targets, rel[k])
      ensures rel[k] != rel[l]
    {
      if rel[k] == rel[l] {
        Twice(nhood + [target], k - 1, l - 1);
      }
    }
  }

  ghost predicate RelBelow(rel: seq<Lock>, table: nat) {
    forall k :: 0 <= k < |rel| ==> rel[k].table < table
  }

  /** The locks of a later table are taken after and released before the others. */
  lemma JoinReleases(targets: iset<nat>, a: seq<Request>, ra: seq<Lock>, b: seq<Request>, table: nat, keys: seq<nat>)
    requires Releases(targets, a, ra) && Releases(targets, b, Locks(table, keys)) && RelBelow(ra, table)
    ensures Releases(targets, a + b, Locks(table, keys) + ra) && RelBelow(Locks(table, keys) + ra, table + 1)
  {
    forall x: Lock | TakenLock(a, x) || TakenLock(b, x)
      ensures TakenLock(a + b, x)
    {
      if TakenLock(a, x) {
        var i :| 0 <= i < |a| && a[i].lock == x;
        assert (a + b)[i].lock == x;
      } else {
        var i :| 0 <= i < |b| && b[i].lock == x;
        assert (a + b)[|a| + i].lock == x;
      }
    }
  }

  lemma InsertReleasesAll(targets: iset<nat>, pages: seq<nat>, target: nat, nhood: seq<nat>, mapped: seq<nat>)
    requires target in targets && forall x :: x in nhood + [target] ==> multiset(nhood + [target])[x] == 1
    ensures Releases(targets, InsertLocks(pages, target, nhood, mapped), InsertReleases(pages, target, nhood, mapped))
  {
    hide Sort, Unique, Tagged, Locks, Releases, RelBelow;
    var ps, vs, xs, ms := Unique(Sort(pages)), Sort(nhood + [target]), Unique(Sort(nhood + [target])),
      Unique(Sort(mapped));
    var us := [target] + (nhood + [target]);
    TableReleases(targets, PAGE, ps, true, Locks(PAGE, ps));
    VecReleases(targets, target, nhood);
    TableReleases(targets, IDX, xs, true, Locks(IDX, xs));
    TableReleases(targets, PAGE_IDX, ms, true, Locks(PAGE_IDX, ms));
    PagesBelow(ps);
    var a, b, c, d := Tagged(PAGE, ps, true), Tagged(VEC, vs, true), Tagged(IDX, xs, true), Tagged(PAGE_IDX, ms, true);
    var rb := Locks(VEC, us) + Locks(PAGE, ps);
    JoinReleases(targets, a, Locks(PAGE, ps), b, VEC, us);
    JoinReleases(targets, a + b, rb, c, IDX, xs);
    JoinReleases(targets, a + b + c, Locks(IDX, xs) + rb, d, PAGE_IDX, ms);
  }

  lemma PagesBelow(keys: seq<nat>)
    ensures RelBelow(Locks(PAGE, keys), VEC)
  {
  }

  lemma SearchReleasesAll(targets: iset<nat>, frontier: seq<nat>)
    ensures Releases(targets, SearchLocks(frontier), SearchReleases(frontier))
  {
    TableReleases(targets, IDX, Unique(Sort(frontier)), false, SearchReleases(frontier));
  }

  // ----- runs of any number of operations -----

  /** An operation: the locks it has taken and not released, those it still has to take, and the releases that
      follow. */
  datatype Holder = Holder(held: seq<Request>, todo: seq<Request>, rel: seq<Lock>)

  /** The operations, and what the lock tables have granted. */
  datatype State = State(ops: seq<Holder>, table: multiset<Request>)

  ghost predicate Conflict(a: Request, b: Request) {
    a.lock == b.lock && (a.exclusive || b.exclusive)
  }

  ghost predicate Grantable(table: multiset<Request>, r: Request) {
    forall g :: g in table ==> !Conflict(g, r)
  }

  /** pthread_rwlock_unlock: the writer leaves, or one of the readers, whoever calls it. */
  ghost function Unlock(table: multiset<Request>, x: Lock): multiset<Request> {
    if Request(x, true) in table then table - multiset{Request(x, true)} else table - multiset{Request(x, false)}
  }

  ghost function Without(held: seq<Request>, x: Lock): (r: seq<Request>)
    ensures forall y :: y in r <==> y in held && y.lock != x
  {
    if held == [] then []
    else
      var t, y := Without(held[..|held| - 1], x), held[|held| - 1];
      assert forall z :: z in held <==> z in held[..|held| - 1] || z == y;
      if y.lock == x then t else t + [y]
  }

  ghost predicate CanStep(s: State, i: nat) {
    i < |s.ops| && if s.ops[i].todo == [] then s.ops[i].rel != [] else Grantable(s.table, s.ops[i].todo[0])
  }

  /** An insert whose target is among `targets` and whose target and neighbours are distinct, or a round of a search,
      about to take its first lock. */
  ghost predicate Fresh(targets: iset<nat>, h: Holder) {
    && h.held == []
    && ((exists pages, target, nhood, mapped :: InsertOp(targets, h, pages, target, nhood, mapped))
        || (exists frontier :: h.todo == SearchLocks(frontier) && h.rel == SearchReleases(frontier)))
  }

  ghost predicate InsertOp(targets: iset<nat>, h: Holder, pages: seq<nat>, target: nat, nhood: seq<nat>,
                           mapped: seq<nat>) {
    && target in targets && (forall x :: x in nhood + [target] ==> multiset(nhood + [target])[x] == 1)
    && h.todo == InsertLocks(pages, target, nhood, mapped) && h.rel == InsertReleases(pages, target, nhood, mapped)
  }

  ghost predicate Idle(h: Holder) {
    h == Holder([], [], [])
  }

  ghost predicate StartStep(targets: iset<nat>, s: State, t: State, i: nat) {
    i < |s.ops| == |t.ops| && Idle(s.ops[i]) && Fresh(targets, t.ops[i]) && t.ops == s.ops[i := t.ops[i]]
      && t.table == s.table
  }

  ghost predicate TakeStep(s: State, t: State, i: nat) {
    && i < |s.ops| && s.ops[i].todo != [] && Grantable(s.table, s.ops[i].todo[0])
    && var h := s.ops[i];
       t == State(s.ops[i := Holder(h.held + [h.todo[0]], h.todo[1..], h.rel)], s.table + multiset{h.todo[0]})
  }

  ghost predicate ReleaseStep(s: State, t: State, i: nat) {
    && i < |s.ops| && s.ops[i].todo == [] && s.ops[i].rel != []
    && var h := s.ops[i];
       t == State(s.ops[i := Holder(Without(h.held, h.rel[0]), [], h.rel[1..])], Unlock(s.table, h.rel[0]))
  }

  ghost predicate Step(targets: iset<nat>, s: State, t: State, i: nat) {
    StartStep(targets, s, t, i) || TakeStep(s, t, i) || ReleaseStep(s, t, i)
  }

  // ----- each operation -----

  /** Its locks ascend, and all it has taken and will take is released as its list says. */
  ghost predicate Disciplined(targets: iset<nat>, h: Holder) {
    Ascending(h.held + h.todo) && Releases(targets, h.held + h.todo, h.rel)
  }

  ghost predicate Ordered(targets: iset<nat>, s: State) {
    forall i :: 0 <= i < |s.ops| ==> Disciplined(targets, s.ops[i])
  }

  lemma FreshDisciplined(targets: iset<nat>, h: Holder)
    requires Fresh(targets, h)
    ensures Disciplined(targets, h)
  {
    hide InsertLocks, InsertReleases, SearchLocks, SearchReleases, Ascending, Releases;
    assert h.held + h.todo == h.todo;
    if frontier :| h.todo == SearchLocks(frontier) && h.rel == SearchReleases(frontier) {
      SearchAscends(frontier);
      SearchReleasesAll(targets, frontier);
    } else {
      var pages, target, nhood, mapped :| InsertOp(targets, h, pages, target, nhood, mapped);
      InsertAscends(pages, target, nhood, mapped);
      InsertReleasesAll(targets, pages, target, nhood, mapped);
    }
  }

  lemma {:induction false} WithoutAscending(held: seq<Request>, x: Lock)
    requires Ascending(held)
    ensures Ascending(Without(held, x))
  {
    if held != [] {
      var t := held[..|held| - 1];
      WithoutAscending(t, x);
      forall i | 0 <= i < |Without(t, x)|
        ensures Before(Without(t, x)[i].lock, held[|held| - 1].lock)
      {
        assert Without(t, x)[i] in Without(t, x);
      }
    }
  }

  /** Releasing a lock leaves a list that fits what is still held. */
  lemma ReleasesRest(targets: iset<nat>, held: seq<Request>, rel: seq<Lock>)
    requires Ascending(held) && Releases(targets, held, rel) && rel != []
    ensures Releases(targets, Without(held, rel[0]), rel[1..])
  {
    hide Without, Ascending;
    var x, r, rest := rel[0], Without(held, rel[0]), rel[1..];
    forall i | 0 <= i < |r|
      ensures r[i].lock in rest && (r[i].lock.table == VEC ==> r[i].exclusive)
    {
      assert r[i] in r;
      ReleasedLater(targets, held, rel, r[i]);
    }
    forall k | 0 <= k < |rest| && !Loose(targets, rest[k])
      ensures TakenLock(r, rest[k])
    {
      StillTaken(targets, held, rel, k + 1);
    }
  }

  lemma ReleasedLater(targets: iset<nat>, held: seq<Request>, rel: seq<Lock>, q: Request)
    requires Releases(targets, held, rel) && rel != [] && q in held && q.lock != rel[0]
    ensures q.lock in rel[1..] && (q.lock.table == VEC ==> q.exclusive)
  {
    var k :| 0 <= k < |held| && held[k] == q;
    var l :| 0 <= l < |rel| && rel[l] == q.lock;
    assert rel[1..][l - 1] == q.lock;
  }

  lemma StillTaken(targets: iset<nat>, held: seq<Request>, rel: seq<Lock>, k: nat)
    requires Releases(targets, held, rel) && 0 < k < |rel| && !Loose(targets, rel[k])
    ensures TakenLock(Without(held, rel[0]), rel[k])
  {
    hide Without;
    var i :| 0 <= i < |held| && held[i].lock == rel[k];
    assert rel[0] != rel[k];
    assert held[i] in Without(held, rel[0]);
  }

  lemma ReleaseDisciplined(targets: iset<nat>, h: Holder)
    requires Disciplined(targets, h) && h.todo == [] && h.rel != []
    ensures Disciplined(targets, Holder(Without(h.held, h.rel[0]), [], h.rel[1..]))
  {
    hide Ascending, Releases, Without;
    assert h.held + h.todo == h.held;
    WithoutAscending(h.held, h.rel[0]);
    ReleasesRest(targets, h.held, h.rel);
    assert Without(h.held, h.rel[0]) + [] == Without(h.held, h.rel[0]);
  }

  lemma StepKeepsOrder(targets: iset<nat>, s: State, t: State, i: nat)
    requires Ordered(targets, s) && Step(targets, s, t, i)
    ensures Ordered(targets, t)
  {
    hide Ascending, Releases, Fresh, Grantable, Unlock, Without;
    var h := s.ops[i];
    if StartStep(targets, s, t, i) {
      FreshDisciplined(targets, t.ops[i]);
    } else if TakeStep(s, t, i) {
      assert h.held + [h.todo[0]] + h.todo[1..] == h.held + h.todo;
    } else {
      ReleaseDisciplined(targets, h);
    }
  }

  // ----- the tables -----

  /** How many operations have taken r and not released it. */
  ghost function Takers(ops: seq<Holder>, r: Request): nat {
    if ops == [] then 0 else Takers(ops[..|ops| - 1], r) + multiset(ops[|ops| - 1].held)[r]
  }

  lemma {:induction false} TakersUpdate(ops: seq<Holder>, i: nat, h: Holder, r: Request)
    requires i < |ops|
    ensures Takers(ops[i := h], r) + multiset(ops[i].held)[r] == Takers(ops, r) + multiset(h.held)[r]
  {
    var n := |ops| - 1;
    if i < n {
      TakersUpdate(ops[..n], i, h, r);
      assert ops[i := h][..n] == ops[..n][i := h];
    } else {
      assert ops[i := h][..n] == ops[..n];
    }
  }

  lemma {:induction false} TakersAtLeast(ops: seq<Holder>, i: nat, r: Request)
    requires i < |ops|
    ensures multiset(ops[i].held)[r] <= Takers(ops, r)
  {
    if i < |ops| - 1 {
      TakersAtLeast(ops[..|ops| - 1], i, r);
    }
  }

  lemma {:induction false} TwoTakers(ops: seq<Holder>, i: nat, j: nat, r: Request)
    requires i < j < |ops| && r in ops[i].held && r in ops[j].held
    ensures Takers(ops, r) >= 2
  {
    if j < |ops| - 1 {
      TwoTakers(ops[..|ops| - 1], i, j, r);
    } else {
      TakersAtLeast(ops[..j], i, r);
      assert r in multiset(ops[i].held) && r in multiset(ops[j].held);
    }
  }

  lemma {:induction false} SomeTaker(ops: seq<Holder>, r: Request) returns (i: nat)
    requires Takers(ops, r) > 0
    ensures i < |ops| && r in ops[i].held
  {
    if r in ops[|ops| - 1].held {
      i := |ops| - 1;
    } else {
      assert r !in multiset(ops[|ops| - 1].held);
      i := SomeTaker(ops[..|ops| - 1], r);
    }
  }

  /** The tables grant nothing conflicting and nothing that no operation has taken. But for the targets' vector locks
      they grant exactly what operations have taken. */
  ghost predicate Granted(targets: iset<nat>, s: State) {
    && (forall r :: s.table[r] <= Takers(s.ops, r))
    && (forall r: Request :: !Loose(targets, r.lock) ==> s.table[r] == Takers(s.ops, r))
    && (forall a, b :: a in s.table && b in s.table && Conflict(a, b) ==> a == b && s.table[a] == 1)
  }

  lemma TakeGranted(targets: iset<nat>, s: State, t: State, i: nat)
    requires Granted(targets, s) && TakeStep(s, t, i)
    ensures Granted(targets, t)
  {
    var h := s.ops[i];
    var q := h.todo[0];
    forall r
      ensures Takers(t.ops, r) == Takers(s.ops, r) + multiset{q}[r]
    {
      TakersUpdate(s.ops, i, t.ops[i], r);
      assert multiset(h.held + [q]) == multiset(h.held) + multiset{q};
    }
    hide Takers;
  }

  lemma LastIsNew(held: seq<Request>)
    requires Ascending(held) && held != []
    ensures Ascending(held[..|held| - 1]) && held[|held| - 1] !in held[..|held| - 1]
  {
  }

  lemma {:induction false} WithoutCounts(held: seq<Request>, x: Lock, r: Request)
    requires Ascending(held)
    ensures multiset(Without(held, x))[r] == if r.lock == x then 0 else multiset(held)[r]
    ensures multiset(held)[r] <= 1
  {
    hide Ascending;
    if held != [] {
      var t, y := held[..|held| - 1], held[|held| - 1];
      LastIsNew(held);
      WithoutCounts(t, x, r);
      assert held == t + [y];
      assert y !in multiset(t);
    }
  }

  /** The operation that releases x has taken it at most once, and the others' locks are as they were. */
  lemma ReleaseTakers(targets: iset<nat>, s: State, t: State, i: nat, r: Request)
    requires Ordered(targets, s) && ReleaseStep(s, t, i)
    ensures var h := s.ops[i];
            Takers(t.ops, r) == if r.lock == h.rel[0] then Takers(s.ops, r) - multiset(h.held)[r] else Takers(s.ops, r)
    ensures multiset(s.ops[i].held)[r] <= 1
  {
    hide Takers, Without, Unlock, Releases;
    var h := s.ops[i];
    assert Disciplined(targets, h) && h.held + h.todo == h.held;
    TakersUpdate(s.ops, i, t.ops[i], r);
    WithoutCounts(h.held, h.rel[0], r);
  }

  lemma ReleaseGranted(targets: iset<nat>, s: State, t: State, i: nat)
    requires Granted(targets, s) && Ordered(targets, s) && ReleaseStep(s, t, i)
    ensures Granted(targets, t)
  {
    hide Takers, Ordered, Without;
    var h := s.ops[i];
    var x := h.rel[0];
    forall r
      ensures t.table[r] <= Takers(t.ops, r) && (!Loose(targets, r.lock) ==> t.table[r] == Takers(t.ops, r))
    {
      ReleaseTakers(targets, s, t, i, r);
      if Loose(targets, x) {
        VecNotShared(targets, s, x);
      } else {
        OwnLock(targets, s, i, x);
      }
    }
  }

  /** Vector locks are only taken exclusively. */
  lemma VecNotShared(targets: iset<nat>, s: State, x: Lock)
    requires Granted(targets, s) && Ordered(targets, s) && x.table == VEC
    ensures Takers(s.ops, Request(x, false)) == 0 && Request(x, false) !in s.table
  {
    if Takers(s.ops, Request(x, false)) > 0 {
      var j := SomeTaker(s.ops, Request(x, false));
      assert Disciplined(targets, s.ops[j]);
      VecHeldExclusive(targets, s.ops[j], Request(x, false));
    }
  }

  lemma VecHeldExclusive(targets: iset<nat>, h: Holder, r: Request)
    requires Disciplined(targets, h) && r in h.held && r.lock.table == VEC
    ensures r.exclusive
  {
    var k :| 0 <= k < |h.held| && h.held[k] == r;
    assert (h.held + h.todo)[k] == r;
  }

  lemma OneMode(held: seq<Request>, a: Request, b: Request)
    requires Ascending(held) && a in held && b in held && a.lock == b.lock
    ensures a == b
  {
  }

  /** But for the targets' vector locks a release finds the operation's own lock, once, and in one mode. */
  lemma OwnLock(targets: iset<nat>, s: State, i: nat, x: Lock)
    requires Granted(targets, s) && Ordered(targets, s) && i < |s.ops| && s.ops[i].todo == [] && s.ops[i].rel != []
    requires x == s.ops[i].rel[0]
    requires !Loose(targets, x)
    ensures var e := Request(x, true) in s.table;
            multiset(s.ops[i].held)[Request(x, e)] == 1 && multiset(s.ops[i].held)[Request(x, !e)] == 0
            && Request(x, e) in s.table
  {
    var h := s.ops[i];
    assert Disciplined(targets, h) && h.held + h.todo == h.held;
    var k :| 0 <= k < |h.held| && h.held[k].lock == x;
    var r := h.held[k];
    assert r in multiset(h.held);
    TakersAtLeast(s.ops, i, r);
    WithoutCounts(h.held, x, r);
    var o := Request(x, !r.exclusive);
    if o in h.held {
      OneMode(h.held, r, o);
    }
    assert o !in multiset(h.held);
    assert Conflict(r, o);
  }

  lemma StepKeepsGranted(targets: iset<nat>, s: State, t: State, i: nat)
    requires Granted(targets, s) && Ordered(targets, s) && Step(targets, s, t, i)
    ensures Granted(targets, t)
  {
    hide Granted, Ordered;
    if TakeStep(s, t, i) {
      TakeGranted(targets, s, t, i);
    } else if ReleaseStep(s, t, i) {
      ReleaseGranted(targets, s, t, i);
    } else {
      StartGranted(targets, s, t, i);
    }
  }

  lemma StartGranted(targets: iset<nat>, s: State, t: State, i: nat)
    requires Granted(targets, s) && StartStep(targets, s, t, i)
    ensures Granted(targets, t)
  {
    hide Fresh;
    assert t.ops[i].held == [] by { assert Fresh(targets, t.ops[i]); FreshHoldsNothing(targets, t.ops[i]); }
    forall r
      ensures Takers(t.ops, r) == Takers(s.ops, r)
    {
      TakersUpdate(s.ops, i, t.ops[i], r);
    }
    hide Takers;
  }

  lemma FreshHoldsNothing(targets: iset<nat>, h: Holder)
    requires Fresh(targets, h)
    ensures h.held == []
  {
  }

  /** No two operations hold conflicting locks, but for the targets' vector locks. */
  ghost predicate Exclusive(targets: iset<nat>, s: State) {
    forall i, j, a, b :: 0 <= i < j < |s.ops| && a in s.ops[i].held && b in s.ops[j].held && Conflict(a, b) ==>
      Loose(targets, a.lock)
  }

  lemma GrantedExclusive(targets: iset<nat>, s: State)
    requires Granted(targets, s)
    ensures Exclusive(targets, s)
  {
    forall i, j, a, b | 0 <= i < j < |s.ops| && a in s.ops[i].held && b in s.ops[j].held && Conflict(a, b)
      ensures Loose(targets, a.lock)
    {
      if !Loose(targets, a.lock) {
        assert a in multiset(s.ops[i].held) && b in multiset(s.ops[j].held);
        TakersAtLeast(s.ops, i, a);
        TakersAtLeast(s.ops, j, b);
        assert a in s.table && b in s.table;
        TwoTakers(s.ops, i, j, a);
        assert false;
      }
    }
  }

  // ----- runs -----

  ghost predicate Next(targets: iset<nat>, s: State, t: State) {
    exists i :: Step(targets, s, t, i)
  }

  ghost predicate Run(targets: iset<nat>, states: seq<State>) {
    && states != [] && states[0].table == multiset{}
    && (forall i :: 0 <= i < |states[0].ops| ==> Idle(states[0].ops[i]))
    && (forall k :: 0 < k < |states| ==> Next(targets, states[k - 1], states[k]))
  }

  lemma {:induction false} NoTakers(ops: seq<Holder>, r: Request)
    requires forall i :: 0 <= i < |ops| ==> Idle(ops[i])
    ensures Takers(ops, r) == 0
  {
    if ops != [] {
      NoTakers(ops[..|ops| - 1], r);
    }
  }

  /** In every state of every run each operation's locks ascend, the tables grant only what was taken, and no two
      operations hold conflicting locks, but for the targets' vector locks. */
  lemma {:induction false} RunOrdered(targets: iset<nat>, states: seq<State>, k: nat)
    requires Run(targets, states) && k < |states|
    ensures Ordered(targets, states[k]) && Granted(targets, states[k]) && Exclusive(targets, states[k])
  {
    hide Ordered, Granted, Step, Exclusive;
    if k == 0 {
      IdleStart(targets, states[0]);
    } else {
      RunOrdered(targets, states, k - 1);
      assert Next(targets, states[k - 1], states[k]);
      var i :| Step(targets, states[k - 1], states[k], i);
      StepKeepsOrder(targets, states[k - 1], states[k], i);
      StepKeepsGranted(targets, states[k - 1], states[k], i);
    }
    GrantedExclusive(targets, states[k]);
  }

  lemma IdleStart(targets: iset<nat>, s: State)
    requires s.table == multiset{} && forall i :: 0 <= i < |s.ops| ==> Idle(s.ops[i])
    ensures Ordered(targets, s) && Granted(targets, s)
  {
    forall r
      ensures Takers(s.ops, r) == 0
    {
      NoTakers(s.ops, r);
    }
    hide Takers;
  }

  // ----- which locks exclude -----

  function Page(k: nat): Request { Request(Lock(PAGE, k), true) }

  function Vec(k: nat): Request { Request(Lock(VEC, k), true) }

  function Idx(k: nat): Request { Request(Lock(IDX, k), true) }

  /** An insert without neighbours: its locks and releases. */
  lemma LoneInsert(targets: iset<nat>, page: nat, target: nat)
    requires target in targets
    ensures InsertOp(targets, Holder([], [Page(page), Vec(target), Idx(target)],
                            [Idx(target).lock, Vec(target).lock, Vec(target).lock, Page(page).lock]), [page], target,
                              [], [])
  {
    hide Sort, Unique;
    NoKey();
    OneKey(page);
    OneKey(target);
    assert [] + [target] == [target];
    assert [target] + [target] == [target, target];
    assert InsertLocks([page], target, [], []) == [Page(page), Vec(target), Idx(target)];
    assert InsertReleases([page], target, [], []) == [Idx(target).lock, Vec(target).lock, Vec(target).lock,
                                                      Page(page).lock];
  }

  lemma NoKey()
    ensures Sort([]) == [] && Unique([]) == []
  {
  }

  lemma OneKey(k: nat)
    ensures Sort([k]) == [k] && Unique([k]) == [k]
  {
    assert [k][..0] == [] && Sort([]) == [] && Unique([]) == [];
  }

  /** An insert of x itself, or with the older neighbour x, first takes its page and the vector lock of x. */
  lemma InsertLocking(targets: iset<nat>, page: nat, target: nat, x: nat) returns (h: Holder)
    requires target in targets && x <= target
    ensures Fresh(targets, h) && h.held == []
    ensures |h.todo| >= 2 && h.todo[0] == Page(page) && h.todo[1] == Vec(x)
  {
    hide Sort, Unique, Tagged, InsertReleases, InsertOp;
    if x == target {
      LoneInsert(targets, page, target);
      return Holder([], [Page(page), Vec(target), Idx(target)],
                    [Idx(target).lock, Vec(target).lock, Vec(target).lock, Page(page).lock]);
    }
    h := NeighbourInsert(targets, page, target, x);
  }

  lemma NeighbourInsert(targets: iset<nat>, page: nat, target: nat, x: nat) returns (h: Holder)
    requires target in targets && x < target
    ensures InsertOp(targets, h, [page], target, [x], []) && h.held == []
    ensures |h.todo| >= 2 && h.todo[0] == Page(page) && h.todo[1] == Vec(x)
  {
    hide Sort, Unique, Tagged, InsertReleases;
    var todo := InsertLocks([page], target, [x], []);
    h := Holder([], todo, InsertReleases([page], target, [x], []));
    OneKey(page);
    TwoKeys(x, target);
    var ps, vs := Tagged(PAGE, Unique(Sort([page])), true), Tagged(VEC, Sort([x] + [target]), true);
    assert ps[0] == Page(page) && vs[0] == Vec(x);
    FirstTwo(ps, vs, Tagged(IDX, Unique(Sort([x] + [target])), true), Tagged(PAGE_IDX, Unique(Sort([])), true));
  }

  lemma TwoKeys(x: nat, y: nat)
    requires x < y
    ensures Sort([x] + [y]) == [x, y] && forall z :: z in [x] + [y] ==> multiset([x] + [y])[z] == 1
  {
    assert [x] + [y] == [x, y] && [x, y][..1] == [x];
    OneKey(x);
  }

  lemma FirstTwo(a: seq<Request>, b: seq<Request>, c: seq<Request>, d: seq<Request>)
    requires |a| == 1 && |b| >= 1
    ensures var r := a + b + c + d; |r| >= 2 && r[0] == a[0] && r[1] == b[0]
  {
  }

  /** An insert that has taken n of its locks. */
  ghost function Taken(h: Holder, n: nat): Holder
    requires n <= |h.todo|
  {
    Holder(h.held + h.todo[..n], h.todo[n..], h.rel)
  }

  ghost predicate EndsIn(targets: iset<nat>, states: seq<State>, s: State) {
    Run(targets, states) && states[|states| - 1] == s
  }

  /** From s to t only operation i has changed. */
  ghost predicate Changed(s: State, t: State, i: nat, h: Holder) {
    i < |s.ops| == |t.ops| && t.ops[i] == h && forall j :: 0 <= j < |s.ops| && j != i ==> t.ops[j] == s.ops[j]
  }

  lemma Append(targets: iset<nat>, states: seq<State>, s: State, i: nat, t: State) returns (more: seq<State>)
    requires EndsIn(targets, states, s) && Step(targets, s, t, i)
    ensures EndsIn(targets, more, t)
  {
    hide Step;
    assert Next(targets, s, t);
    more := states + [t];
  }

  lemma StartNow(targets: iset<nat>, states: seq<State>, s: State, i: nat, h: Holder)
    returns (more: seq<State>, t: State)
    requires EndsIn(targets, states, s) && i < |s.ops| && Idle(s.ops[i]) && Fresh(targets, h)
    ensures EndsIn(targets, more, t) && Changed(s, t, i, h) && t.table == s.table
  {
    hide EndsIn, Fresh;
    t := State(s.ops[i := h], s.table);
    assert StartStep(targets, s, t, i);
    more := Append(targets, states, s, i, t);
  }

  lemma TakeNow(targets: iset<nat>, states: seq<State>, s: State, i: nat, h: Holder, n: nat)
    returns (more: seq<State>, t: State)
    requires EndsIn(targets, states, s) && i < |s.ops| && n < |h.todo| && s.ops[i] == Taken(h, n)
    requires Grantable(s.table, h.todo[n])
    ensures EndsIn(targets, more, t) && Changed(s, t, i, Taken(h, n + 1)) && t.table == s.table + multiset{h.todo[n]}
  {
    hide EndsIn, Grantable;
    t := State(s.ops[i := Taken(h, n + 1)], s.table + multiset{h.todo[n]});
    assert h.held + h.todo[..n] + [h.todo[n]] == h.held + h.todo[..n + 1];
    assert h.todo[n..][1..] == h.todo[n + 1..];
    assert TakeStep(s, t, i);
    more := Append(targets, states, s, i, t);
  }

  lemma ReleaseNow(targets: iset<nat>, states: seq<State>, s: State, i: nat) returns (more: seq<State>, t: State)
    requires EndsIn(targets, states, s) && i < |s.ops| && s.ops[i].todo == [] && s.ops[i].rel != []
    ensures var h := s.ops[i];
            EndsIn(targets, more, t) && Changed(s, t, i, Holder(Without(h.held, h.rel[0]), [], h.rel[1..]))
            && t.table == Unlock(s.table, h.rel[0])
  {
    hide EndsIn, Without, Unlock;
    var h := s.ops[i];
    t := State(s.ops[i := Holder(Without(h.held, h.rel[0]), [], h.rel[1..])], Unlock(s.table, h.rel[0]));
    assert ReleaseStep(s, t, i);
    more := Append(targets, states, s, i, t);
  }

  lemma RunOfOne(targets: iset<nat>, s: State)
    requires s.table == multiset{} && forall i :: 0 <= i < |s.ops| ==> Idle(s.ops[i])
    ensures EndsIn(targets, [s], s)
  {
  }

  /** Three inserts begin. */
  lemma BeginThree(targets: iset<nat>, a: Holder, b: Holder, c: Holder) returns (states: seq<State>, s: State)
    requires Fresh(targets, a) && Fresh(targets, b) && Fresh(targets, c)
    ensures EndsIn(targets, states, s) && |s.ops| == 3 && s.ops[0] == a && s.ops[1] == b && s.ops[2] == c
    ensures s.table == multiset{}
  {
    hide EndsIn, Fresh;
    var e := Holder([], [], []);
    s := State([e, e, e], multiset{});
    states := [s];
    RunOfOne(targets, s);
    states, s := StartNow(targets, states, s, 0, a);
    states, s := StartNow(targets, states, s, 1, b);
    states, s := StartNow(targets, states, s, 2, c);
  }

  lemma ReleaseLast(held: seq<Request>, r: Request)
    requires forall i :: 0 <= i < |held| ==> held[i].lock != r.lock
    ensures Without(held + [r], r.lock) == held
  {
    WithoutNothing(held, r.lock);
    assert (held + [r])[..|held|] == held;
  }

  lemma {:induction false} WithoutNothing(held: seq<Request>, x: Lock)
    requires forall i :: 0 <= i < |held| ==> held[i].lock != x
    ensures Without(held, x) == held
  {
    if held != [] {
      WithoutNothing(held[..|held| - 1], x);
    }
  }

  lemma UnlockOne(table: multiset<Request>, r: Request)
    requires r.exclusive && r !in table
    ensures Unlock(table + multiset{r}, r.lock) == table
  {
  }

  /** An insert of k takes all its locks and releases two of them. */
  lemma ReleaseOnce(targets: iset<nat>, k: nat, states0: seq<State>, s0: State, a: Holder)
    returns (states: seq<State>, s: State)
    requires a == Holder([], [Page(1), Vec(k), Idx(k)], [Idx(k).lock, Vec(k).lock, Vec(k).lock, Page(1).lock])
    requires EndsIn(targets, states0, s0) && |s0.ops| == 3 && s0.ops[0] == a && s0.table == multiset{}
    ensures EndsIn(targets, states, s) && Changed(s0, s, 0, Holder([Page(1)], [], [Vec(k).lock, Page(1).lock]))
    ensures s.table == multiset{} + multiset{Page(1)}
  {
    hide EndsIn, Without, Unlock;
    assert Taken(a, 0) == a;
    states, s := TakeNow(targets, states0, s0, 0, a, 0);
    var t1 := s.table;
    states, s := TakeNow(targets, states, s, 0, a, 1);
    var t2 := s.table;
    states, s := TakeNow(targets, states, s, 0, a, 2);
    assert s.ops[0] == Holder([Page(1), Vec(k)] + [Idx(k)], [], a.rel);
    ReleaseLast([Page(1), Vec(k)], Idx(k));
    UnlockOne(t2, Idx(k));
    states, s := ReleaseNow(targets, states, s, 0);
    assert [Page(1), Vec(k)] == [Page(1)] + [Vec(k)];
    ReleaseLast([Page(1)], Vec(k));
    UnlockOne(t1, Vec(k));
    states, s := ReleaseNow(targets, states, s, 0);
    assert a.rel[1..][1..] == [Vec(k).lock, Page(1).lock];
  }

  /** A second insert takes the vector lock of k, the insert of k releases it once more, and a third insert takes it
      too. */
  lemma ReleaseTwice(targets: iset<nat>, k: nat, states0: seq<State>, s0: State, b: Holder, c: Holder)
    returns (states: seq<State>, s: State)
    requires EndsIn(targets, states0, s0) && |s0.ops| == 3 && s0.ops[1] == b && s0.ops[2] == c
    requires s0.ops[0] == Holder([Page(1)], [], [Vec(k).lock, Page(1).lock])
    requires s0.table == multiset{} + multiset{Page(1)}
    requires b.held == c.held == [] && |b.todo| >= 2 && |c.todo| >= 2
    requires b.todo[0] == Page(2) && b.todo[1] == Vec(k) && c.todo[0] == Page(3) && c.todo[1] == Vec(k)
    ensures EndsIn(targets, states, s) && |s.ops| == 3 && Vec(k) in s.ops[1].held && Vec(k) in s.ops[2].held
  {
    hide EndsIn, Without, Unlock;
    assert Taken(b, 0) == b && Taken(c, 0) == c;
    states, s := TakeNow(targets, states0, s0, 1, b, 0);
    var t := s.table;
    states, s := TakeNow(targets, states, s, 1, b, 1);
    UnlockOne(t, Vec(k));
    states, s := ReleaseNow(targets, states, s, 0);
    states, s := TakeNow(targets, states, s, 2, c, 0);
    states, s := TakeNow(targets, states, s, 2, c, 1);
    assert Taken(b, 2).held[1] == Vec(k) && Taken(c, 2).held[1] == Vec(k);
  }

  /** The second release of a target's vector lock drops another insert's lock. The insert of k releases its vector lock
      once, a later insert takes it for its neighbour k, the insert of k releases it again, and a third insert is
      granted it as well: two inserts have exclusively locked the same vector. */
  lemma VectorLockShared(targets: iset<nat>, k: nat, m: nat, n: nat) returns (states: seq<State>, s: State)
    requires k in targets && m in targets && n in targets && k <= m && k <= n
    ensures Run(targets, states) && s == states[|states| - 1] && |s.ops| == 3
    ensures Vec(k) in s.ops[1].held && Vec(k) in s.ops[2].held && Conflict(Vec(k), Vec(k))
  {
    var a := Holder([], [Page(1), Vec(k), Idx(k)], [Idx(k).lock, Vec(k).lock, Vec(k).lock, Page(1).lock]);
    LoneInsert(targets, 1, k);
    var b := InsertLocking(targets, 2, m, k);
    var c := InsertLocking(targets, 3, n, k);
    hide InsertOp, Run;
    states, s := BeginThree(targets, a, b, c);
    states, s := ReleaseOnce(targets, k, states, s, a);
    states, s := ReleaseTwice(targets, k, states, s, b, c);
  }

  /** No two operations ever hold a lock in conflict. */
  ghost predicate Excludes(targets: iset<nat>, x: Lock) {
    forall states, n :: Run(targets, states) && 0 <= n < |states| ==> HeldApart(states[n], x)
  }

  ghost predicate HeldApart(s: State, x: Lock) {
    forall i, j, a, b :: 0 <= i < j < |s.ops| && a in s.ops[i].held && b in s.ops[j].held && Conflict(a, b) ==>
      a.lock != x
  }

  /** A lock of any table excludes in every run if and only if it is not the vector lock of a target. */
  lemma ExclusiveExactly(targets: iset<nat>, x: Lock)
    ensures Excludes(targets, x) <==> !Loose(targets, x)
  {
    if Loose(targets, x) {
      var states, s := VectorLockShared(targets, x.key, x.key, x.key);
      assert !HeldApart(states[|states| - 1], x);
    } else {
      forall states, n | Run(targets, states) && 0 <= n < |states|
        ensures HeldApart(states[n], x)
      {
        RunOrdered(targets, states, n);
      }
    }
  }

  /** Follow a waiting operation to one that has taken the lock it waits for: either that one can step, or it waits for
      a later lock. */
  lemma Blocker(targets: iset<nat>, s: State, i: nat) returns (j: nat)
    requires Ordered(targets, s) && Granted(targets, s) && i < |s.ops| && s.ops[i].todo != []
    requires !Grantable(s.table, s.ops[i].todo[0])
    ensures j < |s.ops|
    ensures (CanStep(s, j) || (s.ops[j].todo != [] && Before(s.ops[i].todo[0].lock, s.ops[j].todo[0].lock)))
  {
    var g :| g in s.table && Conflict(g, s.ops[i].todo[0]);
    j := SomeTaker(s.ops, g);
    var h := s.ops[j];
    assert Disciplined(targets, h);
    var k :| 0 <= k < |h.held| && h.held[k] == g;
    var all := h.held + h.todo;
    assert all[k] == g;
    if h.todo != [] {
      assert all[|h.held|] == h.todo[0];
    }
  }

  /** The waiting operations whose next lock lies after a given one. */
  ghost function WaitingAfter(s: State, lock: Lock): set<nat> {
    set i | 0 <= i < |s.ops| && s.ops[i].todo != [] && Before(lock, s.ops[i].todo[0].lock)
  }

  lemma FollowTo(targets: iset<nat>, s: State, i: nat) returns (j: nat)
    requires Ordered(targets, s) && Granted(targets, s) && i < |s.ops| && s.ops[i].todo != []
    ensures CanStep(s, j)
    decreases |WaitingAfter(s, s.ops[i].todo[0].lock)|
  {
    hide Ordered, Granted;
    j := i;
    if !Grantable(s.table, s.ops[i].todo[0]) {
      var m := Blocker(targets, s, i);
      if CanStep(s, m) {
        j := m;
      } else {
        var a, b := WaitingAfter(s, s.ops[i].todo[0].lock), WaitingAfter(s, s.ops[m].todo[0].lock);
        assert m in a && m !in b && b <= a - {m};
        CardSubset(b, a - {m});
        j := FollowTo(targets, s, m);
      }
    }
  }

  /** No deadlock: in every state of every run in which an operation waits, some operation can take a step. */
  lemma DeadlockFree(targets: iset<nat>, states: seq<State>, k: nat, i: nat) returns (j: nat)
    requires Run(targets, states) && k < |states| && i < |states[k].ops| && states[k].ops[i].todo != []
    ensures CanStep(states[k], j)
  {
    RunOrdered(targets, states, k);
    j := FollowTo(targets, states[k], i);
  }

  // ----- the lock table -----

  /** An entry: the read-write lock and the number of holders. */
  datatype Entry = Entry(readers: nat, writer: bool, count: nat)

  class SparseLockTable {
    var locks: map<nat, Entry>

    /** There is an entry exactly for the locked keys, and its count is the number of holders. */
    ghost predicate Valid()
      reads this
    {
      forall k :: k in locks ==>
        && locks[k].count > 0 && locks[k].count == locks[k].readers + (if locks[k].writer then 1 else 0)
        && (locks[k].writer ==> locks[k].readers == 0)
    }

    ghost function Readers(k: nat): nat
      reads this
    {
      if k in locks then locks[k].readers else 0
    }

    ghost predicate Writer(k: nat)
      reads this
    {
      k in locks && locks[k].writer
    }

    constructor ()
      ensures Valid() && locks == map[]
    {
      locks := map[];
    }

    method TryRdLock(key: nat) returns (ok: bool)
      requires Valid()
      modifies this
      ensures Valid() && (ok <==> !old(Writer(key)))
      ensures Readers(key) == old(Readers(key)) + (if ok then 1 else 0) && Writer(key) == old(Writer(key))
      ensures forall k :: k != key ==> (k in locks <==> k in old(locks)) && (k in locks ==> locks[k] == old(locks)[k])
    {
      if key !in locks {
        locks := locks[key := Entry(0, false, 0)];
      }
      var e := locks[key];
      ok := !e.writer;
      if ok {
        locks := locks[key := Entry(e.readers + 1, false, e.count + 1)];
      }
    }

    method TryWrLock(key: nat) returns (ok: bool)
      requires Valid()
      modifies this
      ensures Valid() && (ok <==> !old(Writer(key)) && old(Readers(key)) == 0)
      ensures Writer(key) == (ok || old(Writer(key))) && Readers(key) == old(Readers(key))
      ensures forall k :: k != key ==> (k in locks <==> k in old(locks)) && (k in locks ==> locks[k] == old(locks)[k])
    {
      if key !in locks {
        locks := locks[key := Entry(0, false, 0)];
      }
      var e := locks[key];
      ok := !e.writer && e.readers == 0;
      if ok {
        locks := locks[key := Entry(0, true, e.count + 1)];
      }
    }

    /** The trap for an entry without holders is out of reach; the last holder removes the entry. */
    method Unlock(key: nat) returns (trapped: bool)
      requires Valid()
      modifies this
      ensures Valid() && !trapped
      ensures key in old(locks) ==> !Writer(key) && Readers(key) == if old(Writer(key)) then 0
                else old(Readers(key)) - 1
      ensures key !in old(locks) ==> locks == old(locks)
      ensures forall k :: k != key ==> (k in locks <==> k in old(locks)) && (k in locks ==> locks[k] == old(locks)[k])
    {
      trapped := false;
      if key in locks {
        var e := locks[key];
        if e.count == 0 {
          return true;
        }
        var r := if e.writer then 0 else e.readers - 1;
        if e.count == 1 {
          locks := locks - {key};
        } else {
          locks := locks[key := Entry(r, false, e.count - 1)];
        }
      }
    }
  }

  lemma NoLocks(table: nat)
    ensures Ascending([]) && Below([], table)
  {
  }
}
