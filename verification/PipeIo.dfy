/** The in-flight log of the pipelined search: a queue of requests in the slots of a ring, and how they relate to the
    pool entries. */
module PipeIo {
  import opened Counting
  import opened NeighborPool
  import opened CandidatePool
  import opened BestFirstSearch
  import opened BeamSearch

  const MAX_N_SECTOR_READS: nat := 512

  /** A read request: the entry it is for, the request slot it occupies, and whether the device has completed it. */
  datatype Io = Io(nbr: Neighbor, slot: nat, finished: bool)

  ghost function InFlight(q: seq<Io>): set<nat> {
    set i | 0 <= i < |q| :: q[i].nbr.id
  }

  ghost predicate FlightDistinct(q: seq<Io>) {
    forall i, j :: 0 <= i < j < |q| ==> q[i].nbr.id != q[j].nbr.id
  }

  /** The queue occupies the ring slots handed out last. */
  ghost predicate Slots(q: seq<Io>, nSent: nat) {
    |q| <= nSent && |q| <= MAX_N_SECTOR_READS
    && forall i :: 0 <= i < |q| ==> q[i].slot == (nSent - |q| + i) % MAX_N_SECTOR_READS
  }

  /** No slot is shared by two requests in flight, and the next slot is free while fewer than all are in flight. */
  lemma SlotsFree(q: seq<Io>, nSent: nat)
    requires Slots(q, nSent)
    ensures forall i, j :: 0 <= i < j < |q| ==> q[i].slot != q[j].slot
    ensures |q| < MAX_N_SECTOR_READS ==> forall i :: 0 <= i < |q| ==> q[i].slot != nSent % MAX_N_SECTOR_READS
  {
    forall i, j | 0 <= i < j < |q|
      ensures q[i].slot != q[j].slot
    {
      ModApart(nSent - |q| + i, nSent - |q| + j);
    }
    if |q| < MAX_N_SECTOR_READS {
      forall i | 0 <= i < |q|
        ensures q[i].slot != nSent % MAX_N_SECTOR_READS
      {
        ModApart(nSent - |q| + i, nSent);
      }
    }
  }

  lemma ModApart(a: nat, b: nat)
    requires a < b < a + MAX_N_SECTOR_READS
    ensures a % MAX_N_SECTOR_READS != b % MAX_N_SECTOR_READS
  {
  }

  ghost predicate VisitedTell(pool: seq<Neighbor>, done: set<nat>) {
    forall i :: 0 <= i < |pool| ==> (pool[i].visited <==> pool[i].id in done)
  }

  /** `log` records the ids requested, each at most once; `sent` is the set of them, `read` those whose record has
      arrived, `done` those whose neighbour list has been absorbed. */
  ghost predicate IoInv(pool: seq<Neighbor>, q: seq<Io>, read: set<nat>, sent: set<nat>, done: set<nat>,
                        log: seq<nat>) {
    && FlagsTell(pool, sent) && VisitedTell(pool, done)
    && done <= read && read !! InFlight(q) && sent == read + InFlight(q)
    && FlightDistinct(q) && Slots(q, |log|)
    && Disjoint(log, {}) && Members(log) == sent
  }

  datatype Phase = Unsent | Reading | Read | Visited

  ghost predicate IsIn(e: Neighbor, q: seq<Io>, read: set<nat>, phase: Phase) {
    match phase
    case Unsent => e.flag
    case Reading => e.id in InFlight(q)
    case Read => e.id in read && !e.visited
    case Visited => e.visited
  }

  /** Every pool entry is in exactly one of the four phases. */
  lemma OnePhase(pool: seq<Neighbor>, q: seq<Io>, read: set<nat>, sent: set<nat>, done: set<nat>, log: seq<nat>, i: nat)
    requires IoInv(pool, q, read, sent, done, log) && i < |pool|
    ensures exists p :: IsIn(pool[i], q, read, p) && forall p' :: IsIn(pool[i], q, read, p') ==> p' == p
  {
    var e := pool[i];
    var p := if e.flag then Unsent else if e.visited then Visited else if e.id in read then Read else Reading;
    assert IsIn(e, q, read, p);
    assert forall p' :: IsIn(e, q, read, p') ==> p' == p;
  }

  /** Clear the flags of the ids that have been requested. */
  function ClearSent(pool: seq<Neighbor>, sent: set<nat>): (r: seq<Neighbor>)
    ensures |r| == |pool|
  {
    seq(|pool|, i requires 0 <= i < |pool| => pool[i].(flag := pool[i].id !in sent))
  }

  lemma ClearSentNearest(dist: nat -> real, L: nat, pool: seq<Neighbor>, seen: set<nat>, sent: set<nat>)
    requires NearestPool(dist, L, pool, seen)
    ensures NearestPool(dist, L, ClearSent(pool, sent), seen)
  {
    var r := ClearSent(pool, sent);
    forall x | InPool(pool, x)
      ensures InPool(r, x)
    {
      var i :| 0 <= i < |pool| && pool[i].id == x;
      assert r[i].id == x;
    }
  }

  /** Requesting more of the discovered ids keeps the invariant of the search. */
  lemma ClearSentConsistent(graph: seq<seq<nat>>, dist: nat -> real, L: nat, init: set<nat>, pool: seq<Neighbor>,
                            seen: set<nat>, sent: set<nat>, sent': set<nat>, done: set<nat>)
    requires Consistent(graph, dist, L, init, pool, seen, sent, done) && sent <= sent' <= seen
    ensures Consistent(graph, dist, L, init, ClearSent(pool, sent'), seen, sent', done)
  {
    hide NearestPool, Discovered;
    ClearSentNearest(dist, L, pool, seen, sent');
  }

  /** Sending the request for an unsent entry. */
  lemma SendIo(pool: seq<Neighbor>, q: seq<Io>, read: set<nat>, sent: set<nat>, done: set<nat>, log: seq<nat>, m: nat,
               io: Io)
    requires IoInv(pool, q, read, sent, done, log) && m < |pool| && pool[m].flag && DistinctIds(pool)
    requires io.nbr.id == pool[m].id && io.slot == |log| % MAX_N_SECTOR_READS && |q| < MAX_N_SECTOR_READS
    ensures var x := pool[m].id; var pool' := pool[m := pool[m].(flag := false)];
            x !in sent && IoInv(pool', q + [io], read, sent + {x}, done, log + [x])
            && ClearSent(pool, sent + {x}) == pool'
  {
    var x := pool[m].id;
    var q' := q + [io];
    assert InFlight(q') == InFlight(q) + {x} by {
      assert q'[|q|].nbr.id == x;
      forall y | y in InFlight(q)
        ensures y in InFlight(q')
      {
        var i :| 0 <= i < |q| && q[i].nbr.id == y;
        assert q'[i].nbr.id == y;
      }
    }
    assert Members(log + [x]) == Members(log) + {x};
    assert x !in Members(log);
    assert forall i :: 0 <= i < |q| ==> q[i].nbr.id in InFlight(q);
    assert FlightDistinct(q') && Slots(q', |log| + 1) by { hide FlagsTell, VisitedTell, Members, InFlight; }
  }

  lemma TakeFirst(q: seq<Io>)
    requires q != [] && FlightDistinct(q)
    ensures FlightDistinct(q[1..]) && InFlight(q) == InFlight(q[1..]) + {q[0].nbr.id}
    ensures q[0].nbr.id !in InFlight(q[1..])
  {
    var r := q[1..];
    forall y | y in InFlight(q)
      ensures y in InFlight(r) + {q[0].nbr.id}
    {
      var i :| 0 <= i < |q| && q[i].nbr.id == y;
      if i > 0 {
        assert r[i - 1].nbr.id == y;
      }
    }
    forall y | y in InFlight(r)
      ensures y in InFlight(q) && y != q[0].nbr.id
    {
      var i :| 0 <= i < |r| && r[i].nbr.id == y;
      assert q[i + 1].nbr.id == y;
    }
  }

  /** Taking the completed request at the head of the queue. */
  lemma PopIo(pool: seq<Neighbor>, q: seq<Io>, read: set<nat>, sent: set<nat>, done: set<nat>, log: seq<nat>)
    requires IoInv(pool, q, read, sent, done, log) && q != []
    ensures q[0].nbr.id !in read && IoInv(pool, q[1..], read + {q[0].nbr.id}, sent, done, log)
  {
    hide FlagsTell, VisitedTell, Disjoint, Members;
    assert q[0].nbr.id in InFlight(q);
    TakeFirst(q);
    assert Slots(q[1..], |log|) by { hide InFlight, FlightDistinct; }
    hide InFlight, FlightDistinct, Slots;
  }

  lemma GrownVisited(f: Found, g: Found, done: set<nat>)
    requires GrownFrom(f, g) && VisitedTell(f.pool, done) && done <= f.seen
    ensures VisitedTell(g.pool, done)
  {
    forall i | 0 <= i < |g.pool|
      ensures g.pool[i].visited <==> g.pool[i].id in done
    {
      assert OldOrFresh(f, g.pool[i]);
    }
  }

  /** The ids of a list that have not been met before, in order and each once. */
  function FreshOf(seen: set<nat>, list: seq<nat>): (c: seq<nat>) {
    if list == [] then []
    else
      var c, x := FreshOf(seen, list[..|list| - 1]), list[|list| - 1];
      if x in seen || x in c then c else c + [x]
  }

  /** Offer ids one after another without looking at what has been met. */
  function OfferAll(dist: nat -> real, L: nat, f: Found, cand: seq<nat>): (r: Found)
    requires 1 <= |f.pool| <= L
    ensures |f.pool| <= |r.pool| <= L && r.seen == f.seen
  {
    if cand == [] then f
    else
      var g := OfferAll(dist, L, f, cand[..|cand| - 1]);
      AbsorbOne(dist, L, g.(seen := {}), cand[|cand| - 1]).(seen := f.seen)
  }

  /** Filtering a list first and offering what is left gives the same as deciding id by id. */
  lemma {:induction false} FilterThenOffer(dist: nat -> real, L: nat, f: Found, list: seq<nat>)
    requires 1 <= |f.pool| <= L
    ensures var c := FreshOf(f.seen, list);
            Absorb(dist, L, f, list) == OfferAll(dist, L, f, c).(seen := f.seen + Members(c))
  {
    if list == [] {
      assert f.seen + Members([]) == f.seen;
    } else {
      var t, x := list[..|list| - 1], list[|list| - 1];
      FilterThenOffer(dist, L, f, t);
      var c := FreshOf(f.seen, t);
      hide Offer, OfferPos;
      if x !in f.seen && x !in c {
        assert (c + [x])[..|c|] == c;
        assert f.seen + Members(c + [x]) == f.seen + Members(c) + {x};
      }
    }
  }

  /** Collect the ids of a list that have not been met, and mark them as met. */
  method CollectNew(seen0: set<nat>, list: seq<nat>) returns (cand: seq<nat>, seen: set<nat>)
    ensures cand == FreshOf(seen0, list) && seen == seen0 + Members(cand)
  {
    cand, seen := [], seen0;
    for m := 0 to |list|
      invariant cand == FreshOf(seen0, list[..m]) && seen == seen0 + Members(cand)
    {
      assert list[..m + 1][..m] == list[..m];
      if list[m] !in seen {
        assert Members(cand + [list[m]]) == Members(cand) + {list[m]};
        cand := cand + [list[m]];
        seen := seen + {list[m]};
      }
    }
    assert list[..|list|] == list;
  }

  method OfferEach(dist: nat -> real, L: nat, pool0: seq<Neighbor>, nk0: nat, cand: seq<nat>, ghost seen: set<nat>)
    returns (pool: seq<Neighbor>, nk: nat)
    requires 1 <= |pool0| <= L
    ensures Found(pool, seen, nk) == OfferAll(dist, L, Found(pool0, seen, nk0), cand)
  {
    hide Offer, OfferPos;
    ghost var f := Found(pool0, seen, nk0);
    pool, nk := pool0, nk0;
    for m := 0 to |cand|
      invariant 1 <= |pool| <= L && Found(pool, seen, nk) == OfferAll(dist, L, f, cand[..m])
    {
      assert cand[..m + 1][..m] == cand[..m];
      var nn := Neighbor(cand[m], dist(cand[m]), true, false);
      var r := OfferPos(L, pool, nn);
      pool := Offer(L, pool, nn);
      nk := if r < nk then r else nk;
    }
    assert cand[..|cand|] == cand;
  }

  /** compute_and_push_nbrs: first collect the new ids of the list, then offer them to the pool. */
  method PushNbrs(dist: nat -> real, L: nat, pool0: seq<Neighbor>, seen0: set<nat>, nk0: nat, list: seq<nat>)
    returns (pool: seq<Neighbor>, seen: set<nat>, nk: nat)
    requires 1 <= |pool0| <= L
    ensures Found(pool, seen, nk) == Absorb(dist, L, Found(pool0, seen0, nk0), list)
  {
    hide FreshOf, Absorb, OfferAll, Members;
    var cand;
    cand, seen := CollectNew(seen0, list);
    pool, nk := OfferEach(dist, L, pool0, nk0, cand, seen0);
    FilterThenOffer(dist, L, Found(pool0, seen0, nk0), list);
  }

  lemma MarkVisited(dist: nat -> real, L: nat, pool: seq<Neighbor>, seen: set<nat>, sent: set<nat>, done: set<nat>,
                    m: nat)
    requires NearestPool(dist, L, pool, seen) && FlagsTell(pool, sent) && VisitedTell(pool, done)
    requires m < |pool| && pool[m].id in sent
    ensures var r := pool[m := pool[m].(flag := false, visited := true)];
            NearestPool(dist, L, r, seen) && FlagsTell(r, sent) && VisitedTell(r, done + {pool[m].id})
  {
    var r := pool[m := pool[m].(flag := false, visited := true)];
    forall x | InPool(pool, x)
      ensures InPool(r, x)
    {
      var i :| 0 <= i < |pool| && pool[i].id == x;
      assert r[i].id == x;
    }
  }

  /** Visiting an entry whose record has been read. */
  lemma VisitKeeps(graph: seq<seq<nat>>, dist: nat -> real, L: nat, init: set<nat>, pool: seq<Neighbor>, seen: set<nat>,
                   q: seq<Io>, read: set<nat>, sent: set<nat>, done: set<nat>, log: seq<nat>, m: nat, nk: nat)
    requires Consistent(graph, dist, L, init, pool, seen, sent, done) && IoInv(pool, q, read, sent, done, log)
    requires m < |pool| && pool[m].id in read && pool[m].id < |graph| && InRange(Members(graph[pool[m].id]), |graph|)
    ensures var x := pool[m].id; var r := pool[m := pool[m].(flag := false, visited := true)];
            var g := Absorb(dist, L, Found(r, seen, nk), graph[x]);
            && Consistent(graph, dist, L, init, g.pool, g.seen, sent, done + {x})
            && IoInv(g.pool, q, read, sent, done + {x}, log) && seen <= g.seen
  {
    var x := pool[m].id;
    var r := pool[m := pool[m].(flag := false, visited := true)];
    var f := Found(r, seen, nk);
    hide NearestPool, FlagsTell, VisitedTell, Discovered, InRange, Absorb;
    MarkVisited(dist, L, pool, seen, sent, done, m);
    ExpandKeeps(graph, dist, L, init, f, sent, done, x);
    GrownVisited(f, Absorb(dist, L, f, graph[x]), done + {x});
  }
}
