/** The pipelined search: reads are issued while earlier ones are still in flight, and complete in any order. */
module PipeSearchModel {
  import opened Counting
  import opened NeighborPool
  import opened CandidatePool
  import opened BestFirstSearch
  import opened BeamSearch
  import opened PipeIo

  /** Replace the distances reported by the in-memory index by the search's own. */
  function Rescore(dist: nat -> real, pool: seq<Neighbor>): (r: seq<Neighbor>)
    ensures |r| == |pool|
  {
    seq(|pool|, i requires 0 <= i < |pool| => pool[i].(distance := dist(pool[i].id)))
  }

  ghost predicate IdsAre(pool: seq<Neighbor>, ids: set<nat>) {
    (forall i :: 0 <= i < |pool| ==> pool[i].id in ids) && forall x :: x in ids ==> InPool(pool, x)
  }

  lemma RescoreKeeps(dist: nat -> real, pool: seq<Neighbor>, ids: set<nat>, sent: set<nat>)
    requires DistinctIds(pool) && IdsAre(pool, ids) && FlagsTell(pool, sent) && VisitedTell(pool, {})
    ensures var r := Rescore(dist, pool);
            Listing(dist, r, ids) && FlagsTell(r, sent) && VisitedTell(r, {})
  {
    var r := Rescore(dist, pool);
    forall x | x in ids
      ensures InPool(r, x)
    {
      var i :| 0 <= i < |pool| && pool[i].id == x;
      assert r[i].id == x;
    }
  }

  lemma SortListing(dist: nat -> real, L: nat, pool: seq<Neighbor>, ids: set<nat>, sent: set<nat>)
    requires Listing(dist, pool, ids) && FlagsTell(pool, sent) && VisitedTell(pool, {}) && 1 <= |pool| <= L
    ensures var r := SortNeighbors(pool);
            NearestPool(dist, L, r, ids) && FlagsTell(r, sent) && VisitedTell(r, {})
  {
    SortKeeps(pool);
    var r := SortNeighbors(pool);
    hide Sorted, SortNeighbors;
    forall x | x in ids
      ensures InPool(r, x)
    {
      var i :| 0 <= i < |pool| && pool[i].id == x;
      assert pool[i] in r;
    }
  }

  function Max(a: nat, b: nat): nat { if a < b then b else a }

  function Min(a: nat, b: nat): nat { if a < b then a else b }

  /** At most one read in ten was not among the nearest found so far when it was taken. */
  ghost predicate FewWasted(nIn: nat, tot: nat) {
    10 * (tot - nIn) <= tot
  }

  lemma TenthOf(wasted: int, tot: nat)
    requires tot > 0
    ensures wasted as real / tot as real <= 0.1 <==> 10 * wasted <= tot
  {
    var q := wasted as real / tot as real;
    assert q * tot as real == wasted as real;
  }

  /** What is left to do: ids not requested, not read and not visited yet. */
  ghost function Remaining(n: nat, sent: set<nat>, read: set<nat>, done: set<nat>): nat {
    Unseen(n, sent) + Unseen(n, read) + Unseen(n, done)
  }

  ghost predicate BuffersHold(graph: seq<seq<nat>>, idBuf: map<nat, seq<nat>>) {
    forall x :: x in idBuf ==> x < |graph| && idBuf[x] == graph[x]
  }

  /** A read that was sent earlier and is now complete, by the device's own choice. */
  function Complete(q: seq<Io>, completed: set<nat>): (r: seq<Io>)
    ensures |r| == |q|
  {
    seq(|q|, i requires 0 <= i < |q| => q[i].(finished := q[i].finished || q[i].slot in completed))
  }

  lemma CompleteKeeps(pool: seq<Neighbor>, q: seq<Io>, read: set<nat>, sent: set<nat>, done: set<nat>, log: seq<nat>,
                      completed: set<nat>)
    requires IoInv(pool, q, read, sent, done, log)
    ensures IoInv(pool, Complete(q, completed), read, sent, done, log)
  {
    var r := Complete(q, completed);
    assert InFlight(r) == InFlight(q) by {
      assert forall i :: 0 <= i < |q| ==> r[i].nbr.id == q[i].nbr.id;
      forall x | x in InFlight(q)
        ensures x in InFlight(r)
      {
        var i :| 0 <= i < |q| && q[i].nbr.id == x;
        assert r[i].nbr.id == x;
      }
    }
  }

  /** How the pool, the queue, the buffers and the result list agree. */
  ghost predicate IoState(graph: seq<seq<nat>>, exact: nat -> real, pool: seq<Neighbor>, seen: set<nat>, q: seq<Io>,
                          idBuf: map<nat, seq<nat>>, full: seq<Neighbor>, sent: set<nat>, done: set<nat>,
                          log: seq<nat>) {
    && IoInv(pool, q, idBuf.Keys, sent, done, log) && DistinctIds(pool) && IdsIn(pool, seen)
    && InRange(seen, |graph|) && sent <= seen && BuffersHold(graph, idBuf) && Listing(exact, full, done)
  }

  lemma PopState(graph: seq<seq<nat>>, exact: nat -> real, pool: seq<Neighbor>, seen: set<nat>, q: seq<Io>,
                 idBuf: map<nat, seq<nat>>, full: seq<Neighbor>, sent: set<nat>, done: set<nat>, log: seq<nat>)
    requires IoState(graph, exact, pool, seen, q, idBuf, full, sent, done, log) && q != []
    ensures var x := q[0].nbr.id;
            x < |graph| && x !in idBuf
            && IoState(graph, exact, pool, seen, q[1..], idBuf[x := graph[x]], full, sent, done, log)
  {
    var x := q[0].nbr.id;
    hide DistinctIds, Listing, IdsIn;
    PopIo(pool, q, idBuf.Keys, sent, done, log);
    assert x in sent by {
      assert x in InFlight(q);
    }
    hide IoInv, InFlight;
    assert idBuf[x := graph[x]].Keys == idBuf.Keys + {x};
  }

  /** Completing requests, visiting: what happens to the agreement when the pool changes to one that fits. */
  lemma CompleteState(graph: seq<seq<nat>>, exact: nat -> real, pool: seq<Neighbor>, seen: set<nat>, q: seq<Io>,
                      idBuf: map<nat, seq<nat>>, full: seq<Neighbor>, sent: set<nat>, done: set<nat>, log: seq<nat>,
                      completed: set<nat>)
    requires IoState(graph, exact, pool, seen, q, idBuf, full, sent, done, log)
    ensures IoState(graph, exact, pool, seen, Complete(q, completed), idBuf, full, sent, done, log)
  {
    hide IoInv, DistinctIds, Listing, IdsIn;
    CompleteKeeps(pool, q, idBuf.Keys, sent, done, log, completed);
  }

  lemma VisitState(graph: seq<seq<nat>>, dist: nat -> real, exact: nat -> real, L: nat, init: set<nat>,
                   pool: seq<Neighbor>, seen: set<nat>, q: seq<Io>, idBuf: map<nat, seq<nat>>, full: seq<Neighbor>,
                   sent: set<nat>, done: set<nat>, log: seq<nat>, m: nat)
    requires Consistent(graph, dist, L, init, pool, seen, sent, done) && WellFormed(graph)
    requires IoState(graph, exact, pool, seen, q, idBuf, full, sent, done, log)
    requires m < |pool| && pool[m].id in idBuf && !pool[m].visited
    ensures var x := pool[m].id;
            var r := pool[m := pool[m].(flag := false, visited := true)];
            var g := Absorb(dist, L, Found(r, seen, |r|), idBuf[x]);
            var full' := full + [Neighbor(x, exact(x), true, false)];
            && x !in done && Consistent(graph, dist, L, init, g.pool, g.seen, sent, done + {x})
            && IoState(graph, exact, g.pool, g.seen, q, idBuf, full', sent, done + {x}, log)
  {
    var x := pool[m].id;
    var r := pool[m := pool[m].(flag := false, visited := true)];
    var g := Absorb(dist, L, Found(r, seen, |r|), graph[x]);
    hide Absorb, Listing, DistinctIds, InRange;
    assert x !in done;
    VisitKeeps(graph, dist, L, init, pool, seen, q, idBuf.Keys, sent, done, log, m, |r|) by { hide IoInv, Consistent; }
    ListingAdd(exact, full, done, Neighbor(x, exact(x), true, false));
    assert IdsIn(g.pool, g.seen) && DistinctIds(g.pool) && InRange(g.seen, |graph|);
    hide IoInv, Consistent;
  }

  class PipeSearch {
    const graph: seq<seq<nat>>
    const dist: nat -> real   // the quantised distance that orders the pool
    const exact: nat -> real  // the distance by full coordinates, for the result list
    const L: nat
    const beamWidth: nat
    var retset: seq<Neighbor>
    var seen: set<nat>
    var onFlight: seq<Io>
    var idBuf: map<nat, seq<nat>>
    var bufIdx: nat
    var width: nat
    var nIn: nat
    var tot: nat
    var full: seq<Neighbor>
    ghost var init: set<nat>
    ghost var sent: set<nat>
    ghost var done: set<nat>
    ghost var log: seq<nat>
    ghost var arrived: set<nat>  // ids whose request the device has completed

    ghost predicate Setting() {
      L >= 1 && beamWidth <= MAX_N_SECTOR_READS && WellFormed(graph)
    }

    /** The part of the invariant that already holds before the start points have their final distances. */
    ghost predicate IoValid()
      reads this
    {
      && Setting() && 1 <= |retset| <= L && width <= Max(4, beamWidth) && (beamWidth > 0 ==> width > 0)
      && NextSlot(bufIdx, |log|) && |onFlight| <= Max(4, beamWidth)
      && IoState(graph, exact, retset, seen, onFlight, idBuf, full, sent, done, log)
      && Arrivals(onFlight, idBuf.Keys, log, arrived)
    }

    ghost predicate Valid()
      reads this
    {
      IoValid() && Consistent(graph, dist, L, init, retset, seen, sent, done)
    }

    /** Set up a search: `first` is the distance the in-memory index reported for the start points. The first reads are
        sent in that order, before the search's own distances are known. */
    constructor (graph: seq<seq<nat>>, dist: nat -> real, exact: nat -> real, first: nat -> real, L: nat,
                 beamWidth: nat, start: seq<nat>)
      requires L >= 1 && beamWidth <= MAX_N_SECTOR_READS && WellFormed(graph)
      requires 1 <= |start| <= L && Disjoint(start, {}) && InRange(Members(start), |graph|)
      ensures this.graph == graph && this.dist == dist && this.exact == exact && this.L == L
      ensures this.beamWidth == beamWidth
      ensures Valid() && init == Members(start) && done == {} && arrived == {}
    {
      hide IoState, Arrivals, WellFormed, SortNeighbors, Rescore, StartPool, ClearSent, Consistent, Members, Disjoint,
           InRange;
      this.graph, this.dist, this.exact, this.L, this.beamWidth := graph, dist, exact, L, beamWidth;
      retset := StartPool(first, start);
      seen, onFlight, idBuf, bufIdx, width, nIn, tot, full := Members(start), [], map[], 0, 4, 0, 0, [];
      init, sent, done, log, arrived := Members(start), {}, {}, [], {};
      new;
      NoArrivals();
      assert idBuf.Keys == {};
      StartState(graph, exact, first, start);
      ghost var cut;
      var n;
      n, cut := SendBest(4);
      StartIds(first, start, sent);
      RestartState(graph, dist, exact, L, retset, seen, onFlight, sent, log);
      retset := SortNeighbors(Rescore(dist, retset));
    }

    /** Mark the entry as requested, occupy the next ring slot and queue the request. */
    method SendReadReq(m: nat)
      requires IoValid() && m < |retset| && retset[m].flag && |onFlight| < Max(4, beamWidth)
      modifies this`retset, this`onFlight, this`bufIdx, this`sent, this`log
      ensures IoValid() && retset == ClearSent(old(retset), sent)
      ensures retset == old(retset)[m := old(retset)[m].(flag := false)]
      ensures old(retset)[m].id !in old(sent) && sent == old(sent) + {old(retset)[m].id}
      ensures log == old(log) + [old(retset)[m].id]
      ensures |onFlight| == |old(onFlight)| + 1 && onFlight[..|old(onFlight)|] == old(onFlight)
      ensures forall i :: 0 <= i < |old(onFlight)| ==> onFlight[i].slot != onFlight[|old(onFlight)|].slot
    {
      hide IoState, Arrivals, WellFormed, NextSlot, ClearSent;
      var item := retset[m].(flag := false);
      var io := Io(item, bufIdx, false);
      SendState(graph, exact, retset, seen, onFlight, idBuf, full, sent, done, log, m, io);
      SendArrivals(onFlight, idBuf.Keys, log, arrived, io);
      NextSlotStep(bufIdx, |log|);
      retset := retset[m := item];
      onFlight := onFlight + [io];
      sent := sent + {item.id};
      log := log + [item.id];
      bufIdx := (bufIdx + 1) % MAX_N_SECTOR_READS;
    }

    /** Request the nearest entries that have not been requested, up to n of them: everything before `cut` has been
        requested, nothing from there on has changed. */
    method SendBest(n: nat) returns (nSent: nat, ghost cut: nat)
      requires IoValid() && |onFlight| + n <= Max(4, beamWidth)
      modifies this`retset, this`onFlight, this`bufIdx, this`sent, this`log
      ensures IoValid() && (old(Valid()) ==> Valid()) && retset == ClearSent(old(retset), sent)
      ensures old(log) <= log && |log| == |old(log)| + nSent
      ensures old(sent) <= sent && (nSent > 0 ==> sent != old(sent))
      ensures nSent <= n && |onFlight| == |old(onFlight)| + nSent && onFlight[..|old(onFlight)|] == old(onFlight)
      ensures nSent == 0 && n > 0 ==> sent == old(sent) && AllSent(retset)
      ensures cut <= |retset| && Settled(retset, cut) && (nSent == n || cut == |retset|)
      ensures forall i :: cut <= i < |retset| ==> retset[i] == old(retset)[i]
    {
      hide ClearSent, IoState, Arrivals, NextSlot, WellFormed, Settled, Consistent;
      nSent, cut := 0, 0;
      var marker: nat := 0;
      ClearSame(graph, exact, retset, seen, onFlight, idBuf, full, sent, done, log);
      SettledNone(retset);
      while marker < |retset| && nSent < n
        invariant IoValid() && retset == ClearSent(old(retset), sent) && marker <= |retset|
        invariant old(sent) <= sent && (nSent > 0 ==> sent != old(sent)) && (nSent == 0 ==> sent == old(sent))
        invariant nSent <= n && |onFlight| == |old(onFlight)| + nSent && onFlight[..|old(onFlight)|] == old(onFlight)
        invariant Settled(retset, marker) && old(log) <= log && |log| == |old(log)| + nSent
        invariant marker <= cut <= |retset| && Settled(retset, cut)
        invariant forall i :: cut <= i < |retset| ==> retset[i] == old(retset)[i]
        decreases |retset| - marker, n - nSent
      {
        marker := SkipSent(marker);
        if cut < marker {
          cut := marker;
        }
        if marker >= |retset| {
          break;
        }
        FlagAfter(retset, cut, marker);
        ClearAgain(old(retset), sent, sent + {retset[marker].id});
        ghost var before := retset;
        SendReadReq(marker);
        SettledSend(before, marker);
        SettledDown(retset, marker + 1, marker);
        cut := marker + 1;
        nSent := nSent + 1;
      }
      SettledAll(retset, cut);
      if old(Valid()) {
        SentSeen(graph, exact, retset, seen, onFlight, idBuf, full, sent, done, log);
        ClearSentConsistent(graph, dist, L, init, old(retset), seen, old(sent), sent, done);
      }
    }

    /** Pass over entries that are on flight or already read. */
    method SkipSent(marker0: nat) returns (marker: nat)
      requires IoValid() && marker0 < |retset| && Settled(retset, marker0)
      modifies this`retset
      ensures retset == old(retset) && marker0 <= marker <= |retset| && Settled(retset, marker)
      ensures marker < |retset| ==> retset[marker].flag
    {
      marker := marker0;
      while marker < |retset| && (!retset[marker].flag || retset[marker].id in idBuf)
        invariant retset == old(retset) && marker0 <= marker <= |retset| && Settled(retset, marker)
      {
        retset := retset[marker := retset[marker].(flag := false)];
        marker := marker + 1;
      }
    }

    /** Let the device complete the requests in some slots, then take exactly the completed ones at the head of the
        queue. */
    method PollAll(completed: set<nat>) returns (nin: nat, nout: nat)
      requires Valid()
      modifies this`onFlight, this`idBuf, this`arrived
      ensures Valid() && arrived == old(arrived) + Answered(old(onFlight), completed)
      ensures HeadTaken(Complete(old(onFlight), completed), nin + nout, onFlight, old(idBuf).Keys, idBuf.Keys)
    {
      hide IoState, Arrivals, Consistent, WellFormed, Complete, NextSlot, Answered, PrefixTaken;
      nin, nout := 0, 0;
      CompleteState(graph, exact, retset, seen, onFlight, idBuf, full, sent, done, log, completed);
      CompleteArrivals(onFlight, idBuf.Keys, log, arrived, completed);
      ghost var q := Complete(onFlight, completed);
      onFlight, arrived := Complete(onFlight, completed), arrived + Answered(onFlight, completed);
      NoneTaken(q, idBuf.Keys);
      while onFlight != [] && onFlight[0].finished
        invariant Valid() && arrived == old(arrived) + Answered(old(onFlight), completed)
        invariant PrefixTaken(q, nin + nout, onFlight, old(idBuf).Keys, idBuf.Keys)
        decreases |onFlight|
      {
        var io := onFlight[0];
        PopState(graph, exact, retset, seen, onFlight, idBuf, full, sent, done, log);
        PopArrivals(onFlight, idBuf.Keys, log, arrived);
        TakeNext(q, nin + nout, onFlight, old(idBuf).Keys, idBuf.Keys);
        assert idBuf[io.nbr.id := graph[io.nbr.id]].Keys == idBuf.Keys + {io.nbr.id};
        idBuf := idBuf[io.nbr.id := graph[io.nbr.id]];
        if io.nbr.distance <= retset[|retset| - 1].distance {
          nin := nin + 1;
        } else {
          nout := nout + 1;
        }
        onFlight := onFlight[1..];
      }
    }

    /** After convergence, count the reads taken; widen the pipeline by one, to at least four and at most the beam
        width, if at most a tenth of all reads counted were wasted. */
    method Tune(maxMarker: nat, nin: nat, nout: nat)
      requires Valid()
      modifies this`width, this`nIn, this`tot
      ensures Valid()
      ensures var counted := maxMarker >= 5 && nin + nout > 0;
              && nIn == old(nIn) + (if counted then nin else 0)
              && tot == old(tot) + (if counted then nin + nout else 0)
              && width == if counted && FewWasted(nIn, tot) then Min(beamWidth, Max(old(width) + 1, 4)) else old(width)
    {
      hide IoState, Arrivals, Consistent, WellFormed, NextSlot;
      if maxMarker >= 5 && nin + nout > 0 {
        nIn, tot := nIn + nin, tot + nin + nout;
        TenthOf(tot - nIn, tot);
        if (tot - nIn) as real / tot as real <= 0.1 {
          width := width + 1;
          width := Max(width, 4);
          width := Min(beamWidth, width);
        }
      }
    }

    /** Visit an entry whose record is in memory. */
    method Visit(m: nat)
      requires Valid() && m < |retset| && !retset[m].visited && retset[m].id in idBuf
      modifies this`retset, this`seen, this`full, this`done
      ensures Valid() && old(retset)[m].id !in old(done) && done == old(done) + {old(retset)[m].id}
    {
      hide IoState, Arrivals, Consistent, WellFormed, Absorb, NextSlot;
      var id := retset[m].id;
      VisitState(graph, dist, exact, L, init, retset, seen, onFlight, idBuf, full, sent, done, log, m);
      var list := idBuf[id];
      retset := retset[m := retset[m].(flag := false, visited := true)];
      full := full + [Neighbor(id, exact(id), true, false)];
      var nk: nat;
      retset, seen, nk := PushNbrs(dist, L, retset, seen, |retset|, list);
      done := done + {id};
    }

    /** Visit the nearest entry that has been read and not visited, if there is one; then find the first entry that is
        neither visited nor requested. */
    method CalcBest() returns (firstUnsent: nat)
      requires Valid()
      modifies this`retset, this`seen, this`full, this`done
      ensures Valid() && old(done) <= done
      ensures done == old(done) ==> retset == old(retset) && NoneReady(retset, idBuf.Keys)
      ensures done != old(done) ==>
                exists m: nat :: FirstReady(old(retset), idBuf.Keys, m) && done == old(done) + {old(retset)[m].id}
      ensures firstUnsent <= |retset| && Settled(retset, firstUnsent)
      ensures (firstUnsent < |retset| ==> retset[firstUnsent].flag)
    {
      hide IoState, Arrivals, Consistent, WellFormed, NextSlot;
      var marker: nat := 0;
      while marker < |retset| && (retset[marker].visited || retset[marker].id !in idBuf)
        invariant marker <= |retset|
        invariant NoneReady(retset[..marker], idBuf.Keys)
      {
        marker := marker + 1;
      }
      assert retset[..|retset|] == retset;
      if marker < |retset| {
        assert FirstReady(retset, idBuf.Keys, marker);
        Visit(marker);
      }
      firstUnsent := FirstUnsent();
    }

    /** The first entry that is neither visited nor requested. */
    method FirstUnsent() returns (i: nat)
      requires Valid()
      ensures i <= |retset| && Settled(retset, i) && (i < |retset| ==> retset[i].flag)
    {
      hide IoState, Arrivals, Consistent, WellFormed, NextSlot;
      i := 0;
      while i < |retset| && (retset[i].visited || !retset[i].flag || retset[i].id in idBuf)
        invariant i <= |retset| && Settled(retset, i)
      {
        FlagMeansUnsent(graph, exact, retset, seen, onFlight, idBuf, full, sent, done, log, i);
        i := i + 1;
      }
    }

    /** Is some entry unvisited? */
    method HasUnvisited() returns (b: bool)
      ensures b <==> AnyUnvisited(retset)
    {
      for i := 0 to |retset|
        invariant forall j :: 0 <= j < i ==> retset[j].visited
      {
        if !retset[i].visited {
          return true;
        }
      }
      return false;
    }

    /** Issue one more read if the pipeline has room. */
    method Issue()
      requires Valid() && AnyUnvisited(retset)
      modifies this`retset, this`onFlight, this`bufIdx, this`sent, this`log
      ensures Valid() && AnyUnvisited(retset) && old(sent) <= sent && old(log) <= log
      ensures |log| - |onFlight| == |old(log)| - |old(onFlight)|
      ensures sent == old(sent) ==> onFlight == old(onFlight) && (AllSent(retset) || onFlight != [] || width == 0)
    {
      hide IoState, Arrivals, Consistent, WellFormed, NextSlot, ClearSent, AllSent, AnyUnvisited;
      if |onFlight| < width {
        ghost var before := retset;
        ghost var cut;
        var n;
        n, cut := SendBest(1);
        StillUnvisited(before, sent);
        assert sent == old(sent) ==> onFlight[..|old(onFlight)|] == onFlight;
      }
    }

    /** One turn of the main loop. Only reads that the device has completed are used. Something moves (a read is taken,
        requested or visited), unless the oldest request in flight has not been completed by the device, or a beam of 0
        has closed the pipeline for good. */
    method Turn(completed: set<nat>, maxMarker0: nat) returns (maxMarker: nat, ghost moved: bool)
      requires Valid() && AnyUnvisited(retset)
      modifies this`retset, this`seen, this`onFlight, this`idBuf, this`bufIdx, this`width, this`nIn, this`tot,
               this`full, this`sent, this`done, this`log, this`arrived
      ensures Valid() && old(log) <= log && arrived == old(arrived) + Answered(old(onFlight), completed)
      ensures |old(log)| - |old(onFlight)| <= |log| - |onFlight|
      ensures !moved ==> |old(log)| - |old(onFlight)| == |log| - |onFlight|
      ensures done <= idBuf.Keys <= arrived && old(idBuf).Keys <= idBuf.Keys
      ensures moved ==> Remaining(|graph|, sent, idBuf.Keys, done) < old(Remaining(|graph|, sent, idBuf.Keys, done))
      ensures !moved ==> Remaining(|graph|, sent, idBuf.Keys, done) == old(Remaining(|graph|, sent, idBuf.Keys, done))
                         && (OldestPending(old(onFlight), completed)
                             || (beamWidth == 0 && width == 0 && onFlight == []))
    {
      hide IoState, Arrivals, Consistent, WellFormed, NextSlot, Complete, Remaining, NoneReady, AllSent, AnyUnvisited,
           HeadTaken, Answered, OldestPending;
      ghost var q0, sent0, read0, done0 := onFlight, sent, idBuf.Keys, done;
      FlightApart(graph, exact, retset, seen, onFlight, idBuf, full, sent, done, log);
      var nin, nout := PollAll(completed);
      assert read0 !! InFlight(q0);
      HeadFacts(q0, completed, nin + nout, onFlight, read0, idBuf.Keys);
      Tune(maxMarker0, nin, nout);
      Issue();
      var marker := CalcBest();
      maxMarker := Max(maxMarker0, marker);
      moved := sent != sent0 || idBuf.Keys != read0 || done != done0;
      RangesOf(graph, exact, retset, seen, onFlight, idBuf, full, sent, done, log);
      RemainingShrinks(|graph|, sent0, sent, read0, idBuf.Keys, done0, done);
      ArrivalsCover(onFlight, idBuf.Keys, log, arrived);
      if !moved {
        SomethingInFlight(graph, exact, retset, seen, onFlight, idBuf, full, sent, done, log);
      }
    }

    /** The main loop against a device that completes the requests of schedule[i] in turn i. A record is used only after
        its id was requested and its request slot completed in some turn. When the loop ends, every pool entry has been
        visited and the pool is the same kind of fixed point as for the sequential search. It ends unless the schedule
        is too short: every turn but the stalled ones makes progress, and with a beam of at least 1 a turn stalls only
        if the device has left the oldest request, the one at position oldest[t] of the log, incomplete in turn t. So a
        device that answers every slot within d turns ends the search in less than (3 n + 1) d turns. */
    method Run(schedule: seq<set<nat>>) returns (finished: bool, ghost stalled: set<nat>, ghost oldest: seq<nat>)
      requires Valid()
      modifies this`retset, this`seen, this`onFlight, this`idBuf, this`bufIdx, this`width, this`nIn, this`tot,
               this`full, this`sent, this`done, this`log, this`arrived
      ensures Valid() && old(log) <= log
      ensures finished ==> FixedPoint(graph, dist, L, init, retset, done) && Listing(exact, full, done)
      ensures !finished ==> |oldest| == |schedule| <= 3 * |graph| + |stalled|
      ensures beamWidth > 0 ==> Stalls(schedule, log, oldest, stalled)
      ensures !finished && beamWidth > 0 ==>
                forall d :: AnswersWithin(schedule, d) ==> |schedule| < (3 * |graph| + 1) * d
      ensures done <= idBuf.Keys <= arrived
      ensures forall x :: x in arrived && x !in old(arrived) ==> AnsweredIn(schedule, log, x)
    {
      hide IoState, Arrivals, Consistent, WellFormed, NextSlot, Remaining, FixedPoint, Listing, AnyUnvisited, Answered,
           AnsweredIn, OldestPending, Stalls, AnswersWithin;
      stalled, oldest := {}, [];
      NoStalls(schedule, log);
      var i := 0;
      var maxMarker := 0;
      RemainingBound(|graph|, sent, idBuf.Keys, done);
      finished := false;
      while i < |schedule|
        invariant i <= |schedule| && Valid() && old(log) <= log
        invariant |oldest| == i && Remaining(|graph|, sent, idBuf.Keys, done) + i <= 3 * |graph| + |stalled|
        invariant forall t :: t in stalled ==> t < i
        invariant beamWidth > 0 ==> Stalls(schedule, log, oldest, stalled) && HeadAt(oldest, stalled, log, onFlight)
        invariant forall x :: x in arrived && x !in old(arrived) ==> AnsweredIn(schedule, log, x)
      {
        var unvisited := HasUnvisited();
        if !unvisited {
          finished := true;
          break;
        }
        ghost var moved;
        HeadSlot(graph, exact, retset, seen, onFlight, idBuf, full, sent, done, log, arrived, schedule[i]);
        TraceAnswers(graph, exact, retset, seen, onFlight, idBuf, full, sent, done, log, arrived, schedule, i);
        ghost var log0, q0 := log, onFlight;
        maxMarker, moved := Turn(schedule[i], maxMarker);
        TraceLonger(schedule, log0, log);
        if beamWidth > 0 {
          StallsNext(schedule, log0, log, oldest, stalled, q0, onFlight, !moved);
        }
        oldest := oldest + [|log0| - |q0|];
        if !moved {
          stalled := stalled + {i};
        }
        i := i + 1;
      }
      if !finished {
        var unvisited := HasUnvisited();
        finished := !unvisited;
      }
      if finished {
        FinishedFixed();
      }
      DoneArrived();
      if !finished && beamWidth > 0 {
        forall d | AnswersWithin(schedule, d)
          ensures |schedule| < (3 * |graph| + 1) * d
        {
          EndsInTime(schedule, log, oldest, stalled, d, 3 * |graph|);
        }
      }
    }

    lemma DoneArrived()
      requires Valid()
      ensures done <= idBuf.Keys <= arrived
    {
      hide Consistent;
    }

    lemma FinishedFixed()
      requires Valid() && !AnyUnvisited(retset)
      ensures FixedPoint(graph, dist, L, init, retset, done) && Listing(exact, full, done)
    {
      hide Consistent, FixedPoint, Listing, DistinctIds;
      AllDoneFixed(graph, dist, L, init, retset, seen, sent, done);
    }
  }

  ghost predicate HeadPending(q: seq<Io>) {
    q != [] ==> !q[0].finished
  }

  ghost predicate NextSlot(bufIdx: nat, nSent: nat) {
    bufIdx == nSent % MAX_N_SECTOR_READS
  }

  ghost predicate IdsIn(pool: seq<Neighbor>, seen: set<nat>) {
    forall i :: 0 <= i < |pool| ==> pool[i].id in seen
  }

  lemma ClearIds(pool: seq<Neighbor>, sent: set<nat>, seen: set<nat>)
    requires DistinctIds(pool) && IdsIn(pool, seen)
    ensures DistinctIds(ClearSent(pool, sent)) && IdsIn(ClearSent(pool, sent), seen)
  {
  }

  ghost predicate AllSent(pool: seq<Neighbor>) {
    forall i :: 0 <= i < |pool| ==> !pool[i].flag
  }

  lemma ClearSame(graph: seq<seq<nat>>, exact: nat -> real, pool: seq<Neighbor>, seen: set<nat>, q: seq<Io>,
                  idBuf: map<nat, seq<nat>>, full: seq<Neighbor>, sent: set<nat>, done: set<nat>, log: seq<nat>)
    requires IoState(graph, exact, pool, seen, q, idBuf, full, sent, done, log)
    ensures ClearSent(pool, sent) == pool
  {
  }

  lemma NextSlotStep(bufIdx: nat, n: nat)
    requires NextSlot(bufIdx, n)
    ensures NextSlot((bufIdx + 1) % MAX_N_SECTOR_READS, n + 1)
  {
  }

  /** Sending the request of an unsent entry, in the next slot. */
  lemma SendState(graph: seq<seq<nat>>, exact: nat -> real, pool: seq<Neighbor>, seen: set<nat>, q: seq<Io>,
                  idBuf: map<nat, seq<nat>>, full: seq<Neighbor>, sent: set<nat>, done: set<nat>, log: seq<nat>, m: nat,
                  io: Io)
    requires IoState(graph, exact, pool, seen, q, idBuf, full, sent, done, log) && m < |pool| && pool[m].flag
    requires io.nbr.id == pool[m].id && NextSlot(io.slot, |log|) && |q| < MAX_N_SECTOR_READS
    ensures var x := pool[m].id; var pool' := pool[m := pool[m].(flag := false)];
            && x !in sent && pool' == ClearSent(pool, sent + {x})
            && IoState(graph, exact, pool', seen, q + [io], idBuf, full, sent + {x}, done, log + [x])
    ensures forall i :: 0 <= i < |q| ==> q[i].slot != io.slot
  {
    hide IoInv, Listing, BuffersHold, InRange, ClearSent;
    var x := pool[m].id;
    SendIo(pool, q, idBuf.Keys, sent, done, log, m, io);
    SlotsOf(pool, q, idBuf.Keys, sent, done, log);
    SlotsFree(q, |log|);
    ClearIds(pool, sent + {x}, seen);
  }

  lemma ClearAgain(pool: seq<Neighbor>, sent: set<nat>, more: set<nat>)
    ensures ClearSent(ClearSent(pool, sent), more) == ClearSent(pool, more)
  {
  }

  ghost predicate NoneReady(pool: seq<Neighbor>, read: set<nat>) {
    forall i :: 0 <= i < |pool| ==> pool[i].visited || pool[i].id !in read
  }

  lemma StillUnvisited(pool: seq<Neighbor>, sent: set<nat>)
    requires AnyUnvisited(pool)
    ensures AnyUnvisited(ClearSent(pool, sent))
  {
    var i :| 0 <= i < |pool| && !pool[i].visited;
    assert !ClearSent(pool, sent)[i].visited;
  }

  /** An unvisited entry that is neither unsent nor read is in flight. */
  lemma SomethingInFlight(graph: seq<seq<nat>>, exact: nat -> real, pool: seq<Neighbor>, seen: set<nat>, q: seq<Io>,
                          idBuf: map<nat, seq<nat>>, full: seq<Neighbor>, sent: set<nat>, done: set<nat>, log: seq<nat>)
    requires IoState(graph, exact, pool, seen, q, idBuf, full, sent, done, log)
    requires NoneReady(pool, idBuf.Keys) && AnyUnvisited(pool)
    ensures q != [] || !AllSent(pool)
  {
    var i :| 0 <= i < |pool| && !pool[i].visited;
    if AllSent(pool) {
      assert pool[i].id in InFlight(q);
    }
  }

  lemma RangesOf(graph: seq<seq<nat>>, exact: nat -> real, pool: seq<Neighbor>, seen: set<nat>, q: seq<Io>,
                 idBuf: map<nat, seq<nat>>, full: seq<Neighbor>, sent: set<nat>, done: set<nat>, log: seq<nat>)
    requires IoState(graph, exact, pool, seen, q, idBuf, full, sent, done, log)
    ensures InRange(sent, |graph|) && InRange(idBuf.Keys, |graph|) && InRange(done, |graph|) && done <= idBuf.Keys
  {
    hide Slots, FlightDistinct, Listing, DistinctIds, FlagsTell, VisitedTell;
  }

  ghost predicate AnyUnvisited(pool: seq<Neighbor>) {
    exists i :: 0 <= i < |pool| && !pool[i].visited
  }

  lemma RemainingShrinks(n: nat, sent: set<nat>, sent': set<nat>, read: set<nat>, read': set<nat>, done: set<nat>,
                         done': set<nat>)
    requires sent <= sent' && read <= read' && done <= done' && InRange(sent', n) && InRange(read', n)
    requires InRange(done', n)
    ensures Remaining(n, sent', read', done') <= Remaining(n, sent, read, done)
    ensures sent != sent' || read != read' || done != done'
            ==> Remaining(n, sent', read', done') < Remaining(n, sent, read, done)
  {
    hide Unseen, InRange;
    UnseenShrinks(n, sent, sent');
    UnseenShrinks(n, read, read');
    UnseenShrinks(n, done, done');
  }

  // ----- turns in which nothing moves -----

  /** The slot is completed in one of the d turns from `lo` on. */
  ghost predicate SlotAnswered(schedule: seq<set<nat>>, slot: nat, lo: nat, d: nat) {
    exists t :: lo <= t < lo + d && t < |schedule| && slot in schedule[t]
  }

  /** In any d consecutive turns the device completes every slot at least once. */
  ghost predicate AnswersWithin(schedule: seq<set<nat>>, d: nat) {
    forall slot: nat, lo: nat ::
      slot < MAX_N_SECTOR_READS && lo + d <= |schedule| ==> SlotAnswered(schedule, slot, lo, d)
  }

  /** oldest[t] is the position in the log of the oldest request that was not read before turn t. It never decreases; in
      a stalled turn its slot is not completed, and it stays the oldest. */
  ghost predicate Stalls(schedule: seq<set<nat>>, log: seq<nat>, oldest: seq<nat>, stalled: set<nat>) {
    && |oldest| <= |schedule| && (forall t :: 1 <= t < |oldest| ==> oldest[t - 1] <= oldest[t])
    && forall t :: t in stalled ==>
      && t < |oldest| && oldest[t] < |log| && oldest[t] % MAX_N_SECTOR_READS !in schedule[t]
      && (t + 1 < |oldest| ==> oldest[t + 1] == oldest[t])
  }

  /** How the turns so far relate to the oldest request now in flight. */
  ghost predicate HeadAt(oldest: seq<nat>, stalled: set<nat>, log: seq<nat>, q: seq<Io>) {
    |oldest| > 0 ==> var last := oldest[|oldest| - 1];
      last <= |log| - |q| && (|oldest| - 1 in stalled ==> last == |log| - |q|)
  }

  lemma NoStalls(schedule: seq<set<nat>>, log: seq<nat>)
    ensures Stalls(schedule, log, [], {})
  {
  }

  /** The oldest request in flight has its place in the log, which tells its slot. */
  lemma HeadSlot(graph: seq<seq<nat>>, exact: nat -> real, pool: seq<Neighbor>, seen: set<nat>, q: seq<Io>,
                 idBuf: map<nat, seq<nat>>, full: seq<Neighbor>, sent: set<nat>, done: set<nat>, log: seq<nat>,
                 arrived: set<nat>, completed: set<nat>)
    requires IoState(graph, exact, pool, seen, q, idBuf, full, sent, done, log) && Arrivals(q, idBuf.Keys, log, arrived)
    ensures |q| <= |log|
    ensures OldestPending(q, completed) ==> q != [] && (|log| - |q|) % MAX_N_SECTOR_READS !in completed
  {
    SlotsOf(pool, q, idBuf.Keys, sent, done, log);
    hide IoState;
  }

  lemma StallsNext(schedule: seq<set<nat>>, log: seq<nat>, more: seq<nat>, oldest: seq<nat>, stalled: set<nat>,
                   q: seq<Io>, q': seq<Io>, stall: bool)
    requires Stalls(schedule, log, oldest, stalled) && HeadAt(oldest, stalled, log, q) && |oldest| < |schedule|
    requires log <= more && |q| <= |log| && |log| - |q| <= |more| - |q'|
    requires stall ==> |log| - |q| == |more| - |q'|
    requires stall ==> q != [] && (|log| - |q|) % MAX_N_SECTOR_READS !in schedule[|oldest|]
    ensures var s := if stall then stalled + {|oldest|} else stalled;
            Stalls(schedule, more, oldest + [|log| - |q|], s) && HeadAt(oldest + [|log| - |q|], s, more, q')
  {
  }

  /** d turns in a row do not all stall on a device that answers within d turns. */
  lemma SomeTurnMoves(schedule: seq<set<nat>>, log: seq<nat>, oldest: seq<nat>, stalled: set<nat>, d: nat, lo: nat)
    requires Stalls(schedule, log, oldest, stalled) && AnswersWithin(schedule, d) && lo + d <= |oldest|
    ensures exists t :: lo <= t < lo + d && t !in stalled
  {
    var slot := if lo < |oldest| then oldest[lo] % MAX_N_SECTOR_READS else 0;
    assert SlotAnswered(schedule, slot, lo, d);
    var t :| lo <= t < lo + d && slot in schedule[t];
    if forall t :: lo <= t < lo + d ==> t in stalled {
      SameOldest(schedule, log, oldest, stalled, lo, d);
    }
  }

  lemma {:induction false} SameOldest(schedule: seq<set<nat>>, log: seq<nat>, oldest: seq<nat>, stalled: set<nat>,
                                      lo: nat, d: nat)
    requires Stalls(schedule, log, oldest, stalled) && lo + d <= |oldest|
    requires forall t :: lo <= t < lo + d ==> t in stalled
    ensures forall t :: lo <= t < lo + d ==> oldest[t] == oldest[lo]
  {
    if d > 1 {
      SameOldest(schedule, log, oldest, stalled, lo, d - 1);
      var t := lo + d - 2;
      assert t in stalled && oldest[t + 1] == oldest[t];
    }
  }

  /** So k blocks of d turns hold at least k turns that do not stall. */
  lemma {:induction false} TurnsThatMove(schedule: seq<set<nat>>, log: seq<nat>, oldest: seq<nat>, stalled: set<nat>,
                                         d: nat, k: nat)
    returns (moving: set<nat>)
    requires Stalls(schedule, log, oldest, stalled) && AnswersWithin(schedule, d) && k * d <= |oldest|
    ensures |moving| == k && moving !! stalled && forall t :: t in moving ==> t < k * d
  {
    moving := {};
    if k > 0 {
      var before := TurnsThatMove(schedule, log, oldest, stalled, d, k - 1);
      assert k * d == (k - 1) * d + d;
      SomeTurnMoves(schedule, log, oldest, stalled, d, (k - 1) * d);
      var t: nat :| (k - 1) * d <= t < (k - 1) * d + d && t !in stalled;
      moving := before + {t};
    }
  }

  /** If all but n turns of a schedule stalled, a device that answers within d turns had less than (n + 1) d turns. */
  lemma EndsInTime(schedule: seq<set<nat>>, log: seq<nat>, oldest: seq<nat>, stalled: set<nat>, d: nat, n: nat)
    requires Stalls(schedule, log, oldest, stalled) && AnswersWithin(schedule, d)
    requires |oldest| == |schedule| <= n + |stalled|
    ensures |schedule| < (n + 1) * d
  {
    if (n + 1) * d <= |schedule| {
      var moving := TurnsThatMove(schedule, log, oldest, stalled, d, n + 1);
      RangeCard(0, |schedule|);
      CardSubset(moving + stalled, Range(0, |schedule|));
    }
  }

  lemma RemainingBound(n: nat, sent: set<nat>, read: set<nat>, done: set<nat>)
    ensures Remaining(n, sent, read, done) <= 3 * n
  {
    UnseenBound(n, sent);
    UnseenBound(n, read);
    UnseenBound(n, done);
  }

  lemma {:induction false} UnseenBound(n: nat, s: set<nat>)
    ensures Unseen(n, s) <= n
  {
    if n == 0 {
      assert (set x: nat | x < 0 && x !in s) == {};
    } else {
      UnseenBound(n - 1, s);
      var a, b := set x: nat | x < n && x !in s, set x: nat | x < n - 1 && x !in s;
      assert a <= b + {n - 1};
      CardSubset(a, b + {n - 1});
    }
  }

  function StartPool(first: nat -> real, start: seq<nat>): (r: seq<Neighbor>)
    ensures |r| == |start|
  {
    seq(|start|, i requires 0 <= i < |start| => Neighbor(start[i], first(start[i]), true, false))
  }

  lemma StartState(graph: seq<seq<nat>>, exact: nat -> real, first: nat -> real, start: seq<nat>)
    requires Disjoint(start, {}) && InRange(Members(start), |graph|)
    ensures IoState(graph, exact, StartPool(first, start), Members(start), [], map[], [], {}, {}, [])
  {
    assert InFlight([]) == {} && Members([]) == {};
  }

  /** Requesting some of the start points changes none of their ids. */
  lemma StartIds(first: nat -> real, start: seq<nat>, sent: set<nat>)
    ensures IdsAre(ClearSent(StartPool(first, start), sent), Members(start))
  {
    var r := ClearSent(StartPool(first, start), sent);
    forall x | x in Members(start)
      ensures InPool(r, x)
    {
      var i :| 0 <= i < |start| && start[i] == x;
      assert r[i].id == x;
    }
  }

  lemma RestartState(graph: seq<seq<nat>>, dist: nat -> real, exact: nat -> real, L: nat, pool: seq<Neighbor>,
                     ids: set<nat>, q: seq<Io>, sent: set<nat>, log: seq<nat>)
    requires IoState(graph, exact, pool, ids, q, map[], [], sent, {}, log) && IdsAre(pool, ids) && 1 <= |pool| <= L
    ensures var r := SortNeighbors(Rescore(dist, pool));
            && IoState(graph, exact, r, ids, q, map[], [], sent, {}, log) && 1 <= |r| <= L
            && Consistent(graph, dist, L, ids, r, ids, sent, {})
  {
    hide Listing, SortNeighbors, Rescore, FlagsTell, VisitedTell, DistinctIds, IdsAre, Slots, FlightDistinct, Disjoint;
    RescoreKeeps(dist, pool, ids, sent);
    var s := Rescore(dist, pool);
    SortListing(dist, L, s, ids, sent);
    var r := SortNeighbors(s);
    assert Discovered(graph, ids, {}) == ids;
    hide InFlight, Members, InRange, Discovered;
    assert DistinctIds(r) && IdsIn(r, ids);
  }

  lemma SlotsOf(pool: seq<Neighbor>, q: seq<Io>, read: set<nat>, sent: set<nat>, done: set<nat>, log: seq<nat>)
    requires IoInv(pool, q, read, sent, done, log)
    ensures Slots(q, |log|)
  {
  }

  /** The first entry that has been read and not visited. */
  ghost predicate FirstReady(pool: seq<Neighbor>, read: set<nat>, m: nat) {
    m < |pool| && !pool[m].visited && pool[m].id in read && NoneReady(pool[..m], read)
  }

  lemma FlagMeansUnsent(graph: seq<seq<nat>>, exact: nat -> real, pool: seq<Neighbor>, seen: set<nat>, q: seq<Io>,
                        idBuf: map<nat, seq<nat>>, full: seq<Neighbor>, sent: set<nat>, done: set<nat>, log: seq<nat>,
                        i: nat)
    requires IoState(graph, exact, pool, seen, q, idBuf, full, sent, done, log) && i < |pool|
    ensures pool[i].flag ==> !pool[i].visited && pool[i].id !in idBuf
  {
  }

  lemma SentSeen(graph: seq<seq<nat>>, exact: nat -> real, pool: seq<Neighbor>, seen: set<nat>, q: seq<Io>,
                 idBuf: map<nat, seq<nat>>, full: seq<Neighbor>, sent: set<nat>, done: set<nat>, log: seq<nat>)
    requires IoState(graph, exact, pool, seen, q, idBuf, full, sent, done, log)
    ensures sent <= seen
  {
  }

  lemma FlagAfter(pool: seq<Neighbor>, cut: nat, m: nat)
    requires m < |pool| && pool[m].flag && Settled(pool, cut)
    ensures cut <= m
  {
  }

  lemma SettledAll(pool: seq<Neighbor>, cut: nat)
    requires Settled(pool, cut)
    ensures cut == |pool| ==> AllSent(pool)
  {
  }

  // ----- what the device has completed -----

  /** The ids of the requests in the completed slots. */
  ghost function Answered(q: seq<Io>, completed: set<nat>): set<nat> {
    set i | 0 <= i < |q| && q[i].slot in completed :: q[i].nbr.id
  }

  /** Records in memory and finished requests have been completed by the device; the queue is the end of the log. */
  ghost predicate Arrivals(q: seq<Io>, read: set<nat>, log: seq<nat>, arrived: set<nat>) {
    && read <= arrived && |q| <= |log|
    && forall i :: 0 <= i < |q| ==> q[i].nbr.id == log[|log| - |q| + i] && (q[i].finished ==> q[i].nbr.id in arrived)
  }

  lemma NoArrivals()
    ensures Arrivals([], {}, [], {})
  {
  }

  lemma SendArrivals(q: seq<Io>, read: set<nat>, log: seq<nat>, arrived: set<nat>, io: Io)
    requires Arrivals(q, read, log, arrived) && !io.finished
    ensures Arrivals(q + [io], read, log + [io.nbr.id], arrived)
  {
  }

  lemma CompleteArrivals(q: seq<Io>, read: set<nat>, log: seq<nat>, arrived: set<nat>, completed: set<nat>)
    requires Arrivals(q, read, log, arrived)
    ensures Arrivals(Complete(q, completed), read, log, arrived + Answered(q, completed))
  {
  }

  lemma PopArrivals(q: seq<Io>, read: set<nat>, log: seq<nat>, arrived: set<nat>)
    requires Arrivals(q, read, log, arrived) && q != [] && q[0].finished
    ensures Arrivals(q[1..], read + {q[0].nbr.id}, log, arrived)
  {
  }

  lemma ArrivalsCover(q: seq<Io>, read: set<nat>, log: seq<nat>, arrived: set<nat>)
    requires Arrivals(q, read, log, arrived)
    ensures read <= arrived
  {
  }

  /** The first k requests of `q`, all finished, have been taken and their records read. */
  ghost predicate PrefixTaken(q: seq<Io>, k: nat, rest: seq<Io>, read0: set<nat>, read: set<nat>) {
    && k <= |q| && rest == q[k..] && (forall j :: 0 <= j < k ==> q[j].finished)
    && read == read0 + InFlight(q[..k])
  }

  /** ... and the next one, if there is one, is not finished. */
  ghost predicate HeadTaken(q: seq<Io>, k: nat, rest: seq<Io>, read0: set<nat>, read: set<nat>) {
    PrefixTaken(q, k, rest, read0, read) && HeadPending(rest)
  }

  lemma NoneTaken(q: seq<Io>, read: set<nat>)
    ensures PrefixTaken(q, 0, q, read, read)
  {
    assert InFlight(q[..0]) == {};
  }

  lemma TakeNext(q: seq<Io>, k: nat, rest: seq<Io>, read0: set<nat>, read: set<nat>)
    requires PrefixTaken(q, k, rest, read0, read) && rest != [] && rest[0].finished
    ensures PrefixTaken(q, k + 1, rest[1..], read0, read + {rest[0].nbr.id})
  {
    assert q[..k + 1] == q[..k] + [rest[0]];
    assert InFlight(q[..k + 1]) == InFlight(q[..k]) + {rest[0].nbr.id} by {
      hide PrefixTaken;
      InFlightSnoc(q[..k], rest[0]);
    }
  }

  lemma InFlightSnoc(q: seq<Io>, io: Io)
    ensures InFlight(q + [io]) == InFlight(q) + {io.nbr.id}
  {
    var r := q + [io];
    assert r[|q|] == io;
    forall x | x in InFlight(q)
      ensures x in InFlight(r)
    {
      var i :| 0 <= i < |q| && q[i].nbr.id == x;
      assert r[i].nbr.id == x;
    }
  }

  /** The device has not completed the oldest request in flight. */
  ghost predicate OldestPending(q: seq<Io>, completed: set<nat>) {
    q != [] && q[0].slot !in completed
  }

  /** If no record was read, the queue is as it was, apart from completions, and its head is pending. */
  lemma HeadFacts(q0: seq<Io>, completed: set<nat>, k: nat, q: seq<Io>, read0: set<nat>, read: set<nat>)
    requires HeadTaken(Complete(q0, completed), k, q, read0, read) && read0 !! InFlight(q0)
    ensures |q| <= |q0| && read0 <= read
    ensures read == read0 ==> |q| == |q0| && (q != [] ==> OldestPending(q0, completed))
  {
    var c := Complete(q0, completed);
    if k > 0 {
      var x := q0[0].nbr.id;
      assert c[..k][0].nbr.id == x && x in InFlight(c[..k]) && x in InFlight(q0);
      assert x in read && x !in read0;
    }
  }

  /** Some turn of the schedule completed the slot in which the id was requested. */
  ghost predicate AnsweredIn(schedule: seq<set<nat>>, log: seq<nat>, x: nat) {
    exists i, p :: 0 <= i < |schedule| && 0 <= p < |log| && log[p] == x && p % MAX_N_SECTOR_READS in schedule[i]
  }

  lemma TraceAnswers(graph: seq<seq<nat>>, exact: nat -> real, pool: seq<Neighbor>, seen: set<nat>, q: seq<Io>,
                     idBuf: map<nat, seq<nat>>, full: seq<Neighbor>, sent: set<nat>, done: set<nat>, log: seq<nat>,
                     arrived: set<nat>, schedule: seq<set<nat>>, t: nat)
    requires IoState(graph, exact, pool, seen, q, idBuf, full, sent, done, log) && Arrivals(q, idBuf.Keys, log, arrived)
    requires t < |schedule|
    ensures forall x :: x in Answered(q, schedule[t]) ==> AnsweredIn(schedule, log, x)
  {
    SlotsOf(pool, q, idBuf.Keys, sent, done, log);
    hide IoState;
    forall x | x in Answered(q, schedule[t])
      ensures AnsweredIn(schedule, log, x)
    {
      var i :| 0 <= i < |q| && q[i].slot in schedule[t] && q[i].nbr.id == x;
      assert log[|log| - |q| + i] == x;
    }
  }

  lemma TraceLonger(schedule: seq<set<nat>>, log: seq<nat>, more: seq<nat>)
    requires log <= more
    ensures forall x :: AnsweredIn(schedule, log, x) ==> AnsweredIn(schedule, more, x)
  {
    forall x | AnsweredIn(schedule, log, x)
      ensures AnsweredIn(schedule, more, x)
    {
      var i, p :| 0 <= i < |schedule| && 0 <= p < |log| && log[p] == x && p % MAX_N_SECTOR_READS in schedule[i];
      assert more[p] == x;
    }
  }

  lemma FlightApart(graph: seq<seq<nat>>, exact: nat -> real, pool: seq<Neighbor>, seen: set<nat>, q: seq<Io>,
                    idBuf: map<nat, seq<nat>>, full: seq<Neighbor>, sent: set<nat>, done: set<nat>, log: seq<nat>)
    requires IoState(graph, exact, pool, seen, q, idBuf, full, sent, done, log)
    ensures idBuf.Keys !! InFlight(q)
  {
  }
}
