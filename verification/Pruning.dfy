/** Alpha-pruning of a neighbour list: the multi-pass occlusion over a sorted pool, in product-quantised space
    (occlude_list_pq, prune_neighbors_pq) and over full coordinates (occlude_list of the in-memory index). */
module Pruning {
  import opened Counting

  /** A candidate edge: the neighbour's id and its distance from the node being pruned. */
  datatype Candidate = Candidate(id: nat, distance: real)

  /** Neighbor::operator<. */
  predicate Less(a: Candidate, b: Candidate) {
    a.distance < b.distance || (a.distance == b.distance && a.id < b.id)
  }

  ghost predicate Sorted(s: seq<Candidate>) {
    forall i, j :: 0 <= i < j < |s| ==> Less(s[i], s[j])
  }

  /** occlude_factor of a pool entry: the largest ratio dist(t)/dist(p,t) over the kept p, or `Huge` for a
      float that no finite alpha reaches (a kept entry's FLT_MAX, or a division by zero). */
  datatype Factor = Ratio(r: real) | Huge

  predicate Exceeds(f: Factor, a: real) {
    f.Huge? || f.r > a
  }

  /** max(f, d / djk) on floats: d / 0 is infinite, and 0 / 0 is a NaN that max ignores. */
  function Raise(f: Factor, d: real, djk: real): (g: Factor) {
    if f.Huge? then Huge
    else if djk == 0.0 then if d == 0.0 then f else Huge
    else if f.r < d / djk then Ratio(d / djk)
    else f
  }

  lemma RaiseExceeds(f: Factor, d: real, djk: real, a: real)
    requires 0.0 <= d && 0.0 <= djk && 0.0 <= a
    ensures Exceeds(Raise(f, d, djk), a) <==> Exceeds(f, a) || d > a * djk
  {
    if djk > 0.0 {
      var q := d / djk;
      assert q * djk == d;
      assert (q - a) * djk == d - a * djk;
      assert q > a ==> (q - a) * djk > 0.0;
      assert q <= a ==> (a - q) * djk >= 0.0;
    }
  }

  /** std::set<Neighbor>::insert on the sorted contents of the set. */
  function Insert(s: seq<Candidate>, c: Candidate): (r: seq<Candidate>)
    ensures forall x :: x in r <==> x in s || x == c
    ensures Sorted(s) ==> Sorted(r) && |r| == if c in s then |s| else |s| + 1
  {
    if s == [] then [c]
    else if c == s[0] then s
    else if Less(c, s[0]) then
      assert Sorted(s) ==> c !in s;
      [c] + s
    else
      var t := Insert(s[1..], c);
      assert forall x :: x in s <==> x == s[0] || x in s[1..];
      assert Sorted(s) ==> forall x :: x in t ==> Less(s[0], x);
      [s[0]] + t
  }

  // ----- occlusion -----

  type Distance = (nat, nat) -> real

  ghost predicate NonNegative(pool: seq<Candidate>, dist: Distance) {
    && (forall x, y :: 0.0 <= dist(x, y))
    && (forall t :: 0 <= t < |pool| ==> 0.0 <= pool[t].distance)
  }

  /** Keeping pool entry `p` makes entry `t` redundant at `a`: t is more than `a` times closer to p than to the node. */
  ghost predicate Occludes(pool: seq<Candidate>, dist: Distance, p: nat, t: nat, a: real)
    requires p < |pool| && t < |pool|
  {
    pool[t].distance > a * dist(pool[p].id, pool[t].id)
  }

  /** What the factor of an entry that is not kept says about the kept entries before it. */
  ghost predicate FactorMeaning(pool: seq<Candidate>, dist: Distance, alpha: real, f: Factor, kept: seq<nat>, t: nat)
    requires t < |pool|
  {
    && (forall a: real :: 0.0 <= a && Exceeds(f, a) ==>
          exists p :: p in kept && p < t && Occludes(pool, dist, p, t, a))
    && (!Exceeds(f, alpha) ==>
          forall p, a: real :: p in kept && p < t && 0.0 <= a && Occludes(pool, dist, p, t, a) ==> Exceeds(f, a))
  }

  ghost predicate Inv(pool: seq<Candidate>, dist: Distance, alpha: real, limit: nat, factors: seq<Factor>,
                      result: seq<Candidate>, kept: seq<nat>)
    requires limit <= |pool|
  {
    && |factors| == |pool|
    && Sorted(result)
    && (forall k :: k in kept ==> k < limit && factors[k] == Huge && pool[k] in result)
    && (forall c :: c in result ==> exists k :: k in kept && k < |pool| && pool[k] == c)
    && (forall t :: 0 <= t < limit && t !in kept ==> FactorMeaning(pool, dist, alpha, factors[t], kept, t))
    && (forall i, j :: 0 <= i < j < |kept| ==>
          kept[i] != kept[j] && (kept[i] < kept[j] < |pool| ==> !Occludes(pool, dist, kept[i], kept[j], alpha)))
  }

  /** The settings of a pruning: distance, alpha, the largest degree, and how many candidates are looked at. */
  datatype Settings = Settings(dist: Distance, alpha: real, range: nat, maxc: nat)

  /** The factor update for the entries after a kept one. */
  function RaisedAfter(s: Settings, pool: seq<Candidate>, limit: nat, factors: seq<Factor>,
                       start: nat): (r: seq<Factor>)
    requires |factors| == |pool| && start < |pool|
    ensures |r| == |factors|
  {
    seq(|factors|, t requires 0 <= t < |factors| =>
      if start < t < limit && !Exceeds(factors[t], s.alpha)
      then Raise(factors[t], pool[t].distance, s.dist(pool[start].id, pool[t].id))
      else factors[t])
  }

  method RaiseAfter(s: Settings, pool: seq<Candidate>, limit: nat, factors: seq<Factor>, start: nat)
    returns (factors': seq<Factor>)
    requires limit <= |pool| == |factors| && start < limit
    ensures factors' == RaisedAfter(s, pool, limit, factors, start)
  {
    factors' := factors;
    var t := start + 1;
    while t < limit
      invariant start < t <= limit && |factors'| == |factors|
      invariant forall u :: t <= u < |pool| || 0 <= u <= start ==> factors'[u] == factors[u]
      invariant forall u :: start < u < t ==>
                  factors'[u] == if Exceeds(factors[u], s.alpha) then factors[u]
                                 else Raise(factors[u], pool[u].distance, s.dist(pool[start].id, pool[u].id))
    {
      if !Exceeds(factors'[t], s.alpha) {
        var djk := s.dist(pool[start].id, pool[t].id);
        factors' := factors'[t := Raise(factors'[t], pool[t].distance, djk)];
      }
      t := t + 1;
    }
  }

  lemma RaiseMeaning(pool: seq<Candidate>, dist: Distance, alpha: real, f: Factor, kept: seq<nat>, start: nat, t: nat)
    requires start < |pool| && t < |pool| && NonNegative(pool, dist) && 0.0 <= alpha
    requires FactorMeaning(pool, dist, alpha, f, kept, t)
    ensures var g := if start < t && !Exceeds(f, alpha)
                     then Raise(f, pool[t].distance, dist(pool[start].id, pool[t].id)) else f;
            FactorMeaning(pool, dist, alpha, g, kept + [start], t)
  {
    var djk := dist(pool[start].id, pool[t].id);
    var g := if start < t && !Exceeds(f, alpha) then Raise(f, pool[t].distance, djk) else f;
    var kept' := kept + [start];
    forall a: real | 0.0 <= a && Exceeds(g, a)
      ensures exists p :: p in kept' && p < t && Occludes(pool, dist, p, t, a)
    {
      if Exceeds(f, a) {
        var p :| p in kept && p < t && Occludes(pool, dist, p, t, a);
        assert p in kept';
      } else {
        RaiseExceeds(f, pool[t].distance, djk, a);
        assert start in kept' && Occludes(pool, dist, start, t, a);
      }
    }
    if !Exceeds(g, alpha) {
      RaiseExceeds(f, pool[t].distance, djk, alpha);
      forall p, a: real | p in kept' && p < t && 0.0 <= a && Occludes(pool, dist, p, t, a)
        ensures Exceeds(g, a)
      {
        RaiseExceeds(f, pool[t].distance, djk, a);
        assert p in kept || p == start;
      }
    }
  }

  lemma KeepStep(pool: seq<Candidate>, dist: Distance, alpha: real, limit: nat, factors: seq<Factor>,
                 factors': seq<Factor>, result: seq<Candidate>, kept: seq<nat>, start: nat, cur: real)
    requires limit <= |pool| && start < limit && NonNegative(pool, dist) && 0.0 <= cur <= alpha
    requires Inv(pool, dist, alpha, limit, factors, result, kept) && !Exceeds(factors[start], cur)
    requires |factors'| == |pool| && factors'[start] == Huge
    requires forall t :: 0 <= t < |pool| && t != start ==>
               factors'[t] ==
               if start < t < limit && !Exceeds(factors[t], alpha)
               then Raise(factors[t], pool[t].distance, dist(pool[start].id, pool[t].id))
               else factors[t]
    ensures Inv(pool, dist, alpha, limit, factors', Insert(result, pool[start]), kept + [start])
  {
    var kept' := kept + [start];
    assert start !in kept && FactorMeaning(pool, dist, alpha, factors[start], kept, start);
    forall t | 0 <= t < limit && t !in kept'
      ensures FactorMeaning(pool, dist, alpha, factors'[t], kept', t)
    {
      assert t !in kept && t != start;
      RaiseMeaning(pool, dist, alpha, factors[t], kept, start, t);
    }
    forall i, j | 0 <= i < j < |kept'|
      ensures kept'[i] != kept'[j]
      ensures (kept'[i] < kept'[j] < |pool| ==> !Occludes(pool, dist, kept'[i], kept'[j], alpha))
    {
      assert kept'[i] in kept;
    }
    forall c | c in Insert(result, pool[start])
      ensures exists k :: k in kept' && k < |pool| && pool[k] == c
    {
      if c in result {
        var k :| k in kept && k < |pool| && pool[k] == c;
        assert k in kept';
      } else {
        assert start in kept';
      }
    }
  }

  // ----- the passes -----

  /** The state of the occlusion: the factors, the kept candidates as a sorted set, and their positions as they were
      kept. */
  datatype Occlusion = Occlusion(factors: seq<Factor>, result: seq<Candidate>, kept: seq<nat>)

  /** How many are kept: in product-quantised space equal candidates count once (a set), in the in-memory index each
      counts (a list). */
  function Size(o: Occlusion, asSet: bool): nat {
    if asSet then |o.result| else |o.kept|
  }

  function KeepEntry(s: Settings, pool: seq<Candidate>, limit: nat, o: Occlusion, start: nat): (r: Occlusion)
    requires |o.factors| == |pool| && start < |pool|
    ensures |r.factors| == |pool|
  {
    Occlusion(RaisedAfter(s, pool, limit, o.factors[start := Huge], start), Insert(o.result, pool[start]),
              o.kept + [start])
  }

  /** What a pass at level `cur` makes of the state from position `start` on. */
  function PassFrom(s: Settings, asSet: bool, pool: seq<Candidate>, limit: nat, cur: real, o: Occlusion,
                    start: nat): (r: Occlusion)
    requires |o.factors| == |pool| && limit <= |pool|
    ensures |r.factors| == |pool|
    decreases limit - start
  {
    if Size(o, asSet) >= s.range || start >= limit then o
    else if Exceeds(o.factors[start], cur) then PassFrom(s, asSet, pool, limit, cur, o, start + 1)
    else PassFrom(s, asSet, pool, limit, cur, KeepEntry(s, pool, limit, o, start), start + 1)
  }

  /** What the passes from level `cur` on make of the state, each level 1.2 times the one before. */
  function RunFrom(s: Settings, asSet: bool, pool: seq<Candidate>, limit: nat, cur: real, o: Occlusion): (r: Occlusion)
    requires |o.factors| == |pool| && limit <= |pool| && 1.0 <= cur
    ensures |r.factors| == |pool|
    decreases ((s.alpha - cur) * 5.0).Floor + 1
  {
    if cur > s.alpha || Size(o, asSet) >= s.range then o
    else
      LevelUp(s.alpha, cur);
      RunFrom(s, asSet, pool, limit, cur * 1.2, PassFrom(s, asSet, pool, limit, cur, o, 0))
  }

  lemma LevelUp(alpha: real, cur: real)
    requires 1.0 <= cur <= alpha
    ensures ((alpha - cur * 1.2) * 5.0).Floor + 1 < ((alpha - cur) * 5.0).Floor + 1 && ((alpha - cur) * 5.0).Floor >= 0
    ensures cur * 1.2 >= 1.0
  {
  }

  /** The candidates of the pool that are looked at. */
  function Limit(pool: seq<Candidate>, maxc: nat): (limit: nat)
    ensures limit <= |pool| && limit <= maxc && (limit == |pool| || limit == maxc)
  {
    if |pool| < maxc then |pool| else maxc
  }

  function Start(pool: seq<Candidate>): (o: Occlusion)
    ensures |o.factors| == |pool|
  {
    Occlusion(seq(|pool|, _ => Ratio(0.0)), [], [])
  }

  function Occlude(s: Settings, asSet: bool, pool: seq<Candidate>): (o: Occlusion) {
    RunFrom(s, asSet, pool, Limit(pool, s.maxc), 1.0, Start(pool))
  }

  lemma InvLength(pool: seq<Candidate>, dist: Distance, alpha: real, limit: nat, factors: seq<Factor>,
                  result: seq<Candidate>, kept: seq<nat>)
    requires limit <= |pool| && Inv(pool, dist, alpha, limit, factors, result, kept)
    ensures |factors| == |pool| && Sorted(result)
  {
  }

  ghost predicate InvOf(s: Settings, asSet: bool, pool: seq<Candidate>, limit: nat, o: Occlusion)
    requires limit <= |pool|
  {
    Inv(pool, s.dist, s.alpha, limit, o.factors, o.result, o.kept) && Size(o, asSet) <= s.range
  }

  /** Below `start` no entry is left that level `cur` would keep. */
  ghost predicate Swept(o: Occlusion, cur: real, start: nat) {
    start <= |o.factors| && forall t :: 0 <= t < start ==> Exceeds(o.factors[t], cur)
  }

  lemma KeepOne(s: Settings, asSet: bool, pool: seq<Candidate>, limit: nat, cur: real, o: Occlusion, start: nat)
    requires limit <= |pool| && start < limit && NonNegative(pool, s.dist) && 0.0 <= cur <= s.alpha
    requires InvOf(s, asSet, pool, limit, o) && Size(o, asSet) < s.range && !Exceeds(o.factors[start], cur)
    requires |o.factors| == |pool| && Swept(o, cur, start)
    ensures var r := KeepEntry(s, pool, limit, o, start); InvOf(s, asSet, pool, limit, r) && Swept(r, cur, start + 1)
  {
    hide Inv;
    var r := KeepEntry(s, pool, limit, o, start);
    InvLength(pool, s.dist, s.alpha, limit, o.factors, o.result, o.kept);
    KeepStep(pool, s.dist, s.alpha, limit, o.factors, r.factors, o.result, o.kept, start, cur);
  }

  /** A pass keeps what the factors mean, and ends full or with every entry occluded at its level. */
  lemma {:induction false} PassKeeps(s: Settings, asSet: bool, pool: seq<Candidate>, limit: nat, cur: real,
                                     o: Occlusion, start: nat)
    requires |o.factors| == |pool| && limit <= |pool| && start <= limit && NonNegative(pool, s.dist)
    requires 0.0 <= cur <= s.alpha
    requires InvOf(s, asSet, pool, limit, o) && Swept(o, cur, start)
    ensures var r := PassFrom(s, asSet, pool, limit, cur, o, start);
            InvOf(s, asSet, pool, limit, r) && (Size(r, asSet) < s.range ==> Swept(r, cur, limit))
    decreases limit - start
  {
    hide InvOf;
    if Size(o, asSet) < s.range && start < limit {
      if Exceeds(o.factors[start], cur) {
        PassKeeps(s, asSet, pool, limit, cur, o, start + 1);
      } else {
        KeepOne(s, asSet, pool, limit, cur, o, start);
        PassKeeps(s, asSet, pool, limit, cur, KeepEntry(s, pool, limit, o, start), start + 1);
      }
    }
  }

  /** The passes keep what the factors mean. If the list is not full at the end, every entry is occluded at the last
      level tried, which is within a factor 1.2 of alpha. */
  lemma {:induction false} RunKeeps(s: Settings, asSet: bool, pool: seq<Candidate>, limit: nat, cur: real, o: Occlusion,
                                    last0: real)
    returns (last: real)
    requires |o.factors| == |pool| && limit <= |pool| && NonNegative(pool, s.dist) && 1.0 <= cur
    requires InvOf(s, asSet, pool, limit, o)
    requires cur > 1.0 ==>
               last0 * 1.2 == cur && 1.0 <= last0 <= s.alpha && (Size(o, asSet) < s.range ==> Swept(o, last0, limit))
    ensures var r := RunFrom(s, asSet, pool, limit, cur, o);
            && InvOf(s, asSet, pool, limit, r)
            && ((cur > 1.0 || 1.0 <= s.alpha) && Size(r, asSet) < s.range ==>
                  1.0 <= last <= s.alpha < last * 1.2 && Swept(r, last, limit))
    decreases ((s.alpha - cur) * 5.0).Floor + 1
  {
    hide InvOf, Swept;
    last := last0;
    if cur <= s.alpha && Size(o, asSet) < s.range {
      LevelUp(s.alpha, cur);
      SweptNone(o, cur);
      PassKeeps(s, asSet, pool, limit, cur, o, 0);
      last := RunKeeps(s, asSet, pool, limit, cur * 1.2, PassFrom(s, asSet, pool, limit, cur, o, 0), cur);
    }
  }

  lemma SweptNone(o: Occlusion, cur: real)
    ensures Swept(o, cur, 0)
  {
  }

  // ----- the order of keeping -----

  /** The levels of the passes. */
  function Level(n: nat): (a: real)
    ensures a >= 1.0
  {
    if n == 0 then 1.0 else Level(n - 1) * 1.2
  }

  /** Entry t is kept, or occluded at `a` by a nearer kept one. */
  ghost predicate Handled(pool: seq<Candidate>, dist: Distance, kept: seq<nat>, t: nat, a: real)
    requires t < |pool|
  {
    t in kept || exists p :: p in kept && p < t && Occludes(pool, dist, p, t, a)
  }

  ghost predicate AllHandled(pool: seq<Candidate>, dist: Distance, kept: seq<nat>, n: nat, a: real)
    requires n <= |pool|
  {
    forall t :: 0 <= t < n ==> Handled(pool, dist, kept, t, a)
  }

  /** With `kept` kept, t is the next to keep: at every lower level all entries are handled, at this one those before t
      are, and t is not. */
  ghost predicate FirstChoice(s: Settings, pool: seq<Candidate>, limit: nat, kept: seq<nat>, t: nat, level: nat)
    requires limit <= |pool|
  {
    && t < limit && Level(level) <= s.alpha && !Handled(pool, s.dist, kept, t, Level(level))
    && AllHandled(pool, s.dist, kept, t, Level(level))
    && forall b :: 0 <= b < level ==> AllHandled(pool, s.dist, kept, limit, Level(b))
  }

  /** Each entry was the first choice when it was kept. */
  ghost predicate Greedy(s: Settings, pool: seq<Candidate>, limit: nat, kept: seq<nat>)
    requires limit <= |pool|
  {
    forall i :: 0 <= i < |kept| ==> ChoiceAt(s, pool, limit, kept[..i], kept[i])
  }

  ghost predicate ChoiceAt(s: Settings, pool: seq<Candidate>, limit: nat, kept: seq<nat>, t: nat)
    requires limit <= |pool|
  {
    exists level: nat :: FirstChoice(s, pool, limit, kept, t, level)
  }

  lemma GreedyNone(s: Settings, pool: seq<Candidate>, limit: nat)
    requires limit <= |pool|
    ensures Greedy(s, pool, limit, [])
  {
  }

  lemma GreedyNext(s: Settings, pool: seq<Candidate>, limit: nat, kept: seq<nat>, t: nat)
    requires limit <= |pool| && Greedy(s, pool, limit, kept) && ChoiceAt(s, pool, limit, kept, t)
    ensures Greedy(s, pool, limit, kept + [t])
  {
    hide ChoiceAt;
    var more := kept + [t];
    forall i | 0 <= i < |more|
      ensures ChoiceAt(s, pool, limit, more[..i], more[i])
    {
      assert more[..i] == if i < |kept| then kept[..i] else kept;
    }
  }

  lemma {:induction false} LevelGrows(b: nat, n: nat)
    requires b <= n
    ensures Level(b) <= Level(n)
  {
    if b < n {
      LevelGrows(b, n - 1);
    }
  }

  lemma HandledLower(pool: seq<Candidate>, dist: Distance, kept: seq<nat>, n: nat, a: real, b: real)
    requires n <= |pool| && NonNegative(pool, dist) && b <= a && AllHandled(pool, dist, kept, n, a)
    ensures AllHandled(pool, dist, kept, n, b)
  {
    forall t | 0 <= t < n && t !in kept
      ensures exists p :: p in kept && p < t && Occludes(pool, dist, p, t, b)
    {
      assert Handled(pool, dist, kept, t, a);
      var p :| p in kept && p < t && Occludes(pool, dist, p, t, a);
      assert (a - b) * dist(pool[p].id, pool[t].id) >= 0.0;
    }
  }

  lemma SweptHandled(s: Settings, asSet: bool, pool: seq<Candidate>, limit: nat, o: Occlusion, cur: real, start: nat)
    requires limit <= |pool| && start <= limit && 0.0 <= cur && InvOf(s, asSet, pool, limit, o) && Swept(o, cur, start)
    ensures AllHandled(pool, s.dist, o.kept, start, cur)
  {
    forall t | 0 <= t < start && t !in o.kept
      ensures exists p :: p in o.kept && p < t && Occludes(pool, s.dist, p, t, cur)
    {
      assert FactorMeaning(pool, s.dist, s.alpha, o.factors[t], o.kept, t);
    }
  }

  lemma NotHandled(s: Settings, asSet: bool, pool: seq<Candidate>, limit: nat, o: Occlusion, cur: real, t: nat)
    requires limit <= |pool| && t < limit && 0.0 <= cur <= s.alpha && InvOf(s, asSet, pool, limit, o)
    requires |o.factors| == |pool| && !Exceeds(o.factors[t], cur)
    ensures !Handled(pool, s.dist, o.kept, t, cur)
  {
    assert t !in o.kept;
    assert FactorMeaning(pool, s.dist, s.alpha, o.factors[t], o.kept, t);
  }

  lemma KeepChoice(s: Settings, asSet: bool, pool: seq<Candidate>, limit: nat, n: nat, o: Occlusion, start: nat)
    requires limit <= |pool| && start < limit && NonNegative(pool, s.dist) && Level(n) <= s.alpha
    requires InvOf(s, asSet, pool, limit, o) && |o.factors| == |pool| && !Exceeds(o.factors[start], Level(n))
    requires Swept(o, Level(n), start) && (n > 0 ==> Swept(o, Level(n - 1), limit))
    ensures ChoiceAt(s, pool, limit, o.kept, start)
  {
    hide InvOf, Swept, Exceeds, Level, AllHandled, Handled;
    NotHandled(s, asSet, pool, limit, o, Level(n), start);
    SweptHandled(s, asSet, pool, limit, o, Level(n), start);
    forall b | 0 <= b < n
      ensures AllHandled(pool, s.dist, o.kept, limit, Level(b))
    {
      SweptHandled(s, asSet, pool, limit, o, Level(n - 1), limit);
      LevelGrows(b, n - 1);
      HandledLower(pool, s.dist, o.kept, limit, Level(n - 1), Level(b));
    }
    assert FirstChoice(s, pool, limit, o.kept, start, n);
  }

  /** Factors only rise. */
  lemma SweptStays(s: Settings, pool: seq<Candidate>, limit: nat, o: Occlusion, start: nat, a: real, n: nat)
    requires |o.factors| == |pool| && start < |pool| && NonNegative(pool, s.dist) && Swept(o, a, n)
    ensures Swept(KeepEntry(s, pool, limit, o, start), a, n)
  {
    hide Insert;
  }

  lemma {:induction false} PassGreedy(s: Settings, asSet: bool, pool: seq<Candidate>, limit: nat, n: nat, o: Occlusion,
                                      start: nat)
    requires |o.factors| == |pool| && limit <= |pool| && start <= limit && NonNegative(pool, s.dist)
    requires Level(n) <= s.alpha && InvOf(s, asSet, pool, limit, o) && Greedy(s, pool, limit, o.kept)
    requires Swept(o, Level(n), start) && (n > 0 ==> Swept(o, Level(n - 1), limit))
    ensures Greedy(s, pool, limit, PassFrom(s, asSet, pool, limit, Level(n), o, start).kept)
    decreases limit - start
  {
    hide InvOf, Greedy, Level, ChoiceAt, Exceeds;
    if Size(o, asSet) < s.range && start < limit {
      if Exceeds(o.factors[start], Level(n)) {
        PassGreedy(s, asSet, pool, limit, n, o, start + 1);
      } else {
        hide Swept, RaisedAfter;
        KeepChoice(s, asSet, pool, limit, n, o, start);
        GreedyNext(s, pool, limit, o.kept, start);
        KeepOne(s, asSet, pool, limit, Level(n), o, start);
        if n > 0 {
          SweptStays(s, pool, limit, o, start, Level(n - 1), limit);
        }
        PassGreedy(s, asSet, pool, limit, n, KeepEntry(s, pool, limit, o, start), start + 1);
      }
    }
  }

  lemma {:induction false} RunGreedy(s: Settings, asSet: bool, pool: seq<Candidate>, limit: nat, n: nat, o: Occlusion)
    requires |o.factors| == |pool| && limit <= |pool| && NonNegative(pool, s.dist)
    requires InvOf(s, asSet, pool, limit, o) && Greedy(s, pool, limit, o.kept)
    requires n > 0 && Size(o, asSet) < s.range ==> Swept(o, Level(n - 1), limit)
    ensures Greedy(s, pool, limit, RunFrom(s, asSet, pool, limit, Level(n), o).kept)
    decreases ((s.alpha - Level(n)) * 5.0).Floor + 1
  {
    hide InvOf, Greedy, Swept;
    if Level(n) <= s.alpha && Size(o, asSet) < s.range {
      LevelUp(s.alpha, Level(n));
      SweptNone(o, Level(n));
      PassKeeps(s, asSet, pool, limit, Level(n), o, 0);
      PassGreedy(s, asSet, pool, limit, n, o, 0);
      RunGreedy(s, asSet, pool, limit, n + 1, PassFrom(s, asSet, pool, limit, Level(n), o, 0));
    }
  }

  /** The occlusion is greedy: it keeps the entry that the lowest level has left, and at that level the nearest. */
  lemma OccludeGreedy(s: Settings, asSet: bool, pool: seq<Candidate>)
    requires NonNegative(pool, s.dist)
    ensures Greedy(s, pool, Limit(pool, s.maxc), Occlude(s, asSet, pool).kept)
  {
    hide InvOf, Greedy, RunFrom;
    StartInv(s, asSet, pool);
    GreedyNone(s, pool, Limit(pool, s.maxc));
    RunGreedy(s, asSet, pool, Limit(pool, s.maxc), 0, Start(pool));
  }

  // ----- coverage -----

  /** What the kept positions are: within the limit, distinct, each the first choice when it was kept, not occluding
      each other when the nearer one was kept first, and if they are not enough, every other position is occluded by a
      nearer kept one at the last level tried. */
  ghost predicate Covers(s: Settings, pool: seq<Candidate>, kept: seq<nat>, full: bool, last: real) {
    && (forall k :: k in kept ==> k < Limit(pool, s.maxc)) && Greedy(s, pool, Limit(pool, s.maxc), kept)
    && (forall i, j :: 0 <= i < j < |kept| ==>
          kept[i] != kept[j] && (kept[i] < kept[j] < |pool| ==> !Occludes(pool, s.dist, kept[i], kept[j], s.alpha)))
    && (s.alpha < 1.0 ==> kept == [])
    && (1.0 <= s.alpha && !full ==>
          && 1.0 <= last <= s.alpha < last * 1.2
          && forall t :: 0 <= t < Limit(pool, s.maxc) ==>
               t in kept || exists p :: p in kept && p < t && Occludes(pool, s.dist, p, t, last))
  }

  /** Alpha-pruning coverage. */
  lemma OccludeCovers(s: Settings, asSet: bool, pool: seq<Candidate>) returns (last: real)
    requires NonNegative(pool, s.dist)
    ensures var o := Occlude(s, asSet, pool);
            && Covers(s, pool, o.kept, Size(o, asSet) >= s.range, last)
            && Size(o, asSet) <= s.range && Sorted(o.result)
            && (forall k :: k in o.kept ==> k < |pool| && pool[k] in o.result)
            && (forall c :: c in o.result ==> exists k :: k in o.kept && k < |pool| && pool[k] == c)
  {
    hide Greedy;
    var limit := Limit(pool, s.maxc);
    StartInv(s, asSet, pool);
    OccludeGreedy(s, asSet, pool);
    last := RunKeeps(s, asSet, pool, limit, 1.0, Start(pool), 0.0);
    var o := Occlude(s, asSet, pool);
    if 1.0 <= s.alpha && Size(o, asSet) < s.range {
      forall t | 0 <= t < limit && t !in o.kept
        ensures exists p :: p in o.kept && p < t && Occludes(pool, s.dist, p, t, last)
      {
        assert FactorMeaning(pool, s.dist, s.alpha, o.factors[t], o.kept, t);
        assert Exceeds(o.factors[t], last);
      }
    }
  }

  lemma StartInv(s: Settings, asSet: bool, pool: seq<Candidate>)
    ensures InvOf(s, asSet, pool, Limit(pool, s.maxc), Start(pool))
  {
  }

  /** The loops of both variants. */
  method OcclusionPass(s: Settings, asSet: bool, pool: seq<Candidate>, limit: nat, cur: real, o0: Occlusion)
    returns (o: Occlusion)
    requires |o0.factors| == |pool| && limit <= |pool|
    ensures o == PassFrom(s, asSet, pool, limit, cur, o0, 0)
  {
    hide RaisedAfter, Insert;
    o := o0;
    var start := 0;
    while Size(o, asSet) < s.range && start < limit
      invariant 0 <= start <= limit && |o.factors| == |pool|
      invariant PassFrom(s, asSet, pool, limit, cur, o0, 0) == PassFrom(s, asSet, pool, limit, cur, o, start)
      decreases limit - start
    {
      if !Exceeds(o.factors[start], cur) {
        var factors := RaiseAfter(s, pool, limit, o.factors[start := Huge], start);
        o := Occlusion(factors, Insert(o.result, pool[start]), o.kept + [start]);
      }
      start := start + 1;
    }
  }

  method OcclusionLoop(s: Settings, asSet: bool, pool: seq<Candidate>) returns (o: Occlusion)
    ensures o == Occlude(s, asSet, pool)
  {
    hide PassFrom;
    var limit := Limit(pool, s.maxc);
    o := Start(pool);
    var cur := 1.0;
    while cur <= s.alpha && Size(o, asSet) < s.range
      invariant 1.0 <= cur && |o.factors| == |pool|
      invariant RunFrom(s, asSet, pool, limit, 1.0, Start(pool)) == RunFrom(s, asSet, pool, limit, cur, o)
      decreases ((s.alpha - cur) * 5.0).Floor
    {
      LevelUp(s.alpha, cur);
      o := OcclusionPass(s, asSet, pool, limit, cur, o);
      cur := cur * 1.2;
    }
  }

  /** occlude_list_pq: the kept candidates in order. */
  method OccludeListPq(s: Settings, pool: seq<Candidate>) returns (result: seq<Candidate>)
    ensures result == Occlude(s, true, pool).result
  {
    var o := OcclusionLoop(s, true, pool);
    result := o.result;
  }

  /** occlude_list: the kept candidates as they were kept. */
  method OccludeList(s: Settings, pool: seq<Candidate>) returns (result: seq<Candidate>)
    ensures result == KeptOf(s, pool)
  {
    OccludeInPool(s, pool);
    var o := OcclusionLoop(s, false, pool);
    result := seq(|o.kept|, i requires 0 <= i < |o.kept| => pool[o.kept[i]]);
  }

  function KeptOf(s: Settings, pool: seq<Candidate>): (r: seq<Candidate>) {
    OccludeInPool(s, pool);
    var kept := Occlude(s, false, pool).kept;
    seq(|kept|, i requires 0 <= i < |kept| => pool[kept[i]])
  }

  /** The ids at kept positions. */
  ghost function KeptAs(p: seq<Candidate>, kept: seq<nat>): (r: seq<nat>)
    requires forall k :: 0 <= k < |kept| ==> kept[k] < |p|
    ensures |r| == |kept|
  {
    seq(|kept|, k requires 0 <= k < |kept| => p[kept[k]].id)
  }

  /** Kept positions are positions of the pool. */
  lemma OccludeInPool(s: Settings, pool: seq<Candidate>)
    ensures |Occlude(s, false, pool).kept| <= s.range
    ensures forall i :: 0 <= i < |Occlude(s, false, pool).kept| ==> Occlude(s, false, pool).kept[i] < |pool|
  {
    RunInPool(s, false, pool, Limit(pool, s.maxc), 1.0, Start(pool));
  }

  ghost predicate KeptBelow(o: Occlusion, n: nat) {
    forall i :: 0 <= i < |o.kept| ==> o.kept[i] < n
  }

  lemma {:induction false} PassInPool(s: Settings, asSet: bool, pool: seq<Candidate>, limit: nat, cur: real,
                                      o: Occlusion, start: nat)
    requires |o.factors| == |pool| && limit <= |pool| && KeptBelow(o, limit)
    ensures KeptBelow(PassFrom(s, asSet, pool, limit, cur, o, start), limit)
    ensures !asSet && |o.kept| <= s.range ==> |PassFrom(s, asSet, pool, limit, cur, o, start).kept| <= s.range
    decreases limit - start
  {
    hide RaisedAfter, Insert;
    if Size(o, asSet) < s.range && start < limit {
      if Exceeds(o.factors[start], cur) {
        PassInPool(s, asSet, pool, limit, cur, o, start + 1);
      } else {
        PassInPool(s, asSet, pool, limit, cur, KeepEntry(s, pool, limit, o, start), start + 1);
      }
    }
  }

  lemma {:induction false} RunInPool(s: Settings, asSet: bool, pool: seq<Candidate>, limit: nat, cur: real,
                                     o: Occlusion)
    requires |o.factors| == |pool| && limit <= |pool| && 1.0 <= cur && KeptBelow(o, limit)
    ensures KeptBelow(RunFrom(s, asSet, pool, limit, cur, o), limit)
    ensures !asSet && |o.kept| <= s.range ==> |RunFrom(s, asSet, pool, limit, cur, o).kept| <= s.range
    decreases ((s.alpha - cur) * 5.0).Floor + 1
  {
    hide PassFrom;
    if cur <= s.alpha && Size(o, asSet) < s.range {
      LevelUp(s.alpha, cur);
      PassInPool(s, asSet, pool, limit, cur, o, 0);
      RunInPool(s, asSet, pool, limit, cur * 1.2, PassFrom(s, asSet, pool, limit, cur, o, 0));
    }
  }

  lemma KeptIdsDistinct(s: Settings, pool: seq<Candidate>)
    requires NonNegative(pool, s.dist) && forall i, j :: 0 <= i < j < |pool| ==> pool[i].id != pool[j].id
    ensures Distinct(Ids(KeptOf(s, pool)))
  {
    hide Occlude, Occludes, Greedy;
    OccludeInPool(s, pool);
    var last := OccludeCovers(s, false, pool);
    var kept, ids := Occlude(s, false, pool).kept, Ids(KeptOf(s, pool));
    forall i, j | 0 <= i < j < |ids|
      ensures ids[i] != ids[j]
    {
      assert ids[i] == pool[kept[i]].id && ids[j] == pool[kept[j]].id && kept[i] != kept[j];
    }
  }

  /** The list variant lists the kept entries as they were kept. What it leaves out is covered, unless it filled the
      list. */
  lemma KeptCovers(s: Settings, pool: seq<Candidate>) returns (kept: seq<nat>, last: real)
    requires NonNegative(pool, s.dist)
    ensures var r := KeptOf(s, pool);
            && |r| == |kept| <= s.range && Covers(s, pool, kept, |r| >= s.range, last)
            && forall i :: 0 <= i < |r| ==> kept[i] < |pool| && r[i] == pool[kept[i]]
    ensures var r := KeptOf(s, pool);
            1.0 <= s.alpha && |pool| <= s.maxc && |r| < s.range ==>
              && 1.0 <= last <= s.alpha < last * 1.2
              && forall t :: 0 <= t < |pool| ==>
                   pool[t] in r || exists p :: 0 <= p < t && pool[p] in r && Occludes(pool, s.dist, p, t, last)
  {
    hide Occlude, Occludes, Covers;
    OccludeInPool(s, pool);
    last := OccludeCovers(s, false, pool);
    kept := Occlude(s, false, pool).kept;
    if 1.0 <= s.alpha && |pool| <= s.maxc && |KeptOf(s, pool)| < s.range {
      KeptCoversFrom(s, pool, kept, KeptOf(s, pool), last);
    }
  }

  lemma KeptCoversFrom(s: Settings, pool: seq<Candidate>, kept: seq<nat>, r: seq<Candidate>, last: real)
    requires Covers(s, pool, kept, |kept| >= s.range, last) && |r| == |kept| < s.range && 1.0 <= s.alpha
    requires |pool| <= s.maxc
    requires forall i :: 0 <= i < |kept| ==> kept[i] < |pool| && r[i] == pool[kept[i]]
    ensures 1.0 <= last <= s.alpha < last * 1.2
    ensures forall t :: 0 <= t < |pool| ==>
              pool[t] in r || exists p :: 0 <= p < t && pool[p] in r && Occludes(pool, s.dist, p, t, last)
  {
    hide Occludes, Greedy;
    forall p | p in kept
      ensures p < |pool| && pool[p] in r
    {
      var i :| 0 <= i < |kept| && kept[i] == p;
      assert r[i] == pool[p];
    }
    forall t | 0 <= t < |pool| && pool[t] !in r
      ensures exists p :: 0 <= p < t && pool[p] in r && Occludes(pool, s.dist, p, t, last)
    {
      assert t !in kept;
      var p :| p in kept && p < t && Occludes(pool, s.dist, p, t, last);
    }
  }

  // ----- pruned lists -----

  function Ids(result: seq<Candidate>): (r: seq<nat>)
    ensures |r| == |result| && forall i :: 0 <= i < |r| ==> r[i] == result[i].id
  {
    seq(|result|, i requires 0 <= i < |result| => result[i].id)
  }

  lemma IdOf(r: seq<Candidate>, c: Candidate)
    requires c in r
    ensures c.id in Ids(r)
  {
    var k :| 0 <= k < |r| && r[k] == c;
    assert Ids(r)[k] == c.id;
  }

  /** Fill the list up from the pool in order. */
  function TopUp(ids: seq<nat>, pool: seq<Candidate>, range: nat, i: nat): (r: seq<nat>)
    ensures ids <= r
    decreases |pool| - i
  {
    if i >= |pool| || |ids| >= range then ids
    else TopUp(if pool[i].id in ids then ids else ids + [pool[i].id], pool, range, i + 1)
  }

  /** The pruned neighbour ids of a pool: the occlusion's, and with alpha > 1 topped up from the pool. */
  function Pruned(s: Settings, pool: seq<Candidate>): (r: seq<nat>) {
    if pool == [] then []
    else
      var ids := Ids(Occlude(s, true, pool).result);
      if s.alpha > 1.0 then TopUp(ids, pool, s.range, 0) else ids
  }

  /** The loop that tops a list up. */
  method FillUp(s: Settings, pool: seq<Candidate>, ids: seq<nat>) returns (filled: seq<nat>)
    ensures filled == TopUp(ids, pool, s.range, 0)
  {
    filled := ids;
    var i := 0;
    while i < |pool| && |filled| < s.range
      invariant 0 <= i <= |pool| && TopUp(ids, pool, s.range, 0) == TopUp(filled, pool, s.range, i)
    {
      if pool[i].id !in filled {
        filled := filled + [pool[i].id];
      }
      i := i + 1;
    }
  }

  /** prune_neighbors_pq. */
  method PruneNeighborsPq(s: Settings, pool: seq<Candidate>) returns (pruned: seq<nat>)
    ensures pruned == Pruned(s, pool)
  {
    if |pool| == 0 {
      return [];
    }
    hide Occlude;
    var result := OccludeListPq(s, pool);
    pruned := Ids(result);
    if s.alpha > 1.0 {
      pruned := FillUp(s, pool, pruned);
    }
  }

  ghost predicate FromPool(ids: seq<nat>, pool: seq<Candidate>) {
    forall i :: 0 <= i < |ids| ==> HasId(pool, ids[i])
  }

  ghost predicate HasId(pool: seq<Candidate>, x: nat) {
    exists k :: 0 <= k < |pool| && pool[k].id == x
  }

  lemma FromPoolMore(ids: seq<nat>, pool: seq<Candidate>, i: nat)
    requires FromPool(ids, pool) && i < |pool|
    ensures FromPool(ids + [pool[i].id], pool)
  {
  }

  lemma {:induction false} TopUpKeeps(ids: seq<nat>, pool: seq<Candidate>, range: nat, i: nat)
    requires |ids| <= range && FromPool(ids, pool) && i <= |pool| && forall k :: 0 <= k < i ==> pool[k].id in ids
    ensures var r := TopUp(ids, pool, range, i);
            && |r| <= range && FromPool(r, pool) && (Distinct(ids) ==> Distinct(r))
            && (|r| < range ==> forall k :: 0 <= k < |pool| ==> pool[k].id in r)
    decreases |pool| - i
  {
    hide FromPool;
    if i < |pool| && |ids| < range {
      var more := if pool[i].id in ids then ids else ids + [pool[i].id];
      FromPoolMore(ids, pool, i);
      TopUpKeeps(more, pool, range, i + 1);
    }
  }

  /** Equal ids in the pool are at equal distances. */
  ghost predicate Consistent(pool: seq<Candidate>) {
    forall i, j :: 0 <= i < j < |pool| && pool[i].id == pool[j].id ==> pool[i].distance == pool[j].distance
  }

  lemma IdsFromPool(pool: seq<Candidate>, result: seq<Candidate>)
    requires forall c :: c in result ==> c in pool
    ensures FromPool(Ids(result), pool)
  {
    forall i | 0 <= i < |result|
      ensures HasId(pool, Ids(result)[i])
    {
      assert result[i] in pool;
      var k :| 0 <= k < |pool| && pool[k] == result[i];
      assert pool[k].id == Ids(result)[i];
    }
  }

  /** The pruned list holds at most `range` distinct ids of the pool; with alpha > 1 it is shorter only if all are in
      it. */
  lemma PrunedFacts(s: Settings, pool: seq<Candidate>)
    requires NonNegative(pool, s.dist)
    ensures var r := Pruned(s, pool);
            && |r| <= s.range && FromPool(r, pool) && (Consistent(pool) ==> Distinct(r))
            && (s.alpha > 1.0 && |r| < s.range ==> forall k :: 0 <= k < |pool| ==> pool[k].id in r)
  {
    if pool != [] {
      var last := OccludeCovers(s, true, pool);
      hide Occlude, Covers;
      var result := Occlude(s, true, pool).result;
      var ids := Ids(result);
      IdsFromPool(pool, result);
      if Consistent(pool) {
        SortedIdsDistinct(pool, result, ids);
      }
      TopUpKeeps(ids, pool, s.range, 0);
    }
  }

  /** x is not in the list, and no candidate that is not in the list is nearer. */
  ghost predicate NextNearest(pool: seq<Candidate>, list: seq<nat>, x: nat) {
    x !in list && exists c :: c in pool && c.id == x && NoneNearer(pool, list, c)
  }

  ghost predicate NoneNearer(pool: seq<Candidate>, list: seq<nat>, c: Candidate) {
    forall d :: d in pool && d.id !in list ==> !Less(d, c)
  }

  /** From entry n on, each entry is the nearest candidate that the list did not have before it. */
  ghost predicate TailNearest(pool: seq<Candidate>, list: seq<nat>, n: nat) {
    n <= |list| && forall j :: n <= j < |list| ==> NextNearest(pool, list[..j], list[j])
  }

  /** Topping up takes the nearest candidate that is missing, again and again. */
  lemma {:induction false} TopUpTail(ids: seq<nat>, pool: seq<Candidate>, range: nat, i: nat)
    requires SortedPool(pool) && i <= |pool| && forall k :: 0 <= k < i ==> pool[k].id in ids
    ensures TailNearest(pool, TopUp(ids, pool, range, i), |ids|)
    decreases |pool| - i
  {
    hide NextNearest;
    if i < |pool| && |ids| < range {
      var x := pool[i].id;
      if x in ids {
        TopUpTail(ids, pool, range, i + 1);
      } else {
        TopUpTail(ids + [x], pool, range, i + 1);
        var r := TopUp(ids, pool, range, i);
        assert ids + [x] <= r;
        assert r[..|ids|] == ids && r[|ids|] == x;
        FirstMissing(ids, pool, i);
      }
    }
  }

  lemma FirstMissing(ids: seq<nat>, pool: seq<Candidate>, i: nat)
    requires SortedPool(pool) && i < |pool| && pool[i].id !in ids && forall k :: 0 <= k < i ==> pool[k].id in ids
    ensures NextNearest(pool, ids, pool[i].id)
  {
    forall d | d in pool && d.id !in ids
      ensures !Less(d, pool[i])
    {
      var k :| 0 <= k < |pool| && pool[k] == d;
      assert i <= k;
    }
    assert NoneNearer(pool, ids, pool[i]);
  }

  ghost predicate KeptId(pool: seq<Candidate>, kept: seq<nat>, x: nat) {
    exists k :: k in kept && k < |pool| && pool[k].id == x
  }

  ghost predicate KeptCand(pool: seq<Candidate>, kept: seq<nat>, c: Candidate) {
    exists k :: k in kept && k < |pool| && pool[k] == c
  }

  /** The kept candidates, nearest first. */
  ghost predicate HeadOf(pool: seq<Candidate>, kept: seq<nat>, head: seq<Candidate>) {
    Sorted(head) && forall c :: c in head <==> KeptCand(pool, kept, c)
  }

  /** The pruned list begins with the ids that the occlusion kept, nearest first, so what it leaves out is covered:
      unless the occlusion filled the list, every candidate within the limit is kept or occluded by a nearer kept one.
      With alpha > 1 it goes on with the nearest candidates that are missing. */
  ghost predicate Diversified(s: Settings, pool: seq<Candidate>, pruned: seq<nat>, kept: seq<nat>, n: nat, last: real) {
    && n <= |pruned| && Covers(s, pool, kept, n >= s.range, last)
    && (forall k :: k in kept ==> k < |pool| && pool[k].id in pruned[..n])
    && (forall i :: 0 <= i < n ==> KeptId(pool, kept, pruned[i]))
    && (exists head :: HeadOf(pool, kept, head) && Ids(head) == pruned[..n])
    && (SortedPool(pool) ==> TailNearest(pool, pruned, n)) && (s.alpha <= 1.0 ==> n == |pruned|)
  }

  lemma DiversifiedAt(s: Settings, pool: seq<Candidate>, pruned: seq<nat>, kept: seq<nat>, n: nat, last: real, t: nat)
    requires Diversified(s, pool, pruned, kept, n, last) && n < s.range && 1.0 <= s.alpha && t < Limit(pool, s.maxc)
    ensures n <= |pruned|
    ensures pool[t].id in pruned[..n]
            || exists p :: 0 <= p < t && pool[p].id in pruned[..n] && Occludes(pool, s.dist, p, t, last)
  {
    hide Occludes;
  }

  lemma PrunedDiversified(s: Settings, pool: seq<Candidate>) returns (kept: seq<nat>, n: nat, last: real)
    requires NonNegative(pool, s.dist)
    ensures Diversified(s, pool, Pruned(s, pool), kept, n, last)
  {
    hide Covers, Occlude, Ids, TopUp, Diversified, TailNearest, SortedPool, HeadOf;
    last := OccludeCovers(s, true, pool);
    var o := Occlude(s, true, pool);
    kept, n := o.kept, |o.result|;
    PrunedPrefix(s, pool, o);
    KeptIds(pool, o.result, kept);
    HeadIs(pool, o.result, kept);
    if SortedPool(pool) {
      PrunedTail(s, pool, o);
    }
    DiversifiedFrom(s, pool, o.result, Pruned(s, pool), kept, last);
  }

  lemma PrunedPrefix(s: Settings, pool: seq<Candidate>, o: Occlusion)
    requires o == Occlude(s, true, pool)
    requires forall c :: c in o.result ==> exists k :: k in o.kept && k < |pool| && pool[k] == c
    ensures Ids(o.result) <= Pruned(s, pool) && (s.alpha <= 1.0 ==> Ids(o.result) == Pruned(s, pool))
  {
    hide Occlude;
    if o.result != [] {
      assert o.result[0] in o.result;
      assert pool != [];
    }
  }

  lemma PrunedTail(s: Settings, pool: seq<Candidate>, o: Occlusion)
    requires o == Occlude(s, true, pool) && SortedPool(pool)
    requires forall c :: c in o.result ==> exists k :: k in o.kept && k < |pool| && pool[k] == c
    ensures TailNearest(pool, Pruned(s, pool), |o.result|)
  {
    hide Occlude, NextNearest, SortedPool;
    if o.result != [] {
      assert o.result[0] in o.result;
      assert pool != [];
    }
    if pool != [] && s.alpha > 1.0 {
      TopUpTail(Ids(o.result), pool, s.range, 0);
    }
  }

  lemma HeadIs(pool: seq<Candidate>, result: seq<Candidate>, kept: seq<nat>)
    requires Sorted(result) && forall k :: k in kept ==> k < |pool| && pool[k] in result
    requires forall c :: c in result ==> exists k :: k in kept && k < |pool| && pool[k] == c
    ensures HeadOf(pool, kept, result)
  {
  }

  lemma DiversifiedFrom(s: Settings, pool: seq<Candidate>, result: seq<Candidate>, pruned: seq<nat>, kept: seq<nat>,
                        last: real)
    requires Ids(result) <= pruned && Covers(s, pool, kept, |result| >= s.range, last)
    requires forall k :: k in kept ==> k < |pool| && pool[k].id in Ids(result)
    requires forall i :: 0 <= i < |result| ==> KeptId(pool, kept, Ids(result)[i])
    requires HeadOf(pool, kept, result) && (SortedPool(pool) ==> TailNearest(pool, pruned, |result|))
    requires s.alpha <= 1.0 ==> Ids(result) == pruned
    ensures Diversified(s, pool, pruned, kept, |result|, last)
  {
    hide Covers, HeadOf, TailNearest, SortedPool;
    assert pruned[..|result|] == Ids(result);
    assert forall i :: 0 <= i < |result| ==> pruned[i] == Ids(result)[i];
  }

  /** A neighbour y of `id` makes x redundant at `a`: y is nearer, and x is more than `a` times closer to y than to
      `id`. */
  ghost predicate Shadows(ps: Settings, id: nat, x: nat, y: nat, a: real) {
    ps.dist(id, y) <= ps.dist(id, x) && ps.dist(id, x) > a * ps.dist(y, x)
  }

  ghost predicate Shadowed(ps: Settings, id: nat, x: nat, list: seq<nat>, a: real) {
    exists y :: y in list && Shadows(ps, id, x, y, a)
  }

  /** x is one of the ids, not in the list, and no other such id is nearer to `id`. */
  ghost predicate NextOf(ps: Settings, id: nat, ids: set<nat>, list: seq<nat>, x: nat) {
    && x in ids && x !in list
    && forall y :: y in ids && y !in list ==> !Less(Candidate(y, ps.dist(id, y)), Candidate(x, ps.dist(id, x)))
  }

  /** The first n entries of the list go from near to far; behind them each entry is the nearest id that the list did
      not have before it. */
  ghost predicate NearFirst(ps: Settings, id: nat, ids: set<nat>, list: seq<nat>, n: nat) {
    && n <= |list|
    && (forall i, j :: 0 <= i < j < n ==>
          Less(Candidate(list[i], ps.dist(id, list[i])), Candidate(list[j], ps.dist(id, list[j]))))
    && forall j :: n <= j < |list| ==> NextOf(ps, id, ids, list[..j], list[j])
  }

  ghost predicate CandidatesOf(ps: Settings, id: nat, ids: set<nat>, pool: seq<Candidate>) {
    forall c :: c in pool <==> c.id in ids && c.distance == ps.dist(id, c.id)
  }

  lemma DiversifiedNear(ps: Settings, id: nat, ids: set<nat>, pool: seq<Candidate>, pruned: seq<nat>, kept: seq<nat>,
                        n: nat, last: real)
    requires Diversified(ps, pool, pruned, kept, n, last) && SortedPool(pool) && CandidatesOf(ps, id, ids, pool)
    ensures n <= |pruned| && NearFirst(ps, id, ids, pruned, n) && (ps.alpha <= 1.0 ==> n == |pruned|)
  {
    hide Covers, NextNearest, NextOf;
    var head: seq<Candidate> :| HeadOf(pool, kept, head) && Ids(head) == pruned[..n];
    forall i | 0 <= i < n
      ensures head[i] == Candidate(pruned[i], ps.dist(id, pruned[i]))
    {
      assert head[i] in head && head[i].id == pruned[..n][i];
      assert KeptCand(pool, kept, head[i]);
      assert head[i] in pool;
    }
    assert forall i, j :: 0 <= i < j < n ==> Less(head[i], head[j]);
    forall j | n <= j < |pruned|
      ensures NextOf(ps, id, ids, pruned[..j], pruned[j])
    {
      assert NextNearest(pool, pruned[..j], pruned[j]);
      NextIds(ps, id, ids, pool, pruned[..j], pruned[j]);
    }
  }

  lemma NextIds(ps: Settings, id: nat, ids: set<nat>, pool: seq<Candidate>, list: seq<nat>, x: nat)
    requires NextNearest(pool, list, x) && CandidatesOf(ps, id, ids, pool)
    ensures NextOf(ps, id, ids, list, x)
  {
    var c :| c in pool && c.id == x && NoneNearer(pool, list, c);
    forall y | y in ids && y !in list
      ensures !Less(Candidate(y, ps.dist(id, y)), c)
    {
      assert Candidate(y, ps.dist(id, y)) in pool;
    }
  }

  /** Nearer pool entries that occlude do shadow. */
  lemma OccludesShadows(ps: Settings, id: nat, pool: seq<Candidate>, p: nat, t: nat, a: real)
    requires SortedPool(pool) && p < t < |pool| && Occludes(pool, ps.dist, p, t, a)
    requires forall k :: 0 <= k < |pool| ==> pool[k].distance == ps.dist(id, pool[k].id)
    ensures Shadows(ps, id, pool[t].id, pool[p].id, a)
  {
    assert !Less(pool[t], pool[p]);
  }

  lemma CoveredLast(ps: Settings, pool: seq<Candidate>, pruned: seq<nat>, kept: seq<nat>, n: nat, last: real)
    requires Diversified(ps, pool, pruned, kept, n, last) && n < ps.range && 1.0 <= ps.alpha
    ensures 1.0 <= last <= ps.alpha < last * 1.2
  {
    hide Greedy, Occludes;
  }

  lemma PoolShadow(ps: Settings, id: nat, pool: seq<Candidate>, after: seq<nat>, kept: seq<nat>, n: nat, last: real,
                   x: nat)
    requires Diversified(ps, pool, after, kept, n, last) && n < ps.range && 1.0 <= ps.alpha && |pool| <= ps.maxc
    requires SortedPool(pool) && forall k :: 0 <= k < |pool| ==> pool[k].distance == ps.dist(id, pool[k].id)
    requires Candidate(x, ps.dist(id, x)) in pool
    ensures x in after[..n] || Shadowed(ps, id, x, after[..n], last)
  {
    hide Diversified, Occludes, Shadows, SortedPool;
    var t :| 0 <= t < |pool| && pool[t] == Candidate(x, ps.dist(id, x));
    DiversifiedAt(ps, pool, after, kept, n, last, t);
    if x !in after[..n] {
      var p :| 0 <= p < t && pool[p].id in after[..n] && Occludes(pool, ps.dist, p, t, last);
      OccludesShadows(ps, id, pool, p, t, last);
    }
  }

  lemma KeptIds(pool: seq<Candidate>, result: seq<Candidate>, kept: seq<nat>)
    requires forall k :: k in kept ==> k < |pool| && pool[k] in result
    requires forall c :: c in result ==> exists k :: k in kept && k < |pool| && pool[k] == c
    ensures forall k :: k in kept ==> pool[k].id in Ids(result)
    ensures forall i :: 0 <= i < |result| ==> KeptId(pool, kept, Ids(result)[i])
  {
    forall k | k in kept
      ensures pool[k].id in Ids(result)
    {
      var i :| 0 <= i < |result| && result[i] == pool[k];
      assert Ids(result)[i] == pool[k].id;
    }
    forall i | 0 <= i < |result|
      ensures KeptId(pool, kept, Ids(result)[i])
    {
      assert result[i] in result;
      var k :| k in kept && k < |pool| && pool[k] == result[i];
      assert pool[k].id == Ids(result)[i];
    }
  }

  lemma SortedIdsDistinct(pool: seq<Candidate>, result: seq<Candidate>, ids: seq<nat>)
    requires Sorted(result) && |ids| == |result| && forall i :: 0 <= i < |ids| ==> ids[i] == result[i].id
    requires forall c :: c in result ==> c in pool
    requires Consistent(pool)
    ensures Distinct(ids)
  {
    forall i, j | 0 <= i < j < |ids|
      ensures ids[i] != ids[j]
    {
      assert Less(result[i], result[j]) && result[i] in result && result[j] in result;
    }
  }

  /** The list variant keeps at most `range` entries of the pool, each at a different position. */
  lemma KeptIsFrom(s: Settings, pool: seq<Candidate>)
    ensures |KeptOf(s, pool)| <= s.range && forall i :: 0 <= i < |KeptOf(s, pool)| ==> KeptOf(s, pool)[i] in pool
  {
    hide Occlude;
    OccludeInPool(s, pool);
  }

  // ----- the neighbours of a new point -----

  /** The ids without the entry point where it comes late. */
  function KeepEarly(ids: seq<nat>, medoid: nat, threshold: nat): (r: seq<nat>)
    ensures |r| <= |ids| && (forall x :: x in r ==> x in ids) && (forall x :: x in ids && x != medoid ==> x in r)
  {
    if ids == [] then []
    else
      var r, x := KeepEarly(ids[..|ids| - 1], medoid, threshold), ids[|ids| - 1];
      assert forall y :: y in ids <==> y in ids[..|ids| - 1] || y == x;
      if |ids| - 1 > threshold && x == medoid then r else r + [x]
  }

  lemma {:induction false} KeepEarlyDistinct(ids: seq<nat>, medoid: nat, threshold: nat)
    requires Distinct(ids)
    ensures Distinct(KeepEarly(ids, medoid, threshold))
  {
    if ids != [] {
      assert ids[|ids| - 1] !in ids[..|ids| - 1];
      KeepEarlyDistinct(ids[..|ids| - 1], medoid, threshold);
    }
  }

  /** The ids, without x if it comes at position `from` or later. */
  ghost predicate WithoutLate(ids: seq<nat>, x: nat, from: nat, r: seq<nat>) {
    || (r == ids && forall k :: from <= k < |ids| ==> ids[k] != x)
    || (exists k :: from <= k < |ids| && ids[k] == x && r == ids[..k] + ids[k + 1..])
  }

  lemma {:induction false} KeepEarlyIs(ids: seq<nat>, medoid: nat, threshold: nat)
    requires Distinct(ids)
    ensures WithoutLate(ids, medoid, threshold + 1, KeepEarly(ids, medoid, threshold))
  {
    if ids != [] {
      var n := |ids| - 1;
      KeepEarlyIs(ids[..n], medoid, threshold);
      if n > threshold && ids[n] == medoid {
        assert ids[..n] + ids[n + 1..] == ids[..n];
      } else {
        LateSnoc(ids, medoid, threshold + 1, KeepEarly(ids[..n], medoid, threshold));
      }
    }
  }

  lemma LateSnoc(ids: seq<nat>, x: nat, from: nat, r: seq<nat>)
    requires ids != [] && WithoutLate(ids[..|ids| - 1], x, from, r)
    requires |ids| - 1 < from || ids[|ids| - 1] != x
    ensures WithoutLate(ids, x, from, r + [ids[|ids| - 1]])
  {
    var n := |ids| - 1;
    var t := ids[..n];
    if r == t && forall k :: from <= k < n ==> t[k] != x {
      assert ids == t + [ids[n]];
    } else {
      var k :| from <= k < n && t[k] == x && r == t[..k] + t[k + 1..];
      assert ids[k + 1..] == t[k + 1..] + [ids[n]] && ids[..k] == t[..k];
    }
  }

  /** The neighbours of a new point out of the candidates a search found: the occlusion's, where the entry point is
      dropped from the last quarter, and with alpha > 1 topped up from the pool. */
  function Chosen(s: Settings, medoid: nat, found: seq<Candidate>): (r: seq<nat>) {
    if found == [] then []
    else
      var pool := SortPool(found);
      var result := Occlude(s, true, pool).result;
      var ids := KeepEarly(Ids(result), medoid, |result| * 3 / 4);
      if s.alpha > 1.0 then TopUp(ids, pool, s.range, 0) else ids
  }

  /** prune_neighbors of the disk index. */
  method ChooseNeighbors(s: Settings, medoid: nat, found: seq<Candidate>) returns (chosen: seq<nat>)
    ensures chosen == Chosen(s, medoid, found)
  {
    if |found| == 0 {
      return [];
    }
    hide Occlude, SortPool;
    var pool := SortPool(found);
    var result := OccludeListPq(s, pool);
    var threshold := |result| * 3 / 4;
    chosen := [];
    for i := 0 to |result|
      invariant chosen == KeepEarly(Ids(result)[..i], medoid, threshold)
    {
      assert Ids(result)[..i + 1][..i] == Ids(result)[..i];
      if i <= threshold || result[i].id != medoid {
        chosen := chosen + [result[i].id];
      }
    }
    assert Ids(result)[..|result|] == Ids(result);
    if s.alpha > 1.0 {
      chosen := FillUp(s, pool, chosen);
    }
  }

  /** At most `range` distinct ids of the candidates; with alpha > 1 fewer only if all are chosen. */
  lemma ChosenFacts(s: Settings, medoid: nat, found: seq<Candidate>)
    requires NonNegative(found, s.dist) && Consistent(found)
    ensures var r := Chosen(s, medoid, found);
            && |r| <= s.range && FromPool(r, found) && Distinct(r)
            && (s.alpha > 1.0 && |r| < s.range ==> forall k :: 0 <= k < |found| ==> found[k].id in r)
  {
    if found != [] {
      hide Occlude, Covers, SortPool;
      var pool := SortPool(found);
      SortedFacts(s, found, pool);
      var last := OccludeCovers(s, true, pool);
      var result := Occlude(s, true, pool).result;
      var ids := KeepEarly(Ids(result), medoid, |result| * 3 / 4);
      IdsFromPool(pool, result);
      SortedIdsDistinct(pool, result, Ids(result));
      KeepEarlyDistinct(Ids(result), medoid, |result| * 3 / 4);
      FromPoolSubset(ids, Ids(result), pool);
      TopUpKeeps(ids, pool, s.range, 0);
      SamePool(Chosen(s, medoid, found), pool, found);
    }
  }

  lemma SortedFacts(s: Settings, found: seq<Candidate>, pool: seq<Candidate>)
    requires NonNegative(found, s.dist) && Consistent(found) && forall c :: c in pool <==> c in found
    ensures NonNegative(pool, s.dist) && Consistent(pool)
  {
    forall k | 0 <= k < |pool|
      ensures exists j :: 0 <= j < |found| && found[j] == pool[k]
    {
      assert pool[k] in found;
    }
  }

  lemma FromPoolSubset(ids: seq<nat>, all: seq<nat>, pool: seq<Candidate>)
    requires FromPool(all, pool) && forall x :: x in ids ==> x in all
    ensures FromPool(ids, pool)
  {
    hide HasId;
    forall i | 0 <= i < |ids|
      ensures HasId(pool, ids[i])
    {
      assert ids[i] in all;
    }
  }

  lemma SamePool(ids: seq<nat>, pool: seq<Candidate>, found: seq<Candidate>)
    requires forall c :: c in pool <==> c in found
    ensures FromPool(ids, pool) ==> FromPool(ids, found)
    ensures (forall k :: 0 <= k < |pool| ==> pool[k].id in ids) ==> forall k :: 0 <= k < |found| ==> found[k].id in ids
  {
    if FromPool(ids, pool) {
      forall i | 0 <= i < |ids|
        ensures HasId(found, ids[i])
      {
        assert HasId(pool, ids[i]);
        var k :| 0 <= k < |pool| && pool[k].id == ids[i];
        assert pool[k] in found;
        var j :| 0 <= j < |found| && found[j] == pool[k];
      }
    }
    if forall k :: 0 <= k < |pool| ==> pool[k].id in ids {
      forall k | 0 <= k < |found|
        ensures found[k].id in ids
      {
        assert found[k] in pool;
      }
    }
  }

  /** The list of a new point begins with what the occlusion kept, nearest first, without the entry point if that comes
      in the last quarter; so every candidate left out is covered, at worst by the dropped entry point. With alpha > 1
      it goes on with the nearest candidates that are missing. */
  lemma ChosenCovers(s: Settings, medoid: nat, found: seq<Candidate>)
    returns (kept: seq<nat>, head: seq<Candidate>, n: nat, last: real)
    requires NonNegative(found, s.dist) && Consistent(found)
    ensures Covers(s, SortPool(found), kept, |head| >= s.range, last) && HeadOf(SortPool(found), kept, head)
    ensures var r := Chosen(s, medoid, found);
            && n <= |r| && WithoutLate(Ids(head), medoid, |head| * 3 / 4 + 1, r[..n])
            && TailNearest(found, r, n) && (s.alpha <= 1.0 ==> n == |r|)
  {
    hide Covers, Occlude, SortPool, KeepEarly, TopUp, WithoutLate, TailNearest, Consistent, HeadOf;
    var pool := SortPool(found);
    SortedFacts(s, found, pool);
    last := OccludeCovers(s, true, pool);
    var o := Occlude(s, true, pool);
    kept, head := o.kept, o.result;
    HeadIs(pool, head, kept);
    var ids := KeepEarly(Ids(head), medoid, |head| * 3 / 4);
    SortedIdsDistinct(pool, head, Ids(head));
    KeepEarlyIs(Ids(head), medoid, |head| * 3 / 4);
    n := |ids|;
    var r := Chosen(s, medoid, found);
    SortedNone(pool, head, kept);
    KeepNone(medoid, |head| * 3 / 4);
    ChosenPrefix(s, pool, medoid, found, ids, r);
    assert r[..n] == ids;
    SameTail(pool, found, r, n);
  }

  lemma SortedNone(pool: seq<Candidate>, head: seq<Candidate>, kept: seq<nat>)
    requires forall c :: c in head ==> exists k :: k in kept && k < |pool| && pool[k] == c
    ensures head == [] || pool != []
  {
    if head != [] {
      assert head[0] in head;
    }
  }

  lemma KeepNone(medoid: nat, threshold: nat)
    ensures KeepEarly([], medoid, threshold) == [] == Ids([])
  {
  }

  lemma ChosenPrefix(s: Settings, pool: seq<Candidate>, medoid: nat, found: seq<Candidate>, ids: seq<nat>, r: seq<nat>)
    requires SortedPool(pool) && (found == [] ==> ids == [] && r == [])
    requires found != [] ==> r == if s.alpha > 1.0 then TopUp(ids, pool, s.range, 0) else ids
    ensures ids <= r && TailNearest(pool, r, |ids|) && (s.alpha <= 1.0 ==> ids == r)
  {
    hide NextNearest, SortedPool;
    if found != [] && s.alpha > 1.0 {
      TopUpTail(ids, pool, s.range, 0);
    }
  }

  lemma SameTail(pool: seq<Candidate>, found: seq<Candidate>, r: seq<nat>, n: nat)
    requires TailNearest(pool, r, n) && forall c :: c in pool <==> c in found
    ensures TailNearest(found, r, n)
  {
    forall j | n <= j < |r|
      ensures NextNearest(found, r[..j], r[j])
    {
      assert NextNearest(pool, r[..j], r[j]);
      var c :| c in pool && c.id == r[j] && NoneNearer(pool, r[..j], c);
      assert c in found && NoneNearer(found, r[..j], c);
    }
  }

  // ----- sorting the pool -----

  ghost predicate SortedPool(s: seq<Candidate>) {
    forall i, j :: 0 <= i < j < |s| ==> !Less(s[j], s[i])
  }

  /** std::sort of the pool. */
  function SortPool(pool: seq<Candidate>): (r: seq<Candidate>)
    ensures SortedPool(r) && |r| == |pool| && forall x :: x in r <==> x in pool
  {
    if pool == [] then [] else Place(SortPool(pool[1..]), pool[0])
  }

  function Place(s: seq<Candidate>, c: Candidate): (r: seq<Candidate>)
    requires SortedPool(s)
    ensures SortedPool(r) && |r| == |s| + 1 && forall x :: x in r <==> x in s || x == c
  {
    if s == [] || !Less(s[0], c) then
      [c] + s
    else
      var t := Place(s[1..], c);
      assert forall x :: x in t ==> !Less(x, s[0]);
      [s[0]] + t
  }

  // ----- the pool of a set of ids -----

  /** The candidates as a pool, nearest first. */
  ghost predicate PoolFor(cands: set<nat>, i: nat, dist: Distance, p: seq<Candidate>) {
    Sorted(p) && forall c :: c in p <==> c.id in cands && c.distance == dist(i, c.id)
  }

  /** Two strictly sorted sequences with the same elements are equal. */
  lemma {:induction false} SortedUnique(p: seq<Candidate>, q: seq<Candidate>)
    requires Sorted(p) && Sorted(q) && forall c :: c in p <==> c in q
    ensures p == q
  {
    assert q != [] ==> q[0] in p;
    if p != [] {
      assert p[0] in q && q != [];
      assert q[0] in p;
      assert p[0] == q[0];
      forall c
        ensures c in p[1..] <==> c in q[1..]
      {
        TailMembers(p, c);
        TailMembers(q, c);
      }
      SortedUnique(p[1..], q[1..]);
      assert p == [p[0]] + p[1..] && q == [q[0]] + q[1..];
    }
  }

  lemma TailMembers(p: seq<Candidate>, c: Candidate)
    requires Sorted(p) && p != []
    ensures c in p[1..] <==> c in p && c != p[0]
  {
    if c in p && c != p[0] {
      var i :| 0 <= i < |p| && p[i] == c;
      assert p[1..][i - 1] == c;
    }
    if c in p[1..] {
      var i :| 0 <= i < |p[1..]| && p[1..][i] == c;
      assert Less(p[0], p[i + 1]);
    }
  }

  lemma PoolForHas(cands: set<nat>, id: nat, dist: Distance, pool: seq<Candidate>, x: nat)
    requires PoolFor(cands, id, dist, pool) && x in cands
    ensures Candidate(x, dist(id, x)) in pool
  {
  }

  lemma PoolForSize(cands: set<nat>, id: nat, dist: Distance, pool: seq<Candidate>)
    requires PoolFor(cands, id, dist, pool)
    ensures |pool| == |cands|
  {
    var ids := Ids(pool);
    forall i, j | 0 <= i < j < |ids|
      ensures ids[i] != ids[j]
    {
      assert pool[i] in pool && pool[j] in pool;
    }
    forall x
      ensures x in Members(ids) <==> x in cands
    {
      if x in cands {
        PoolForHas(cands, id, dist, pool, x);
        var i :| 0 <= i < |pool| && pool[i] == Candidate(x, dist(id, x));
        assert ids[i] == x;
      }
      if x in ids {
        var i :| 0 <= i < |ids| && ids[i] == x;
        assert pool[i] in pool;
      }
    }
    MembersCard(ids);
    assert Members(ids) == cands;
  }

  /** A set's pool is a proper input of the occlusion. */
  lemma PoolForUse(cands: set<nat>, id: nat, dist: Distance, pool: seq<Candidate>)
    requires PoolFor(cands, id, dist, pool) && forall a, b :: 0.0 <= dist(a, b)
    ensures NonNegative(pool, dist) && SortedPool(pool) && Consistent(pool)
    ensures forall k :: 0 <= k < |pool| ==> pool[k].id in cands && pool[k].distance == dist(id, pool[k].id)
    ensures forall i, j :: 0 <= i < j < |pool| ==> pool[i].id != pool[j].id
  {
    assert forall k :: 0 <= k < |pool| ==> pool[k] in pool;
  }

  lemma {:induction false} PlaceStrict(s: seq<Candidate>, c: Candidate)
    requires SortedPool(s) && Sorted(s) && c !in s
    ensures Sorted(Place(s, c))
  {
    if s != [] {
      assert s[0] in s;
      if Less(s[0], c) {
        PlaceStrict(s[1..], c);
        var t := Place(s[1..], c);
        forall i | 0 <= i < |t|
          ensures Less(s[0], t[i])
        {
          assert t[i] in t;
        }
      } else {
        assert Less(c, s[0]);
      }
    }
  }

  /** Sorting distinct candidates gives their pool. */
  lemma {:induction false} SortStrict(pool: seq<Candidate>)
    requires Distinct(pool)
    ensures Sorted(SortPool(pool))
  {
    if pool != [] {
      assert pool[0] !in pool[1..];
      SortStrict(pool[1..]);
      PlaceStrict(SortPool(pool[1..]), pool[0]);
    }
  }
}
