/** The tag index: a disk layer, a memory layer with tombstones, a log that rebuilds the memory layer, and compaction of
    both layers into a new disk layer. */
module TagIndex {
  import opened Wrappers
  import opened WalCodec

  type Ids = set<U32>

  datatype Disk = Disk(tags: map<I32, Ids>, universal: Ids)

  datatype Mem = Mem(tags: map<I32, Ids>, universal: Ids, dead: Ids)

  const Empty: Mem := Mem(map[], {}, {})

  function At(m: map<I32, Ids>, t: I32): Ids {
    if t in m then m[t] else {}
  }

  function AddTags(m: map<I32, Ids>, vid: U32, tags: seq<I32>): (r: map<I32, Ids>)
    ensures forall t :: At(r, t) == At(m, t) + if t in tags then {vid} else {}
  {
    if tags == [] then m
    else
      var p, t := AddTags(m, vid, tags[..|tags| - 1]), tags[|tags| - 1];
      assert forall u :: u in tags <==> u in tags[..|tags| - 1] || u == t;
      p[t := At(p, t) + {vid}]
  }

  /** _apply_insert_to_mem and _apply_remove_to_mem. An insert with the universal tag goes to the universal set only. */
  function Apply(utag: I32, m: Mem, op: Op): (r: Mem) {
    match op
    case Insert(vid, tags) =>
      if utag in tags then Mem(m.tags, m.universal + {vid}, m.dead - {vid})
      else Mem(AddTags(m.tags, vid, tags), m.universal, m.dead - {vid})
    case Remove(vid) => m.(dead := m.dead + {vid})
  }

  function Replay(utag: I32, m: Mem, ops: seq<Op>): (r: Mem) {
    if ops == [] then m else Apply(utag, Replay(utag, m, ops[..|ops| - 1]), ops[|ops| - 1])
  }

  function Both(d: Disk, m: Mem, t: I32): Ids {
    At(d.tags, t) + At(m.tags, t)
  }

  /** query_bitmap. */
  method Query(d: Disk, m: Mem, tags: seq<I32>) returns (r: Ids)
    ensures r == Answer(d, m, tags)
  {
    if tags == [] {
      r := d.universal + m.universal;
      r := r - m.dead;
      return;
    }
    r := {};
    var first := true;
    for i := 0 to |tags|
      invariant first <==> i == 0
      invariant i > 0 ==> forall x: U32 :: x in r <==> HasAll(d, m, tags[..i], x)
    {
      var cur := Both(d, m, tags[i]);
      assert tags[..i + 1] == tags[..i] + [tags[i]];
      if first {
        r, first := cur, false;
      } else {
        r := r * cur;
      }
    }
    assert tags[..|tags|] == tags;
    r := r + (d.universal + m.universal);
    r := r - m.dead;
    assert forall x: U32 :: x in r <==> Found(d, m, tags, x);
  }

  ghost predicate HasAll(d: Disk, m: Mem, tags: seq<I32>, x: U32) {
    forall i :: 0 <= i < |tags| ==> x in Both(d, m, tags[i])
  }

  /** An id answers a query if it is not dead, and is universal or carries every tag of a non-empty list. */
  ghost predicate Found(d: Disk, m: Mem, tags: seq<I32>, x: U32) {
    x !in m.dead && (x in d.universal || x in m.universal || (tags != [] && HasAll(d, m, tags, x)))
  }

  ghost function Answer(d: Disk, m: Mem, tags: seq<I32>): (r: Ids)
    ensures forall x: U32 :: x in r <==> Found(d, m, tags, x)
  {
    var base := d.universal + m.universal + if tags == [] then {} else Both(d, m, tags[0]);
    var r := set x: U32 | x in base && Found(d, m, tags, x);
    assert forall x: U32 :: Found(d, m, tags, x) ==> x in base;
    r
  }

  lemma SameAnswer(d: Disk, m: Mem, d': Disk, m': Mem, tags: seq<I32>)
    requires forall x: U32 :: Found(d, m, tags, x) <==> Found(d', m', tags, x)
    ensures Answer(d, m, tags) == Answer(d', m', tags)
  {
  }

  /** merge: both layers without the dead ids; a tag left without ids is not written. */
  function Compact(d: Disk, m: Mem): (r: Disk)
    ensures r.universal == (d.universal + m.universal) - m.dead
    ensures forall t :: At(r.tags, t) == Both(d, m, t) - m.dead
    ensures forall t :: t in r.tags ==> r.tags[t] != {}
  {
    Disk(map t | t in d.tags.Keys + m.tags.Keys && Both(d, m, t) - m.dead != {} :: Both(d, m, t) - m.dead,
         (d.universal + m.universal) - m.dead)
  }

  // ----- what a history means -----

  /** Some insert of x in the history, one without the universal tag, has tag t. */
  ghost predicate TaggedIn(utag: I32, ops: seq<Op>, x: U32, t: I32) {
    exists i :: 0 <= i < |ops| && GivesTag(utag, ops[i], x, t)
  }

  ghost predicate GivesTag(utag: I32, op: Op, x: U32, t: I32) {
    op.Insert? && op.vid == x && utag !in op.tags && t in op.tags
  }

  /** Some insert of x in the history has the universal tag. */
  ghost predicate MarkedIn(utag: I32, ops: seq<Op>, x: U32) {
    exists i :: 0 <= i < |ops| && Marks(utag, ops[i], x)
  }

  ghost predicate Marks(utag: I32, op: Op, x: U32) {
    op.Insert? && op.vid == x && utag in op.tags
  }

  /** The last operation on x in the history is a removal. */
  ghost predicate RemovedLast(ops: seq<Op>, x: U32) {
    exists i :: 0 <= i < |ops| && ops[i] == Remove(x) && forall j :: i < j < |ops| ==> ops[j].vid != x
  }

  /** One more operation. */
  lemma HistorySnoc(utag: I32, ops: seq<Op>, x: U32, t: I32)
    requires ops != []
    ensures var p, op := ops[..|ops| - 1], ops[|ops| - 1];
            && (TaggedIn(utag, ops, x, t) <==> TaggedIn(utag, p, x, t) || GivesTag(utag, op, x, t))
            && (MarkedIn(utag, ops, x) <==> MarkedIn(utag, p, x) || Marks(utag, op, x))
            && (RemovedLast(ops, x) <==> if op.vid == x then op.Remove? else RemovedLast(p, x))
  {
    hide GivesTag, Marks;
    var n := |ops| - 1;
    var p := ops[..n];
    assert ops == p + [ops[n]];
    if TaggedIn(utag, p, x, t) {
      var i :| 0 <= i < |p| && GivesTag(utag, p[i], x, t);
      assert GivesTag(utag, ops[i], x, t);
    }
    if MarkedIn(utag, p, x) {
      var i :| 0 <= i < |p| && Marks(utag, p[i], x);
      assert Marks(utag, ops[i], x);
    }
    if RemovedLast(p, x) && ops[n].vid != x {
      var i :| 0 <= i < |p| && p[i] == Remove(x) && forall j :: i < j < |p| ==> p[j].vid != x;
      assert ops[i] == Remove(x);
    }
    if RemovedLast(ops, x) {
      var i :| 0 <= i < |ops| && ops[i] == Remove(x) && forall j :: i < j < |ops| ==> ops[j].vid != x;
      assert i < n ==> p[i] == Remove(x);
    }
    if ops[n] == Remove(x) {
      assert RemovedLast(ops, x);
    }
  }

  /** The memory layer after a history: an id has a tag if some insert gave it, is universal if some insert marked it,
      and is dead if the last operation on it was a removal. */
  lemma {:induction false} ReplayIs(utag: I32, ops: seq<Op>, x: U32, t: I32)
    ensures var m := Replay(utag, Empty, ops);
            && (x in At(m.tags, t) <==> TaggedIn(utag, ops, x, t))
            && (x in m.universal <==> MarkedIn(utag, ops, x))
            && (x in m.dead <==> RemovedLast(ops, x))
  {
    hide TaggedIn, MarkedIn, RemovedLast;
    if ops == [] {
      NoHistory(utag, x, t);
    } else {
      ReplayIs(utag, ops[..|ops| - 1], x, t);
      HistorySnoc(utag, ops, x, t);
    }
  }

  lemma NoHistory(utag: I32, x: U32, t: I32)
    ensures !TaggedIn(utag, [], x, t) && !MarkedIn(utag, [], x) && !RemovedLast([], x)
  {
  }

  /** x carries tag t by the index file or by the history since it was loaded. */
  ghost predicate Carries(utag: I32, d: Disk, ops: seq<Op>, x: U32, t: I32) {
    x in At(d.tags, t) || TaggedIn(utag, ops, x, t)
  }

  ghost predicate CarriesAll(utag: I32, d: Disk, ops: seq<Op>, tags: seq<I32>, x: U32) {
    forall i :: 0 <= i < |tags| ==> Carries(utag, d, ops, x, tags[i])
  }

  /** An id answers a query exactly if its last operation is no removal, and it was marked as universal or carries every
      tag of a non-empty list. */
  lemma AnswerIs(utag: I32, d: Disk, ops: seq<Op>, tags: seq<I32>, x: U32)
    ensures x in Answer(d, Replay(utag, Empty, ops), tags) <==>
            && !RemovedLast(ops, x)
            && (x in d.universal || MarkedIn(utag, ops, x) || (tags != [] && CarriesAll(utag, d, ops, tags, x)))
  {
    hide Replay, RemovedLast, MarkedIn, TaggedIn;
    var m := Replay(utag, Empty, ops);
    forall t: I32
      ensures x in At(m.tags, t) <==> TaggedIn(utag, ops, x, t)
    {
      ReplayIs(utag, ops, x, t);
    }
    ReplayIs(utag, ops, x, utag);
    forall i | 0 <= i < |tags|
      ensures x in Both(d, m, tags[i]) <==> Carries(utag, d, ops, x, tags[i])
    {
    }
    hide Carries, Both;
  }

  /** What an insert does to the answers: the id answers the lists of tags it has now or had before, and every list if
      it is universal; the other ids answer as before. */
  ghost predicate InsertAnswers(utag: I32, d: Disk, m: Mem, vid: U32, tags: seq<I32>, m': Mem) {
    forall q: seq<I32>, x: U32 :: x in Answer(d, m', q) <==>
      if x != vid then x in Answer(d, m, q)
      else x in d.universal || x in m.universal || utag in tags || (q != [] && HasNow(utag, d, m, tags, q, x))
  }

  ghost predicate HasNow(utag: I32, d: Disk, m: Mem, tags: seq<I32>, q: seq<I32>, x: U32) {
    forall i :: 0 <= i < |q| ==> x in Both(d, m, q[i]) || (utag !in tags && q[i] in tags)
  }

  ghost predicate RemoveAnswers(d: Disk, m: Mem, vid: U32, m': Mem) {
    forall q: seq<I32>, x: U32 :: x in Answer(d, m', q) <==> x != vid && x in Answer(d, m, q)
  }

  lemma ApplyInsert(utag: I32, d: Disk, m: Mem, vid: U32, tags: seq<I32>)
    ensures InsertAnswers(utag, d, m, vid, tags, Apply(utag, m, Insert(vid, tags)))
  {
    var m' := Apply(utag, m, Insert(vid, tags));
    assert forall t: I32, x: U32 :: x in Both(d, m', t) <==>
      x in Both(d, m, t) || (x == vid && utag !in tags && t in tags);
    forall q: seq<I32>, x: U32
      ensures x in Answer(d, m', q) <==>
              if x != vid then x in Answer(d, m, q)
              else x in d.universal || x in m.universal || utag in tags || (q != [] && HasNow(utag, d, m, tags, q, x))
    {
      hide Both, Answer;
      assert HasAll(d, m', q, x) <==> if x != vid then HasAll(d, m, q, x) else HasNow(utag, d, m, tags, q, x);
    }
  }

  lemma ApplyRemove(utag: I32, d: Disk, m: Mem, vid: U32)
    ensures RemoveAnswers(d, m, vid, Apply(utag, m, Remove(vid)))
  {
    var m' := Apply(utag, m, Remove(vid));
    forall q: seq<I32>, x: U32
      ensures x in Answer(d, m', q) <==> x != vid && x in Answer(d, m, q)
    {
      hide Answer;
      assert HasAll(d, m', q, x) <==> HasAll(d, m, q, x);
    }
  }

  // ----- crash consistency -----

  /** Reloading the compacted index with an empty log, or with the full log replayed on top (a crash after writing the
      index and before truncating the log), answers every query as the live layers do. */
  lemma CompactConsistent(d: Disk, m: Mem, tags: seq<I32>)
    ensures Answer(Compact(d, m), Empty, tags) == Answer(d, m, tags)
    ensures Answer(Compact(d, m), m, tags) == Answer(d, m, tags)
  {
    var c := Compact(d, m);
    hide Compact, Answer;
    forall x: U32
      ensures Found(c, Empty, tags, x) <==> Found(d, m, tags, x)
      ensures Found(c, m, tags, x) <==> Found(d, m, tags, x)
    {
      if tags != [] {
        assert x in Both(c, Empty, tags[0]) ==> x !in m.dead;
      }
    }
    SameAnswer(c, Empty, d, m, tags);
    SameAnswer(c, m, d, m, tags);
  }

  /** For every history since the index was loaded, all ways of coming back up agree with the live index: the old index
      and the log, the compacted index and the log, the compacted index and an empty log. */
  lemma CrashConsistent(utag: I32, d: Disk, ops: seq<Op>, tags: seq<I32>)
    requires forall i :: 0 <= i < |ops| ==> Loggable(ops[i])
    ensures var live := Replay(utag, Empty, ops);
            var log := Parse(EncodeAll(ops));
            && log.Some?
            && var recovered := Replay(utag, Empty, log.value);
               && Answer(d, recovered, tags) == Answer(d, live, tags)
               && Answer(Compact(d, live), recovered, tags) == Answer(d, live, tags)
               && Answer(Compact(d, live), Empty, tags) == Answer(d, live, tags)
  {
    WalRoundTrip(ops);
    CompactConsistent(d, Replay(utag, Empty, ops), tags);
  }

  // ----- operations after a compaction without a reload -----

  ghost predicate InsertedIn(ops: seq<Op>, x: U32) {
    exists i :: 0 <= i < |ops| && ops[i].Insert? && ops[i].vid == x
  }

  /** What a later part of the history adds, seen from the state before it. */
  lemma {:induction false} ReplayAfter(utag: I32, m: Mem, ops: seq<Op>)
    ensures var a, b := Replay(utag, m, ops), Replay(utag, Empty, ops);
            && a.universal == m.universal + b.universal
            && (forall t :: At(a.tags, t) == At(m.tags, t) + At(b.tags, t))
            && (forall x: U32 :: x in a.dead <==> x in b.dead || (x in m.dead && !InsertedIn(ops, x)))
            && (forall x: U32 :: (x in b.universal || exists t :: x in At(b.tags, t)) ==> InsertedIn(ops, x))
  {
    if ops != [] {
      var t, op := ops[..|ops| - 1], ops[|ops| - 1];
      ReplayAfter(utag, m, t);
      forall x: U32
        ensures InsertedIn(ops, x) <==> InsertedIn(t, x) || (op.Insert? && op.vid == x)
      {
        InsertedSnoc(ops, x);
      }
      hide InsertedIn;
    } else {
      assert forall x: U32 :: !InsertedIn(ops, x);
    }
  }

  lemma InsertedSnoc(ops: seq<Op>, x: U32)
    requires ops != []
    ensures var t, op := ops[..|ops| - 1], ops[|ops| - 1];
            InsertedIn(ops, x) <==> InsertedIn(t, x) || (op.Insert? && op.vid == x)
  {
    var t, op := ops[..|ops| - 1], ops[|ops| - 1];
    if InsertedIn(t, x) {
      var i :| 0 <= i < |t| && t[i].Insert? && t[i].vid == x;
      assert ops[i].vid == x;
    }
    if op.Insert? && op.vid == x {
      assert ops[|ops| - 1].vid == x;
    }
  }

  lemma {:induction false} ReplaySplit(utag: I32, m: Mem, before: seq<Op>, later: seq<Op>)
    ensures Replay(utag, m, before + later) == Replay(utag, Replay(utag, m, before), later)
  {
    if later == [] {
      assert before + later == before;
    } else {
      var t := later[..|later| - 1];
      ReplaySplit(utag, m, before, t);
      assert (before + later)[..|before + later| - 1] == before + t;
    }
  }

  /** A crash in any later merge, between writing its index and emptying the log: the log holds what happened since the
      merge before, and replayed on top of the new index it changes no answer. */
  lemma LaterMergeCrash(utag: I32, d: Disk, m: Mem, later: seq<Op>, tags: seq<I32>)
    requires forall i :: 0 <= i < |later| ==> Loggable(later[i])
    ensures var live := Replay(utag, m, later);
            var log := Parse(EncodeAll(later));
            log.Some? && Answer(Compact(d, live), Replay(utag, Empty, log.value), tags) == Answer(d, live, tags)
  {
    hide Parse, EncodeAll, Loggable, Answer;
    WalRoundTrip(later);
    var live, n := Replay(utag, m, later), Replay(utag, Empty, later);
    forall x: U32
      ensures Found(Compact(d, live), n, tags, x) <==> Found(d, live, tags, x)
    {
      CrashFound(utag, d, m, later, tags, x);
    }
    SameAnswer(Compact(d, live), n, d, live, tags);
  }

  lemma CrashFound(utag: I32, d: Disk, m: Mem, later: seq<Op>, tags: seq<I32>, x: U32)
    ensures var live, n := Replay(utag, m, later), Replay(utag, Empty, later);
            Found(Compact(d, live), n, tags, x) <==> Found(d, live, tags, x)
  {
    ReplayAfter(utag, m, later);
    var live, n := Replay(utag, m, later), Replay(utag, Empty, later);
    var c := Compact(d, live);
    hide Compact, Replay, InsertedIn;
    if x in live.dead && tags != [] {
      assert x in Both(c, n, tags[0]) ==> x in At(n.tags, tags[0]);
    }
  }

  /** The id was dead at the compaction, was inserted again afterwards, and every tag (or the universal mark) it had
      before is repeated by the later inserts. */
  ghost predicate Repeats(d: Disk, m: Mem, n: Mem, x: U32) {
    && (x in d.universal || x in m.universal ==> x in n.universal)
    && (forall t :: x in Both(d, m, t) ==> x in At(n.tags, t) || x in n.universal)
  }

  ghost predicate NoResurfacing(utag: I32, d: Disk, m: Mem, later: seq<Op>) {
    var n := Replay(utag, Empty, later);
    forall x: U32 :: x in m.dead && InsertedIn(later, x) && x !in n.dead ==> Repeats(d, m, n, x)
  }

  /** Two ways to go on after a compaction: without a reload the live index still has the old layers, while a restart
      has the compacted index and the log since. */
  lemma AgreeOn(utag: I32, d: Disk, m: Mem, later: seq<Op>, tags: seq<I32>, x: U32)
    requires x in m.dead && InsertedIn(later, x) && x !in Replay(utag, Empty, later).dead
             ==> Repeats(d, m, Replay(utag, Empty, later), x)
    ensures Found(d, Replay(utag, m, later), tags, x) <==> Found(Compact(d, m), Replay(utag, Empty, later), tags, x)
  {
    ReplayAfter(utag, m, later);
    var c, a, n := Compact(d, m), Replay(utag, m, later), Replay(utag, Empty, later);
    hide Compact, Replay, InsertedIn;
    if x in m.dead && !InsertedIn(later, x) && tags != [] {
      assert x !in Both(c, n, tags[0]);
    }
  }

  ghost predicate AlwaysAgree(d: Disk, m: Mem, d': Disk, m': Mem) {
    forall tags: seq<I32> :: Answer(d, m, tags) == Answer(d', m', tags)
  }

  /** They agree on every query if and only if no re-inserted id had a tag before that its re-insertion leaves out. */
  lemma MergeWithoutReload(utag: I32, d: Disk, m: Mem, later: seq<Op>)
    ensures AlwaysAgree(d, Replay(utag, m, later), Compact(d, m), Replay(utag, Empty, later))
            <==> NoResurfacing(utag, d, m, later)
  {
    var c, a, n := Compact(d, m), Replay(utag, m, later), Replay(utag, Empty, later);
    if NoResurfacing(utag, d, m, later) {
      forall tags: seq<I32>
        ensures Answer(d, a, tags) == Answer(c, n, tags)
      {
        forall x: U32
          ensures Found(d, a, tags, x) <==> Found(c, n, tags, x)
        {
          hide Found;
          AgreeOn(utag, d, m, later, tags, x);
        }
        SameAnswer(d, a, c, n, tags);
      }
    }
    if AlwaysAgree(d, a, c, n) {
      forall x: U32 | x in m.dead && InsertedIn(later, x) && x !in n.dead
        ensures Repeats(d, m, n, x)
      {
        MustRepeat(utag, d, m, later, x);
      }
    }
  }

  lemma MustRepeat(utag: I32, d: Disk, m: Mem, later: seq<Op>, x: U32)
    requires x in m.dead && InsertedIn(later, x) && x !in Replay(utag, Empty, later).dead
    requires AlwaysAgree(d, Replay(utag, m, later), Compact(d, m), Replay(utag, Empty, later))
    ensures Repeats(d, m, Replay(utag, Empty, later), x)
  {
    ReplayAfter(utag, m, later);
    var c, a, n := Compact(d, m), Replay(utag, m, later), Replay(utag, Empty, later);
    hide Compact, Replay, InsertedIn;
    assert Answer(d, a, []) == Answer(c, n, []);
    assert Found(d, a, [], x) <==> Found(c, n, [], x);
    forall t | x in Both(d, m, t)
      ensures x in At(n.tags, t) || x in n.universal
    {
      assert Answer(d, a, [t]) == Answer(c, n, [t]);
      assert HasAll(d, a, [t], x);
      assert Found(c, n, [t], x);
      assert HasAll(c, n, [t], x) ==> x in Both(c, n, [t][0]);
    }
  }

  /** Concretely: remove an id that had tag 1, compact, insert it again with tag 2. The live index finds it under tag 1,
      a restarted one does not. */
  lemma ResurfacingExample()
    ensures var d := Disk(map[1 := {7}], {});
            var m := Replay(-1, Empty, [Remove(7)]);
            var later := [Insert(7, [2])];
            7 in Answer(d, Replay(-1, m, later), [1]) && 7 !in Answer(Compact(d, m), Replay(-1, Empty, later), [1])
  {
    var d := Disk(map[1 := {7}], {});
    var m := Replay(-1, Empty, [Remove(7)]);
    assert m == Mem(map[], {}, {7});
    var op: Op := Insert(7, [2]);
    var later := [op];
    assert later[..0] == [];
    assert Replay(-1, m, later) == Apply(-1, m, op);
    assert Replay(-1, Empty, later) == Apply(-1, Empty, op);
    var a, c, n := Replay(-1, m, later), Compact(d, m), Replay(-1, Empty, later);
    assert 7 in Both(d, a, 1);
    assert Found(d, a, [1], 7);
    assert At(c.tags, 1) == {};
    assert 7 !in Both(c, n, [1][0]);
  }

  // ----- recovery -----

  lemma ReplayOne(utag: I32, m: Mem, rest: seq<Byte>, vid: seq<Byte>, count: seq<Byte>)
    requires rest != [] && |vid| == |count| == 4
    ensures var r := ReadOne(rest);
            var op, left := if r.Some? then r.value.0 else Some(Torn(rest, vid, count)), if r.Some? then r.value.1
              else [];
            && |left| < |rest|
            && Replay(utag, m, Recovered(rest, vid, count))
               == Replay(utag, if op.Some? then Apply(utag, m, op.value) else m, Recovered(left, vid, count))
  {
    hide ReadOne, Torn, Apply, Recovered;
    RecoveredStep(rest, vid, count);
    var r := ReadOne(rest);
    var op, left := if r.Some? then r.value.0 else Some(Torn(rest, vid, count)), if r.Some? then r.value.1 else [];
    var tail := Recovered(left, vid, count);
    if op.Some? {
      ReplaySplit(utag, m, [op.value], tail);
      assert [op.value][..0] == [];
    } else {
      assert [] + tail == tail;
    }
  }

  /** The recovery loop. */
  method ReplayLog(utag: I32, m0: Mem, log: seq<Byte>, vid: seq<Byte>, count: seq<Byte>) returns (m: Mem)
    requires |vid| == |count| == 4
    ensures m == Replay(utag, m0, Recovered(log, vid, count))
  {
    hide ReadOne, Torn, Apply;
    m := m0;
    var rest := log;
    while rest != []
      invariant Replay(utag, m, Recovered(rest, vid, count)) == Replay(utag, m0, Recovered(log, vid, count))
      decreases |rest|
    {
      ReplayOne(utag, m, rest, vid, count);
      var r := ReadOne(rest);
      var op, left := if r.Some? then r.value.0 else Some(Torn(rest, vid, count)), if r.Some? then r.value.1 else [];
      if op.Some? {
        m := Apply(utag, m, op.value);
      }
      rest := left;
    }
  }

  lemma Appended(base: seq<Byte>, history: seq<Op>, logged: nat, op: Op)
    requires logged <= |history| && Loggable(op) && forall i :: 0 <= i < |history| ==> Loggable(history[i])
    ensures base + EncodeAll((history + [op])[logged..]) == base + EncodeAll(history[logged..]) + Encode(op)
  {
    hide Encode, Loggable;
    var tail := (history + [op])[logged..];
    assert tail == history[logged..] + [op];
    assert tail[..|tail| - 1] == history[logged..];
  }

  lemma ReplayAppended(utag: I32, history: seq<Op>, op: Op)
    ensures Replay(utag, Empty, history + [op]) == Apply(utag, Replay(utag, Empty, history), op)
  {
    hide Apply;
    assert (history + [op])[..|history|] == history;
  }

  // ----- the searcher -----

  class InvertedIndexSearcher {
    var disk: Disk
    var mem: Mem
    var utag: I32
    var wal: seq<Byte>
    var walOpen: bool
    ghost var history: seq<Op>
    ghost var logged: nat
    ghost var base: seq<Byte>

    /** The memory layer is the replay of the history since the load. An open log holds what it held at the load, or
        nothing after a compaction, and behind it the part of the history since then. */
    ghost predicate Valid()
      reads this
    {
      && mem == Replay(utag, Empty, history) && logged <= |history|
      && (forall i :: 0 <= i < |history| ==> Loggable(history[i]))
      && (walOpen ==> wal == base + EncodeAll(history[logged..]))
    }

    /** Load an index file and replay a log; then keep appending to that log, if it is opened. `vid` and `count` are
        what the recovery's variables hold in memory before they are read. */
    constructor (index: Disk, utag: I32, log: seq<Byte>, open: bool, vid: seq<Byte>, count: seq<Byte>)
      requires |vid| == |count| == 4
      ensures Valid() && disk == index && this.utag == utag && wal == log && walOpen == open
      ensures history == Recovered(log, vid, count) && logged == |history| && base == log
    {
      disk, mem, this.utag, wal, walOpen, base := index, Empty, utag, log, open, log;
      history := Recovered(log, vid, count);
      logged := |Recovered(log, vid, count)|;
      new;
      assert history[logged..] == [];
      Recover(log, vid, count);
    }

    /** recover_from_wal. A record cut short ends the loop, but is applied. */
    method Recover(log: seq<Byte>, vid: seq<Byte>, count: seq<Byte>)
      requires |vid| == |count| == 4
      modifies this`mem
      ensures mem == Replay(utag, old(mem), Recovered(log, vid, count))
    {
      mem := ReplayLog(utag, mem, log, vid, count);
    }

    method Insert(vid: U32, tags: seq<I32>)
      requires Valid() && |tags| < 0x1_0000_0000
      modifies this`mem, this`wal, this`history
      ensures Valid() && history == old(history) + [WalCodec.Insert(vid, tags)]
      ensures InsertAnswers(utag, disk, old(mem), vid, tags, mem)
    {
      hide Apply, Replay, InsertAnswers, EncodeAll;
      ApplyInsert(utag, disk, mem, vid, tags);
      Log(WalCodec.Insert(vid, tags));
    }

    method Remove(vid: U32)
      requires Valid()
      modifies this`mem, this`wal, this`history
      ensures Valid() && history == old(history) + [WalCodec.Remove(vid)]
      ensures RemoveAnswers(disk, old(mem), vid, mem)
    {
      hide Apply, Replay, RemoveAnswers, EncodeAll;
      ApplyRemove(utag, disk, mem, vid);
      Log(WalCodec.Remove(vid));
    }

    /** Append a record to the log if it is open, then apply the operation. */
    method Log(op: Op)
      requires Valid() && Loggable(op)
      modifies this`mem, this`wal, this`history
      ensures Valid() && history == old(history) + [op] && mem == Apply(utag, old(mem), op)
    {
      hide Apply, Encode, Loggable, EncodeAll, Replay;
      Appended(base, history, logged, op);
      ReplayAppended(utag, history, op);
      if walOpen {
        wal := wal + Encode(op);
      }
      mem := Apply(utag, mem, op);
      history := history + [op];
    }

    /** merge: write the compacted index and empty the log. The layers in memory stay as they are. */
    method Merge() returns (index: Disk)
      requires Valid()
      modifies this`wal, this`logged, this`base
      ensures Valid() && index == Compact(disk, mem)
      ensures if walOpen then wal == base == [] && logged == |history|
              else wal == old(wal) && logged == old(logged) && base == old(base)
      ensures forall tags: seq<I32> :: Answer(index, Empty, tags) == Answer(disk, mem, tags)
    {
      index := Compact(disk, mem);
      forall tags: seq<I32>
        ensures Answer(index, Empty, tags) == Answer(disk, mem, tags)
      {
        CompactConsistent(disk, mem, tags);
      }
      if walOpen {
        wal, base, logged := [], [], |history|;
      }
    }
  }

  /** After a crash at any point of any history, restarting from the index on disk and the log answers as the live index
      did: before a compaction exactly, and after one (without a reload) exactly if nothing resurfaces. */
  lemma RestartAgrees(utag: I32, d: Disk, history: seq<Op>, logged: nat)
    requires logged <= |history| && forall i :: 0 <= i < |history| ==> Loggable(history[i])
    ensures var m := Replay(utag, Empty, history[..logged]);
            var log := Parse(EncodeAll(history[logged..]));
            && log.Some?
            && (AlwaysAgree(d, Replay(utag, Empty, history), Compact(d, m), Replay(utag, Empty, log.value))
                <==> NoResurfacing(utag, d, m, history[logged..]))
  {
    hide Replay, Compact, Parse, EncodeAll, NoResurfacing, AlwaysAgree, Loggable;
    var before, later := history[..logged], history[logged..];
    WalRoundTrip(later);
    ReplaySplit(utag, Empty, before, later);
    assert before + later == history;
    MergeWithoutReload(utag, d, Replay(utag, Empty, before), later);
  }
}
