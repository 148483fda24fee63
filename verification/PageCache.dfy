/** The reference-counted write-back page cache between the index and its file. */
module PageCacheModel {
  import opened Wrappers

  datatype Item<C> = Item(content: C, refs: nat)

  type Cache<C> = map<nat, Item<C>>

  function Refs<C>(cache: Cache<C>, b: nat): nat {
    if b in cache then cache[b].refs else 0
  }

  /** Every cached page is referenced. */
  ghost predicate Positive<C>(cache: Cache<C>) {
    forall b :: b in cache ==> cache[b].refs > 0
  }

  /** `after` counts the references `add` on top of `before`. */
  ghost predicate Added<C>(before: Cache<C>, after: Cache<C>, add: multiset<nat>) {
    forall b: nat :: Refs(after, b) == Refs(before, b) + add[b]
  }

  /** What a reader of page b gets. */
  function Content<C>(cache: Cache<C>, disk: seq<C>, b: nat): C
    requires b < |disk|
  {
    if b in cache then cache[b].content else disk[b]
  }

  ghost predicate SameContent<C>(before: Cache<C>, after: Cache<C>, disk: seq<C>) {
    forall b: nat :: b < |disk| ==> Content(after, disk, b) == Content(before, disk, b)
  }

  lemma Snoc(s: seq<nat>, i: nat)
    requires i < |s|
    ensures multiset(s[..i + 1]) == multiset(s[..i]) + multiset{s[i]}
  {
    assert s[..i + 1] == s[..i] + [s[i]];
  }

  lemma AddOne<C>(before: Cache<C>, c: Cache<C>, add: multiset<nat>, b: nat, value: C)
    requires Added(before, c, add) && Positive(c)
    ensures var c' := c[b := Item(value, Refs(c, b) + 1)]; Added(before, c', add + multiset{b}) && Positive(c')
  {
  }

  lemma DropOne<C>(c: Cache<C>, before: Cache<C>, add: multiset<nat>, b: nat, c': Cache<C>)
    requires Added(c, before, add) && Positive(c) && b in c
    requires c' == if c[b].refs == 1 then c - {b} else c[b := c[b].(refs := c[b].refs - 1)]
    ensures Added(c', before, add + multiset{b}) && Positive(c')
  {
  }

  /** The requests `done` so far were found in the cache (`hits`) or are to be read from the file (`missing`). */
  ghost predicate Taken<C>(c0: Cache<C>, c: Cache<C>, disk: seq<C>, hits: multiset<nat>, missing: seq<nat>,
                           done: multiset<nat>) {
    && hits + multiset(missing) == done && Positive(c) && Added(c0, c, hits) && SameContent(c0, c, disk)
    && c.Keys == c0.Keys
    && forall j :: 0 <= j < |missing| ==> missing[j] < |disk| && missing[j] !in c
  }

  lemma TakeHit<C>(c0: Cache<C>, c: Cache<C>, disk: seq<C>, hits: multiset<nat>, missing: seq<nat>, done: multiset<nat>,
                   b: nat)
    requires Taken(c0, c, disk, hits, missing, done) && b in c && b < |disk|
    ensures c[b].content == Content(c0, disk, b)
    ensures Taken(c0, c[b := Item(c[b].content, c[b].refs + 1)], disk, hits + multiset{b}, missing, done + multiset{b})
  {
    AddOne(c0, c, hits, b, c[b].content);
    hide Added, Positive;
    assert hits + multiset{b} + multiset(missing) == done + multiset{b};
    assert Content(c, disk, b) == Content(c0, disk, b);
  }

  lemma TakeMiss<C>(c0: Cache<C>, c: Cache<C>, disk: seq<C>, hits: multiset<nat>, missing: seq<nat>,
                    done: multiset<nat>, b: nat)
    requires Taken(c0, c, disk, hits, missing, done) && b !in c && b < |disk|
    ensures disk[b] == Content(c0, disk, b)
    ensures Taken(c0, c, disk, hits, missing + [b], done + multiset{b})
  {
    hide Added, Positive;
    assert hits + multiset(missing + [b]) == done + multiset{b};
  }

  class CachedFile<C> {
    var cache: Cache<C>
    var disk: seq<C>

    constructor (disk: seq<C>)
      ensures cache == map[] && this.disk == disk
    {
      cache, this.disk := map[], disk;
    }

    /** PageCache::get with a reference. */
    method Get(b: nat) returns (hit: bool, value: C)
      requires b < |disk|
      modifies this`cache
      ensures hit <==> b in old(cache)
      ensures hit ==> value == old(cache)[b].content && cache == old(cache)[b := Item(value, old(cache)[b].refs + 1)]
      ensures !hit ==> cache == old(cache)
    {
      hit := b in cache;
      value := disk[b];
      if hit {
        value := cache[b].content;
        cache := cache[b := Item(value, cache[b].refs + 1)];
      }
    }

    /** PageCache::put with a reference: a new page starts with none. */
    method Put(b: nat, value: C)
      modifies this`cache
      ensures cache == old(cache)[b := Item(value, Refs(old(cache), b) + 1)]
    {
      if b !in cache {
        cache := cache[b := Item(value, 0)];
      }
      cache := cache[b := Item(value, cache[b].refs + 1)];
    }

    /** PageCache::deref: the last reference drops the page. */
    method Deref(b: nat) returns (erased: bool)
      requires Positive(cache)
      modifies this`cache
      ensures b !in old(cache) ==> cache == old(cache) && erased
      ensures b in old(cache) ==> (erased <==> old(cache)[b].refs == 1)
                                  && cache == if erased then old(cache) - {b}
                                              else old(cache)[b := old(cache)[b].(refs := old(cache)[b].refs - 1)]
    {
      if b !in cache {
        return true;
      }
      var n := cache[b].refs - 1;
      erased := n == 0;
      cache := if erased then cache - {b} else cache[b := cache[b].(refs := n)];
    }

    /** read_alloc: take cached pages from the cache, read the others from the file and cache them. Every request leaves
        one reference. */
    method ReadAlloc(blocks: seq<nat>) returns (values: seq<C>)
      requires Positive(cache) && forall i :: 0 <= i < |blocks| ==> blocks[i] < |disk|
      modifies this`cache
      ensures |values| == |blocks|
      ensures forall i :: 0 <= i < |blocks| ==> values[i] == Content(old(cache), disk, blocks[i])
      ensures Positive(cache) && Added(old(cache), cache, multiset(blocks))
      ensures SameContent(old(cache), cache, disk)
    {
      hide Added, Positive, SameContent;
      ghost var c0 := cache;
      var missing;
      ghost var hits;
      values, missing, hits := TakeCached(blocks);
      ghost var c1 := cache;
      FillMissing(missing);
      AddedTwice(c0, c1, cache, disk, hits, multiset(missing));
    }

    /** The first half of read_alloc: what the cache has. Pages to read from the file are listed in `missing`. */
    method TakeCached(blocks: seq<nat>) returns (values: seq<C>, missing: seq<nat>, ghost hits: multiset<nat>)
      requires Positive(cache) && forall i :: 0 <= i < |blocks| ==> blocks[i] < |disk|
      modifies this`cache
      ensures |values| == |blocks|
      ensures forall i :: 0 <= i < |blocks| ==> values[i] == Content(old(cache), disk, blocks[i])
      ensures hits + multiset(missing) == multiset(blocks)
      ensures Positive(cache) && Added(old(cache), cache, hits) && SameContent(old(cache), cache, disk)
      ensures forall j :: 0 <= j < |missing| ==> missing[j] < |disk| && missing[j] !in cache
    {
      hide Taken;
      values, missing, hits := [], [], multiset{};
      TakenNone(cache, disk);
      assert blocks[..0] == [];
      for i := 0 to |blocks|
        invariant |values| == i && forall j :: 0 <= j < i ==> values[j] == Content(old(cache), disk, blocks[j])
        invariant Taken(old(cache), cache, disk, hits, missing, multiset(blocks[..i]))
      {
        Snoc(blocks, i);
        ghost var c := cache;
        var hit, value := Get(blocks[i]);
        if hit {
          TakeHit(old(cache), c, disk, hits, missing, multiset(blocks[..i]), blocks[i]);
          hits := hits + multiset{blocks[i]};
        } else {
          TakeMiss(old(cache), c, disk, hits, missing, multiset(blocks[..i]), blocks[i]);
          missing := missing + [blocks[i]];
          value := disk[blocks[i]];
        }
        values := values + [value];
      }
      assert blocks[..|blocks|] == blocks;
      TakenAll(old(cache), cache, disk, hits, missing, multiset(blocks));
    }

    /** Cache pages as read from the file. */
    method FillMissing(missing: seq<nat>)
      requires Positive(cache) && forall j :: 0 <= j < |missing| ==> missing[j] < |disk| && missing[j] !in cache
      modifies this`cache
      ensures Positive(cache) && Added(old(cache), cache, multiset(missing))
      ensures SameContent(old(cache), cache, disk)
    {
      hide Added, Positive;
      AddedNone(cache);
      for i := 0 to |missing|
        invariant Positive(cache) && Added(old(cache), cache, multiset(missing[..i]))
        invariant SameContent(old(cache), cache, disk)
        invariant forall b :: b in cache <==> b in old(cache) || b in missing[..i]
      {
        Snoc(missing, i);
        AddOne(old(cache), cache, multiset(missing[..i]), missing[i], disk[missing[i]]);
        Put(missing[i], disk[missing[i]]);
      }
      assert missing[..|missing|] == missing;
    }

    /** wbc_write: put the new pages in the cache only, each with a reference. */
    method WbcWrite(blocks: seq<nat>, values: seq<C>)
      requires Positive(cache) && |values| == |blocks|
      requires forall i, j :: 0 <= i < j < |blocks| ==> blocks[i] != blocks[j]
      modifies this`cache
      ensures Positive(cache) && Added(old(cache), cache, multiset(blocks))
      ensures forall i :: 0 <= i < |blocks| ==> blocks[i] in cache && cache[blocks[i]].content == values[i]
      ensures forall b :: b in cache && b !in blocks ==> b in old(cache) && cache[b] == old(cache)[b]
    {
      hide Added, Positive;
      AddedNone(cache);
      for i := 0 to |blocks|
        invariant Positive(cache) && Added(old(cache), cache, multiset(blocks[..i]))
        invariant forall j :: 0 <= j < i ==> blocks[j] in cache && cache[blocks[j]].content == values[j]
        invariant forall b :: b in cache && b !in blocks[..i] ==> b in old(cache) && cache[b] == old(cache)[b]
      {
        Snoc(blocks, i);
        AddOne(old(cache), cache, multiset(blocks[..i]), blocks[i], values[i]);
        Put(blocks[i], values[i]);
      }
      assert blocks[..|blocks|] == blocks;
    }

    /** Give back one reference for each page listed. */
    method DerefAll(pages: seq<nat>)
      requires Positive(cache) && forall b: nat :: multiset(pages)[b] <= Refs(cache, b)
      modifies this`cache
      ensures Positive(cache) && Added(cache, old(cache), multiset(pages))
      ensures forall b :: b in cache ==> b in old(cache) && cache[b].content == old(cache)[b].content
    {
      hide Added, Positive;
      AddedNone(cache);
      for i := 0 to |pages|
        invariant Positive(cache) && Added(cache, old(cache), multiset(pages[..i]))
        invariant forall b :: b in cache ==> b in old(cache) && cache[b].content == old(cache)[b].content
      {
        Snoc(pages, i);
        assert multiset(pages) == multiset(pages[..i + 1]) + multiset(pages[i + 1..]) by {
          assert pages == pages[..i + 1] + pages[i + 1..];
        }
        assert multiset(pages)[pages[i]] >= multiset(pages[..i])[pages[i]] + 1;
        StillReferenced(old(cache), cache, multiset(pages[..i]), pages[i]);
        ghost var c := cache;
        var erased := Deref(pages[i]);
        DropOne(c, old(cache), multiset(pages[..i]), pages[i], cache);
      }
      assert pages[..|pages|] == pages;
    }
  }

  // ----- coherence over whole runs -----

  /** A page that a read did not find in the cache, and what the file gave for it once it was read. */
  datatype Fetch<C> = Fetch(block: nat, read: Option<C>)

  /** A user of the file: references from reads, references from writes, the pages it has put in the cache but not yet
      written to the file, and the pages that its read is fetching. It holds the page locks of the unflushed ones; a
      reader takes no page lock. */
  datatype Client<C> = Client(readRefs: multiset<nat>, writeRefs: multiset<nat>, unflushed: map<nat, C>,
                              fetches: seq<Fetch<C>>)

  /** `latest` is what was last written to each page, by the cache or by the file. */
  datatype System<C> = System(cache: Cache<C>, disk: seq<C>, latest: seq<C>, clients: seq<Client<C>>)

  ghost function Held<C>(c: Client<C>, b: nat): nat {
    c.readRefs[b] + c.writeRefs[b]
  }

  ghost function Total<C>(clients: seq<Client<C>>, b: nat): nat {
    if clients == [] then 0 else Total(clients[..|clients| - 1], b) + Held(clients[|clients| - 1], b)
  }

  lemma {:induction false} TotalUpdate<C>(clients: seq<Client<C>>, i: nat, c: Client<C>, b: nat)
    requires i < |clients|
    ensures Total(clients[i := c], b) + Held(clients[i], b) == Total(clients, b) + Held(c, b)
  {
    var n := |clients| - 1;
    if i < n {
      TotalUpdate(clients[..n], i, c, b);
      assert clients[i := c][..n] == clients[..n][i := c];
    } else {
      assert clients[i := c][..n] == clients[..n];
    }
  }

  lemma {:induction false} HeldInTotal<C>(clients: seq<Client<C>>, i: nat, b: nat)
    requires i < |clients|
    ensures Held(clients[i], b) <= Total(clients, b)
  {
    if i < |clients| - 1 {
      HeldInTotal(clients[..|clients| - 1], i, b);
    }
  }

  /** A page is cached exactly if it is referenced, and the count is the number of references. */
  ghost predicate Counted<C>(cache: Cache<C>, clients: seq<Client<C>>) {
    Positive(cache) && forall b: nat :: Refs(cache, b) == Total(clients, b)
  }

  /** What the file holds of pages nobody is about to write is the latest content; so is what the cache holds and what
      has been fetched, except for the pages that may be written while they are fetched (`racy`). */
  ghost predicate Fresh<C>(racy: iset<nat>, s: System<C>) {
    && |s.latest| == |s.disk|
    && (forall b :: b in s.cache && b < |s.disk| && b !in racy ==> s.cache[b].content == s.latest[b])
    && (forall b :: 0 <= b < |s.disk| && !Unflushed(s.clients, b) ==> s.disk[b] == s.latest[b])
    && forall i :: 0 <= i < |s.clients| ==> Fetched(racy, s, s.clients[i].fetches)
  }

  ghost predicate Fetched<C>(racy: iset<nat>, s: System<C>, fetches: seq<Fetch<C>>) {
    forall j :: 0 <= j < |fetches| ==>
      && fetches[j].block < |s.latest|
      && (fetches[j].block !in racy ==>
            && !Unflushed(s.clients, fetches[j].block)
            && (fetches[j].read.Some? ==> fetches[j].read.value == s.latest[fetches[j].block]))
  }

  ghost predicate Fetching<C>(clients: seq<Client<C>>, b: nat) {
    exists i :: 0 <= i < |clients| && Fetches(clients[i], b)
  }

  ghost predicate Fetches<C>(c: Client<C>, b: nat) {
    exists j :: 0 <= j < |c.fetches| && c.fetches[j].block == b
  }

  ghost predicate Unflushed<C>(clients: seq<Client<C>>, b: nat) {
    exists i :: 0 <= i < |clients| && b in clients[i].unflushed
  }

  /** A client references the pages it is about to write, and has their latest content. */
  ghost predicate Ready<C>(c: Client<C>, latest: seq<C>) {
    forall b :: b in c.unflushed ==> b < |latest| && c.unflushed[b] == latest[b] && c.writeRefs[b] > 0
  }

  ghost predicate Apart<C>(c: Client<C>, d: Client<C>) {
    c.unflushed.Keys !! d.unflushed.Keys
  }

  /** A page waiting to be written is locked by one client, which is ready to write it. */
  ghost predicate Owned<C>(s: System<C>) {
    && (forall i :: 0 <= i < |s.clients| ==> Ready(s.clients[i], s.latest))
    && (forall i, j :: 0 <= i < |s.clients| && 0 <= j < |s.clients| && i != j ==> Apart(s.clients[i], s.clients[j]))
  }

  ghost predicate Coherent<C>(racy: iset<nat>, s: System<C>) {
    Counted(s.cache, s.clients) && Fresh(racy, s) && Owned(s)
  }

  /** Pages waiting to be written are cached. */
  lemma UnflushedCached<C>(s: System<C>, b: nat)
    requires Counted(s.cache, s.clients) && Owned(s) && Unflushed(s.clients, b)
    ensures b in s.cache
  {
    var i :| 0 <= i < |s.clients| && b in s.clients[i].unflushed;
    assert Ready(s.clients[i], s.latest);
    HeldInTotal(s.clients, i, b);
  }

  /** A page whose copy in the file is stale is cached, and unless the page is racy every reader gets the latest
      content. */
  lemma ReadsLatest<C>(racy: iset<nat>, s: System<C>, b: nat)
    requires Coherent(racy, s) && b < |s.disk|
    ensures b !in racy ==> Content(s.cache, s.disk, b) == s.latest[b]
    ensures s.disk[b] != s.latest[b] ==> b in s.cache
  {
    if Unflushed(s.clients, b) {
      UnflushedCached(s, b);
    }
  }

  // A read of one page is a hit, or a miss, a read of the file and a put, with other clients in between.

  /** A step of client i that changes the cache and the client only. */
  ghost predicate MovesTo<C>(s: System<C>, t: System<C>, i: nat, cache: Cache<C>, c: Client<C>)
    requires i < |s.clients|
  {
    t.disk == s.disk && t.latest == s.latest && t.cache == cache && t.clients == s.clients[i := c]
  }

  /** The page is in the cache: get takes a reference. */
  ghost predicate HitStep<C>(s: System<C>, t: System<C>, i: nat, b: nat) {
    && i < |s.clients| && b < |s.disk| && b in s.cache
    && MovesTo(s, t, i, s.cache[b := Item(s.cache[b].content, s.cache[b].refs + 1)],
               s.clients[i].(readRefs := s.clients[i].readRefs + multiset{b}))
  }

  /** It is not: it has to be fetched. */
  ghost predicate MissStep<C>(s: System<C>, t: System<C>, i: nat, b: nat) {
    && i < |s.clients| && b < |s.disk| && b !in s.cache
    && MovesTo(s, t, i, s.cache, s.clients[i].(fetches := s.clients[i].fetches + [Fetch(b, None)]))
  }

  /** The file is read. */
  ghost predicate LoadStep<C>(s: System<C>, t: System<C>, i: nat, j: nat) {
    && i < |s.clients| && j < |s.clients[i].fetches| && s.clients[i].fetches[j].block < |s.disk|
    && s.clients[i].fetches[j].read == None
    && var c := s.clients[i]; var f := c.fetches[j];
       MovesTo(s, t, i, s.cache, c.(fetches := c.fetches[j := f.(read := Some(s.disk[f.block]))]))
  }

  /** The oldest fetch is put in the cache, whatever is there by now. */
  ghost predicate StoreStep<C>(s: System<C>, t: System<C>, i: nat) {
    && i < |s.clients| && s.clients[i].fetches != [] && s.clients[i].fetches[0].read.Some?
    && var c := s.clients[i]; var b := c.fetches[0].block;
       MovesTo(s, t, i, s.cache[b := Item(c.fetches[0].read.value, Refs(s.cache, b) + 1)],
               c.(readRefs := c.readRefs + multiset{b}, fetches := c.fetches[1..]))
  }

  /** wbc_write under the locks of the pages, after the client's own reads. Those locks do not stop a reader; only the
      pages that are not racy are spared while someone fetches them. */
  ghost predicate WriteStep<C>(racy: iset<nat>, s: System<C>, t: System<C>, i: nat, writes: map<nat, C>) {
    && i < |s.clients| && t.disk == s.disk && |t.latest| == |s.latest| == |s.disk| && s.clients[i].fetches == []
    && (forall b :: b in writes && b !in racy ==> !Fetching(s.clients, b))
    && s.clients[i].unflushed == map[] && (forall b :: b in writes ==> b < |s.disk| && !Unflushed(s.clients, b))
    && Positive(t.cache) && Added(s.cache, t.cache, multiset(writes.Keys))
    && (forall b :: b in writes ==> b in t.cache && t.cache[b].content == writes[b])
    && (forall b :: b in t.cache && b !in writes ==> b in s.cache && t.cache[b] == s.cache[b])
    && (forall b :: 0 <= b < |s.disk| ==> t.latest[b] == if b in writes then writes[b] else s.latest[b])
    && t.clients == s.clients[i := Client(s.clients[i].readRefs, s.clients[i].writeRefs + multiset(writes.Keys),
                                          writes, [])]
  }

  /** The background write of a client's pages; the locks are released with it. */
  ghost predicate FlushStep<C>(s: System<C>, t: System<C>, i: nat) {
    && i < |s.clients| && t.cache == s.cache && t.latest == s.latest && |t.disk| == |s.disk|
    && (forall b :: 0 <= b < |s.disk| ==>
          t.disk[b] == if b in s.clients[i].unflushed then s.clients[i].unflushed[b] else s.disk[b])
    && t.clients == s.clients[i := s.clients[i].(unflushed := map[])]
  }

  /** References of reads are given back at any time, those of writes after the write. */
  ghost predicate DerefStep<C>(s: System<C>, t: System<C>, i: nat, ofReads: bool) {
    && i < |s.clients| && t.disk == s.disk && t.latest == s.latest
    && (ofReads || s.clients[i].unflushed == map[])
    && Positive(t.cache) && Added(t.cache, s.cache, if ofReads then s.clients[i].readRefs else s.clients[i].writeRefs)
    && (forall b :: b in t.cache ==> b in s.cache && t.cache[b].content == s.cache[b].content)
    && t.clients == s.clients[i := if ofReads then s.clients[i].(readRefs := multiset{})
                                   else s.clients[i].(writeRefs := multiset{})]
  }

  /** A step of a read. */
  ghost predicate ReadStep<C>(s: System<C>, t: System<C>, i: nat, b: nat) {
    HitStep(s, t, i, b) || MissStep(s, t, i, b) || LoadStep(s, t, i, b) || StoreStep(s, t, i)
  }

  ghost predicate Next<C(!new)>(racy: iset<nat>, s: System<C>, t: System<C>) {
    || (exists i, b :: ReadStep(s, t, i, b))
    || (exists i, writes :: WriteStep(racy, s, t, i, writes))
    || (exists i :: FlushStep(s, t, i))
    || (exists i, ofReads :: DerefStep(s, t, i, ofReads))
  }

  /** One client's references change together with the cache's counts. */
  lemma CountedAfter<C>(s: System<C>, t: System<C>, i: nat)
    requires Counted(s.cache, s.clients) && Positive(t.cache) && i < |s.clients| && |t.clients| == |s.clients|
    requires t.clients == s.clients[i := t.clients[i]]
    requires forall b: nat :: Refs(t.cache, b) + Held(s.clients[i], b) == Refs(s.cache, b) + Held(t.clients[i], b)
    ensures Counted(t.cache, t.clients)
  {
    forall b: nat
      ensures Refs(t.cache, b) == Total(t.clients, b)
    {
      TotalUpdate(s.clients, i, t.clients[i], b);
    }
  }

  lemma SameUnflushed<C>(s: System<C>, t: System<C>, i: nat, b: nat)
    requires i < |s.clients| == |t.clients| && t.clients == s.clients[i := t.clients[i]]
    requires t.clients[i].unflushed == s.clients[i].unflushed
    ensures Unflushed(t.clients, b) <==> Unflushed(s.clients, b)
  {
    if Unflushed(t.clients, b) {
      var j :| 0 <= j < |t.clients| && b in t.clients[j].unflushed;
      assert b in s.clients[j].unflushed;
    }
    if Unflushed(s.clients, b) {
      var j :| 0 <= j < |s.clients| && b in s.clients[j].unflushed;
      assert b in t.clients[j].unflushed;
    }
  }

  /** Ownership is kept if a client's pending pages stay as they are, or are all written. */
  lemma OwnedAfter<C>(s: System<C>, t: System<C>, i: nat)
    requires Owned(s) && i < |s.clients| == |t.clients| && t.clients == s.clients[i := t.clients[i]]
    requires t.latest == s.latest
    requires t.clients[i].unflushed == map[]
             || (t.clients[i].unflushed == s.clients[i].unflushed && t.clients[i].writeRefs == s.clients[i].writeRefs)
    ensures Owned(t)
  {
    forall k | 0 <= k < |t.clients|
      ensures Ready(t.clients[k], t.latest) && t.clients[k].unflushed.Keys <= s.clients[k].unflushed.Keys
    {
      assert Ready(s.clients[k], s.latest);
    }
    forall k, j | 0 <= k < |t.clients| && 0 <= j < |t.clients| && k != j
      ensures Apart(t.clients[k], t.clients[j])
    {
      assert Apart(s.clients[k], s.clients[j]);
    }
  }

  lemma StillUnflushed<C>(s: System<C>, t: System<C>, i: nat, b: nat)
    requires i < |s.clients| == |t.clients| && t.clients == s.clients[i := t.clients[i]] && b !in s.clients[i].unflushed
    ensures Unflushed(s.clients, b) ==> Unflushed(t.clients, b)
  {
    if Unflushed(s.clients, b) {
      var j :| 0 <= j < |s.clients| && b in s.clients[j].unflushed;
      assert b in t.clients[j].unflushed;
    }
  }

  /** Fetched contents stay good if nothing was written and no page became unflushed. */
  lemma FetchedAfter<C>(racy: iset<nat>, s: System<C>, t: System<C>, i: nat)
    requires Fresh(racy, s) && i < |s.clients| == |t.clients| && t.clients == s.clients[i := t.clients[i]]
    requires t.latest == s.latest && t.clients[i].unflushed.Keys <= s.clients[i].unflushed.Keys
    requires Fetched(racy, s, t.clients[i].fetches)
    ensures forall k :: 0 <= k < |t.clients| ==> Fetched(racy, t, t.clients[k].fetches)
  {
    forall b: nat | !Unflushed(s.clients, b)
      ensures !Unflushed(t.clients, b)
    {
      assert forall j :: 0 <= j < |t.clients| ==> t.clients[j].unflushed.Keys <= s.clients[j].unflushed.Keys;
    }
    forall k | 0 <= k < |t.clients|
      ensures Fetched(racy, t, t.clients[k].fetches)
    {
      assert Fetched(racy, s, t.clients[k].fetches);
    }
  }

  /** Hits and stores: one reference more, and the content is the latest, unless the page is racy. */
  lemma PutKeeps<C>(racy: iset<nat>, s: System<C>, t: System<C>, i: nat, b: nat, value: C)
    requires Coherent(racy, s) && i < |s.clients| && b < |s.disk| && (b in racy || value == s.latest[b])
    requires |t.clients| == |s.clients|
    requires MovesTo(s, t, i, s.cache[b := Item(value, Refs(s.cache, b) + 1)], t.clients[i])
    requires t.clients[i].readRefs == s.clients[i].readRefs + multiset{b}
    requires t.clients[i].writeRefs == s.clients[i].writeRefs && t.clients[i].unflushed == s.clients[i].unflushed
    requires Fetched(racy, s, t.clients[i].fetches)
    ensures Coherent(racy, t)
  {
    hide Total, Owned, Unflushed, Fetched;
    assert t.clients == s.clients[i := t.clients[i]];
    assert Counted(t.cache, t.clients) by { CountedAfter(s, t, i); }
    OwnedAfter(s, t, i);
    FetchedAfter(racy, s, t, i);
    hide Counted;
    forall b: nat
      ensures Unflushed(t.clients, b) <==> Unflushed(s.clients, b)
    {
      SameUnflushed(s, t, i, b);
    }
  }

  /** Misses and reads of the file. */
  lemma FetchKeeps<C>(racy: iset<nat>, s: System<C>, t: System<C>, i: nat)
    requires Coherent(racy, s) && i < |s.clients| == |t.clients|
    requires MovesTo(s, t, i, s.cache, s.clients[i].(fetches := t.clients[i].fetches))
    requires Fetched(racy, s, t.clients[i].fetches)
    ensures Coherent(racy, t)
  {
    hide Total, Owned, Unflushed, Fetched;
    assert t.clients == s.clients[i := t.clients[i]];
    assert Counted(t.cache, t.clients) by { CountedAfter(s, t, i); }
    OwnedAfter(s, t, i);
    FetchedAfter(racy, s, t, i);
    hide Counted;
    forall b: nat
      ensures Unflushed(t.clients, b) <==> Unflushed(s.clients, b)
    {
      SameUnflushed(s, t, i, b);
    }
  }

  lemma ReadKeeps<C>(racy: iset<nat>, s: System<C>, t: System<C>, i: nat, b: nat)
    requires Coherent(racy, s) && ReadStep(s, t, i, b)
    ensures Coherent(racy, t)
  {
    hide Total, Owned, Unflushed, Counted;
    var c := s.clients[i];
    assert Fetched(racy, s, c.fetches);
    if HitStep(s, t, i, b) {
      PutKeeps(racy, s, t, i, b, s.cache[b].content);
    } else if MissStep(s, t, i, b) {
      if Unflushed(s.clients, b) {
        UnflushedCached(s, b);
      }
      FetchKeeps(racy, s, t, i);
    } else if LoadStep(s, t, i, b) {
      FetchKeeps(racy, s, t, i);
    } else {
      PutKeeps(racy, s, t, i, c.fetches[0].block, c.fetches[0].read.value);
    }
  }

  lemma DerefKeeps<C>(racy: iset<nat>, s: System<C>, t: System<C>, i: nat, ofReads: bool)
    requires Coherent(racy, s) && DerefStep(s, t, i, ofReads)
    ensures Coherent(racy, t)
  {
    hide Total, Owned, Unflushed, Fetched;
    assert t.clients == s.clients[i := t.clients[i]];
    CountedAfter(s, t, i);
    OwnedAfter(s, t, i);
    FetchedAfter(racy, s, t, i);
    hide Positive, Added, Counted;
    forall b: nat
      ensures Unflushed(t.clients, b) <==> Unflushed(s.clients, b)
    {
      SameUnflushed(s, t, i, b);
    }
  }

  lemma FlushKeeps<C>(racy: iset<nat>, s: System<C>, t: System<C>, i: nat)
    requires Coherent(racy, s) && FlushStep(s, t, i)
    ensures Coherent(racy, t)
  {
    hide Total, Fetched;
    assert t.clients == s.clients[i := t.clients[i]];
    CountedAfter(s, t, i);
    OwnedAfter(s, t, i);
    FetchedAfter(racy, s, t, i);
    assert Ready(s.clients[i], s.latest);
    forall b: nat | b < |s.disk| && !Unflushed(t.clients, b)
      ensures t.disk[b] == t.latest[b]
    {
      if b !in s.clients[i].unflushed {
        StillUnflushed(s, t, i, b);
      }
    }
  }

  lemma WriteOwned<C>(racy: iset<nat>, s: System<C>, t: System<C>, i: nat, writes: map<nat, C>)
    requires Owned(s) && WriteStep(racy, s, t, i, writes)
    ensures Owned(t)
  {
    hide Added, Positive, Total, Fetching;
    forall k | 0 <= k < |t.clients| && k != i
      ensures t.clients[k] == s.clients[k] && Ready(t.clients[k], t.latest)
      ensures t.clients[k].unflushed.Keys !! writes.Keys
    {
      assert Ready(s.clients[k], s.latest);
      assert forall b :: b in s.clients[k].unflushed ==> Unflushed(s.clients, b);
    }
    assert Ready(t.clients[i], t.latest);
    forall k, j | 0 <= k < |t.clients| && 0 <= j < |t.clients| && k != j
      ensures Apart(t.clients[k], t.clients[j])
    {
      assert Apart(s.clients[k], s.clients[j]);
    }
  }

  /** A write spares the pages being fetched, or they are racy. */
  lemma WriteFetched<C>(racy: iset<nat>, s: System<C>, t: System<C>, i: nat, writes: map<nat, C>, k: nat)
    requires Fresh(racy, s) && WriteStep(racy, s, t, i, writes) && k < |t.clients|
    ensures Fetched(racy, t, t.clients[k].fetches)
  {
    hide Added, Positive, Total;
    if k != i {
      var fs := s.clients[k].fetches;
      assert t.clients[k] == s.clients[k] && Fetched(racy, s, fs);
      forall j | 0 <= j < |fs| && fs[j].block !in racy
        ensures fs[j].block !in writes && !Unflushed(t.clients, fs[j].block)
      {
        assert Fetches(s.clients[k], fs[j].block);
        assert Fetching(s.clients, fs[j].block);
        assert forall h :: 0 <= h < |t.clients| && h != i ==> t.clients[h] == s.clients[h];
      }
    }
  }

  lemma WriteFresh<C>(racy: iset<nat>, s: System<C>, t: System<C>, i: nat, writes: map<nat, C>)
    requires Fresh(racy, s) && WriteStep(racy, s, t, i, writes)
    ensures Fresh(racy, t)
  {
    hide Added, Positive, Total, Fetched, Fetching;
    forall b: nat | b < |s.disk| && !Unflushed(t.clients, b)
      ensures t.disk[b] == t.latest[b]
    {
      assert b !in t.clients[i].unflushed;
      StillUnflushed(s, t, i, b);
    }
    forall k | 0 <= k < |t.clients|
      ensures Fetched(racy, t, t.clients[k].fetches)
    {
      WriteFetched(racy, s, t, i, writes, k);
    }
  }

  lemma WriteKeeps<C>(racy: iset<nat>, s: System<C>, t: System<C>, i: nat, writes: map<nat, C>)
    requires Coherent(racy, s) && WriteStep(racy, s, t, i, writes)
    ensures Coherent(racy, t)
  {
    hide Total, Owned, Fresh, Unflushed, Fetching;
    assert t.clients == s.clients[i := t.clients[i]];
    CountedAfter(s, t, i);
    WriteOwned(racy, s, t, i, writes);
    WriteFresh(racy, s, t, i, writes);
  }

  lemma NextKeeps<C(!new)>(racy: iset<nat>, s: System<C>, t: System<C>)
    requires Coherent(racy, s) && Next(racy, s, t)
    ensures Coherent(racy, t)
  {
    hide Coherent, ReadStep, WriteStep, FlushStep, DerefStep;
    if i, b :| ReadStep(s, t, i, b) {
      ReadKeeps(racy, s, t, i, b);
    } else if i, writes :| WriteStep(racy, s, t, i, writes) {
      WriteKeeps(racy, s, t, i, writes);
    } else if i :| FlushStep(s, t, i) {
      FlushKeeps(racy, s, t, i);
    } else {
      var i, ofReads :| DerefStep(s, t, i, ofReads);
      DerefKeeps(racy, s, t, i, ofReads);
    }
  }

  ghost function Idle<C>(): Client<C> {
    Client(multiset{}, multiset{}, map[], [])
  }

  ghost predicate Start<C>(s: System<C>) {
    s.cache == map[] && s.latest == s.disk && forall i :: 0 <= i < |s.clients| ==> s.clients[i] == Idle()
  }

  /** A run in which only racy pages are written while someone fetches them. */
  ghost predicate Run<C(!new)>(racy: iset<nat>, states: seq<System<C>>) {
    && states != [] && Start(states[0])
    && forall k :: 0 < k < |states| ==> Next(racy, states[k - 1], states[k])
  }

  lemma {:induction false} TotalNone<C>(clients: seq<Client<C>>, b: nat)
    requires forall i :: 0 <= i < |clients| ==> clients[i] == Idle()
    ensures Total(clients, b) == 0
  {
    if clients != [] {
      TotalNone(clients[..|clients| - 1], b);
    }
  }

  /** In every state of every run, whatever the clients do and in whatever order, the cache is coherent on every page
      that is not racy, and the counts are exact on all pages. */
  lemma {:induction false} AlwaysCoherent<C(!new)>(racy: iset<nat>, states: seq<System<C>>, k: nat)
    requires Run(racy, states) && k < |states|
    ensures Coherent(racy, states[k])
  {
    if k == 0 {
      forall b: nat
        ensures Total(states[0].clients, b) == 0
      {
        TotalNone(states[0].clients, b);
      }
    } else {
      AlwaysCoherent(racy, states, k - 1);
      hide Coherent, Next;
      NextKeeps(racy, states[k - 1], states[k]);
    }
  }

  /** In all states, reading page b through the cache gives what was last written to it. */
  ghost predicate LatestIn<C(!new)>(states: seq<System<C>>, b: nat) {
    forall k :: 0 <= k < |states| ==> LatestAt(states[k], b)
  }

  ghost predicate LatestAt<C>(s: System<C>, b: nat) {
    b < |s.disk| && |s.disk| == |s.latest| ==> Content(s.cache, s.disk, b) == s.latest[b]
  }

  ghost function Waiting<C>(b: nat, read: Option<C>): Client<C> {
    Idle<C>().(fetches := [Fetch(b, read)])
  }

  ghost function Holding<C>(b: nat): Client<C> {
    Idle<C>().(readRefs := multiset{b})
  }

  ghost function Writing<C>(b: nat, y: C): Client<C> {
    Client(multiset{b}, multiset{b}, map[b := y], [])
  }

  lemma BothFetch<C(!new)>(racy: iset<nat>, s0: System<C>, s1: System<C>, s2: System<C>, s3: System<C>, s4: System<C>,
                           b: nat, x: C)
    requires s0 == System(map[], s0.disk, s0.disk, [Idle(), Idle()]) && b < |s0.disk| && s0.disk[b] == x
    requires s1 == s0.(clients := [Waiting(b, None), Idle()])
    requires s2 == s0.(clients := [Waiting(b, None), Waiting(b, None)])
    requires s3 == s0.(clients := [Waiting(b, Some(x)), Waiting(b, None)])
    requires s4 == s0.(clients := [Waiting(b, Some(x)), Waiting(b, Some(x))])
    ensures Next(racy, s0, s1) && Next(racy, s1, s2) && Next(racy, s2, s3) && Next(racy, s3, s4)
  {
    var none: seq<Fetch<C>> := [];
    assert none + [Fetch(b, None)] == [Fetch(b, None)];
    assert [Fetch(b, None)][0 := Fetch(b, Some(x))] == [Fetch(b, Some(x))];
    assert MissStep(s0, s1, 0, b);
    assert MissStep(s1, s2, 1, b);
    assert LoadStep(s2, s3, 0, 0);
    assert LoadStep(s3, s4, 1, 0);
    assert ReadStep(s0, s1, 0, b) && ReadStep(s1, s2, 1, b) && ReadStep(s2, s3, 0, 0) && ReadStep(s3, s4, 1, 0);
  }

  lemma OneWrites<C(!new)>(racy: iset<nat>, s4: System<C>, s5: System<C>, s6: System<C>, s7: System<C>, b: nat, x: C,
                           y: C)
    requires b in racy && b < |s4.disk|
    requires s4 == System(map[], s4.disk, s4.disk, [Waiting(b, Some(x)), Waiting(b, Some(x))])
    requires s5 == System(map[b := Item(x, 1)], s4.disk, s4.disk, [Waiting(b, Some(x)), Holding(b)])
    requires s6 == System(map[b := Item(y, 2)], s4.disk, s4.disk[b := y], [Waiting(b, Some(x)), Writing(b, y)])
    requires s7 == System(map[b := Item(x, 3)], s4.disk, s4.disk[b := y], [Holding(b), Writing(b, y)])
    ensures Next(racy, s4, s5) && Next(racy, s5, s6) && Next(racy, s6, s7)
  {
    assert [Fetch(b, Some(x))][1..] == [] && multiset{} + multiset{b} == multiset{b};
    var none: Cache<C>, one := map[], map[b := y];
    assert none[b := Item(x, 1)] == map[b := Item(x, 1)];
    assert map[b := Item(y, 2)][b := Item(x, 3)] == map[b := Item(x, 3)];
    assert one.Keys == {b} && multiset(one.Keys) == multiset{b};
    assert StoreStep(s4, s5, 1);
    assert WriteStep(racy, s5, s6, 1, one);
    assert StoreStep(s6, s7, 0);
    assert ReadStep(s4, s5, 1, 0) && ReadStep(s6, s7, 0, 0);
  }

  /** Two inserts read a page that is not cached; one of them writes it before the other's put, which brings the old
      content back. */
  lemma LostWrite<C(!new)>(racy: iset<nat>, b: nat, x: C, y: C) returns (states: seq<System<C>>)
    requires b in racy && x != y
    ensures Run(racy, states) && !LatestIn(states, b)
  {
    hide Next;
    var disk := seq(b + 1, _ => x);
    var idle: Client<C>, missed, loaded := Idle(), Waiting(b, None), Waiting(b, Some(x));
    var stored, wrote := Holding(b), Writing(b, y);
    var s0 := System(map[], disk, disk, [idle, idle]);
    var s1 := s0.(clients := [missed, idle]);
    var s2 := s0.(clients := [missed, missed]);
    var s3 := s0.(clients := [loaded, missed]);
    var s4 := s0.(clients := [loaded, loaded]);
    var s5 := System(map[b := Item(x, 1)], disk, disk, [loaded, stored]);
    var s6 := System(map[b := Item(y, 2)], disk, disk[b := y], [loaded, wrote]);
    var s7 := System(map[b := Item(x, 3)], disk, disk[b := y], [stored, wrote]);
    states := [s0, s1, s2, s3, s4, s5, s6, s7];
    BothFetch(racy, s0, s1, s2, s3, s4, b, x);
    OneWrites(racy, s4, s5, s6, s7, b, x, y);
    assert Next(racy, states[3], states[4]) && Next(racy, states[5], states[6]);
    assert !LatestAt(states[7], b);
  }

  /** Reads of a page give its latest content in every run if and only if the page is never written while someone
      fetches it. The page locks alone leave every page racy. */
  lemma LatestExactly<C(!new)>(racy: iset<nat>, b: nat, x: C, y: C)
    requires x != y
    ensures (forall states: seq<System<C>> :: Run(racy, states) ==> LatestIn(states, b)) <==> b !in racy
  {
    if b in racy {
      var states := LostWrite(racy, b, x, y);
    } else {
      forall states: seq<System<C>> | Run(racy, states)
        ensures LatestIn(states, b)
      {
        forall k | 0 <= k < |states|
          ensures LatestAt(states[k], b)
        {
          AlwaysCoherent(racy, states, k);
          if b < |states[k].disk| {
            ReadsLatest(racy, states[k], b);
          }
        }
      }
    }
  }

  /** A client may always give back what it holds: the counts suffice. */
  lemma DerefAllowed<C>(racy: iset<nat>, s: System<C>, i: nat, b: nat)
    requires Coherent(racy, s) && i < |s.clients|
    ensures s.clients[i].readRefs[b] <= Refs(s.cache, b) && s.clients[i].writeRefs[b] <= Refs(s.cache, b)
  {
    HeldInTotal(s.clients, i, b);
  }

  lemma AddedNone<C>(c: Cache<C>)
    ensures Added(c, c, multiset{})
  {
  }

  lemma AddedTwice<C>(a: Cache<C>, b: Cache<C>, c: Cache<C>, disk: seq<C>, m: multiset<nat>, n: multiset<nat>)
    requires Added(a, b, m) && Added(b, c, n) && SameContent(a, b, disk) && SameContent(b, c, disk)
    ensures Added(a, c, m + n) && SameContent(a, c, disk)
  {
  }

  lemma StillReferenced<C>(before: Cache<C>, c: Cache<C>, given: multiset<nat>, b: nat)
    requires Added(c, before, given) && given[b] + 1 <= Refs(before, b)
    ensures b in c
  {
  }

  lemma TakenNone<C>(c: Cache<C>, disk: seq<C>)
    requires Positive(c)
    ensures Taken(c, c, disk, multiset{}, [], multiset([]))
  {
  }

  lemma TakenAll<C>(c0: Cache<C>, c: Cache<C>, disk: seq<C>, hits: multiset<nat>, missing: seq<nat>,
                    done: multiset<nat>)
    requires Taken(c0, c, disk, hits, missing, done)
    ensures hits + multiset(missing) == done && Positive(c) && Added(c0, c, hits) && SameContent(c0, c, disk)
    ensures forall j :: 0 <= j < |missing| ==> missing[j] < |disk| && missing[j] !in c
  {
  }
}
