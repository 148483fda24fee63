/** The updatable disk index: insert_in_place writes the new record and relocates every chosen neighbour,
    so that no live record is ever overwritten in place. */
module SsdIndexModel {
  import opened Counting
  import opened PageLayout
  import opened PageAllocator
  import opened Pruning
  import opened InsertBuffers

  /** Between inserts, id -> location and location -> id are inverse to each other and no slot is left allocated. */
  ghost predicate MapsInverse(nn: nat, layout: Layout, id2loc: map<nat, nat>)
    requires 1 <= nn
  {
    && (forall id :: id in id2loc ==> SlotAt(nn, layout, id2loc[id]) == Holds(id))
    && (forall x: nat :: SlotAt(nn, layout, x) != Free ==>
          && SlotAt(nn, layout, x).Holds? && SlotAt(nn, layout, x).id in id2loc
          && id2loc[SlotAt(nn, layout, x).id] == x)
  }

  /** Every live record's page is stored. */
  ghost predicate PagesStored<V>(nn: nat, disk: map<nat, Page<V>>, id2loc: map<nat, nat>)
    requires 1 <= nn
  {
    forall id :: id in id2loc ==>
      LocSectorNo(nn, id2loc[id]) in disk && |disk[LocSectorNo(nn, id2loc[id])]| == nn
  }

  /** The record a live id reads back. */
  ghost function RecordOf<V>(nn: nat, disk: map<nat, Page<V>>, id2loc: map<nat, nat>, id: nat): Record<V>
    requires 1 <= nn && id in id2loc && PagesStored(nn, disk, id2loc)
  {
    disk[LocSectorNo(nn, id2loc[id])][LocOffset(nn, id2loc[id])]
  }

  /** A chosen neighbour keeps its coordinates and gets its relinked list. */
  ghost predicate Relinked<V>(ps: Settings, id: nat, target: nat, before: Record<V>, after: Record<V>) {
    after.coords == before.coords && RelinkedList(ps, id, before.nbrs, target, after.nbrs)
  }

  /** What an insert of `target` promises about the stored records. */
  ghost predicate InsertEffect<V>(nn: nat, ps: Settings, disk: map<nat, Page<V>>, disk': map<nat, Page<V>>,
                                  id2loc: map<nat, nat>, id2loc': map<nat, nat>, target: nat, point: V, nhood: seq<nat>)
    requires 1 <= nn && PagesStored(nn, disk, id2loc)
  {
    && PagesStored(nn, disk', id2loc')
    && (forall id :: id in id2loc' <==> id in id2loc || id == target)
    && target !in id2loc && RecordOf(nn, disk', id2loc', target) == Record(point, nhood)
    && (forall id :: id in id2loc && id !in nhood ==>
          id2loc'[id] == id2loc[id] && RecordOf(nn, disk', id2loc', id) == RecordOf(nn, disk, id2loc, id))
    && (forall id :: id in id2loc && id in nhood ==>
          Relinked(ps, id, target, RecordOf(nn, disk, id2loc, id), RecordOf(nn, disk', id2loc', id)))
  }

  /** The first m chosen neighbours have their new records in the buffers. */
  ghost predicate RelinkedTo<V>(nn: nat, ps: Settings, bufs: seq<Page<V>>, bufs': seq<Page<V>>, bufOf: map<nat, nat>,
                                id2loc: map<nat, nat>, nhood: seq<nat>, locs: seq<nat>, target: nat, m: nat)
    requires 1 <= nn && CellsOk(nn, bufs, bufOf) && CellsOk(nn, bufs', bufOf) && m <= |nhood| <= |locs|
    requires forall k :: 0 <= k < |locs| ==> LocSectorNo(nn, locs[k]) in bufOf
    requires forall i :: 0 <= i < |nhood| ==> nhood[i] in id2loc && LocSectorNo(nn, id2loc[nhood[i]]) in bufOf
  {
    forall k :: 0 <= k < m ==>
      Relinked(ps, nhood[k], target, Cell(nn, bufs, bufOf, id2loc[nhood[k]]), Cell(nn, bufs', bufOf, locs[k]))
  }

  lemma RelinkedNone<V>(nn: nat, ps: Settings, bufs: seq<Page<V>>, bufs': seq<Page<V>>, bufOf: map<nat, nat>,
                        id2loc: map<nat, nat>, nhood: seq<nat>, locs: seq<nat>, target: nat)
    requires 1 <= nn && CellsOk(nn, bufs, bufOf) && CellsOk(nn, bufs', bufOf) && |nhood| <= |locs|
    requires forall k :: 0 <= k < |locs| ==> LocSectorNo(nn, locs[k]) in bufOf
    requires forall i :: 0 <= i < |nhood| ==> nhood[i] in id2loc && LocSectorNo(nn, id2loc[nhood[i]]) in bufOf
    ensures RelinkedTo(nn, ps, bufs, bufs', bufOf, id2loc, nhood, locs, target, 0)
  {
  }

  lemma RelinkedNext<V>(nn: nat, ps: Settings, bufs: seq<Page<V>>, was: seq<Page<V>>, bufs': seq<Page<V>>,
                        bufOf: map<nat, nat>, id2loc: map<nat, nat>, nhood: seq<nat>, locs: seq<nat>, target: nat,
                        m: nat)
    requires 1 <= nn && CellsOk(nn, bufs, bufOf) && CellsOk(nn, was, bufOf) && CellsOk(nn, bufs', bufOf)
    requires m < |nhood| <= |locs| && Distinct(locs)
    requires forall k :: 0 <= k < |locs| ==> LocSectorNo(nn, locs[k]) in bufOf
    requires forall i :: 0 <= i < |nhood| ==> nhood[i] in id2loc && LocSectorNo(nn, id2loc[nhood[i]]) in bufOf
    requires RelinkedTo(nn, ps, bufs, was, bufOf, id2loc, nhood, locs, target, m)
    requires forall x: nat :: x != locs[m] && LocSectorNo(nn, x) in bufOf ==>
               Cell(nn, bufs', bufOf, x) == Cell(nn, was, bufOf, x)
    requires Relinked(ps, nhood[m], target, Cell(nn, bufs, bufOf, id2loc[nhood[m]]), Cell(nn, bufs', bufOf, locs[m]))
    ensures RelinkedTo(nn, ps, bufs, bufs', bufOf, id2loc, nhood, locs, target, m + 1)
  {
    hide LocSectorNo, LocOffset, Relinked, Cell;
  }

  /** Rewrite the neighbour records into the buffers of their new pages, next to the new record. */
  method UpdateRecords<V>(nn: nat, n: nat, rmw: seq<nat>, bufs: seq<Page<V>>, bufOf: map<nat, nat>,
                          id2loc: map<nat, nat>, nhood: seq<nat>, locs: seq<nat>, target: nat, point: V, ps: Settings)
    returns (bufs': seq<Page<V>>)
    requires 1 <= nn && BuffersOk(nn, n, rmw, bufs, bufOf) && |locs| == |nhood| + 1
    requires Distinct(locs)
    requires forall k :: 0 <= k < |locs| ==> LocSectorNo(nn, locs[k]) in bufOf
    requires forall i :: 0 <= i < |nhood| ==>
               nhood[i] in id2loc && LocSectorNo(nn, id2loc[nhood[i]]) in bufOf && id2loc[nhood[i]] !in locs
    ensures |bufs'| == |bufs| && BuffersOk(nn, n, rmw, bufs', bufOf)
    ensures Cell(nn, bufs', bufOf, locs[|nhood|]) == Record(point, nhood)
    ensures CellsOk(nn, bufs, bufOf) && CellsOk(nn, bufs', bufOf)
    ensures RelinkedTo(nn, ps, bufs, bufs', bufOf, id2loc, nhood, locs, target, |nhood|)
    ensures forall x: nat :: LocSectorNo(nn, x) in bufOf && x !in locs ==>
              Cell(nn, bufs', bufOf, x) == Cell(nn, bufs, bufOf, x)
  {
    hide LocSectorNo, LocOffset, Relinked, BuffersOk, RelinkedTo;
    BuffersUse(nn, n, rmw, bufs, bufOf);
    bufs' := WriteCell(nn, n, rmw, bufs, bufOf, locs[|nhood|], Record(point, nhood));
    BuffersUse(nn, n, rmw, bufs', bufOf);
    RelinkedNone(nn, ps, bufs, bufs', bufOf, id2loc, nhood, locs, target);
    for i := 0 to |nhood|
      invariant |bufs'| == |bufs| && BuffersOk(nn, n, rmw, bufs', bufOf)
      invariant CellsOk(nn, bufs', bufOf)
      invariant Cell(nn, bufs', bufOf, locs[|nhood|]) == Record(point, nhood)
      invariant RelinkedTo(nn, ps, bufs, bufs', bufOf, id2loc, nhood, locs, target, i)
      invariant forall x: nat :: LocSectorNo(nn, x) in bufOf && x !in locs ==>
                  Cell(nn, bufs', bufOf, x) == Cell(nn, bufs, bufOf, x)
    {
      var id := nhood[i];
      var rLoc := id2loc[id];
      var node := bufs'[bufOf[LocSectorNo(nn, rLoc)]][LocOffset(nn, rLoc)];
      var list := Relink(ps, id, node.nbrs, target);
      RelinkedBy(ps, id, target, node, list);
      ghost var was := bufs';
      bufs' := WriteCell(nn, n, rmw, bufs', bufOf, locs[i], Record(node.coords, list));
      BuffersUse(nn, n, rmw, bufs', bufOf);
      RelinkedNext(nn, ps, bufs, was, bufs', bufOf, id2loc, nhood, locs, target, i);
    }
  }

  lemma RelinkedBy<V>(ps: Settings, id: nat, target: nat, node: Record<V>, list: seq<nat>)
    requires RelinkedList(ps, id, node.nbrs, target, list)
    ensures Relinked(ps, id, target, node, Record(node.coords, list))
  {
  }

  /** All cells of buffered pages can be read. */
  ghost predicate CellsOk<V>(nn: nat, bufs: seq<Page<V>>, bufOf: map<nat, nat>) {
    forall p :: p in bufOf ==> bufOf[p] < |bufs| && |bufs[bufOf[p]]| == nn
  }

  lemma BuffersUse<V>(nn: nat, n: nat, rmw: seq<nat>, bufs: seq<Page<V>>, bufOf: map<nat, nat>)
    requires BuffersOk(nn, n, rmw, bufs, bufOf)
    ensures CellsOk(nn, bufs, bufOf)
  {
  }

  /** id2loc after an insert: the target and its neighbours are at the new locations. */
  ghost predicate Remapped(id2loc: map<nat, nat>, id2loc': map<nat, nat>, nhood: seq<nat>, target: nat,
                           locs: seq<nat>) {
    && |locs| == |nhood| + 1
    && (forall id :: id in id2loc' <==> id in id2loc || id == target)
    && id2loc'[target] == locs[|nhood|]
    && (forall i :: 0 <= i < |nhood| ==> nhood[i] in id2loc' && id2loc'[nhood[i]] == locs[i])
    && (forall id :: id in id2loc && id !in nhood && id != target ==> id2loc'[id] == id2loc[id])
  }

  /** The page buffers once loaded: pages that hold a live record are as on disk. */
  ghost predicate BuffersLoaded<V>(nn: nat, disk: map<nat, Page<V>>, id2loc: map<nat, nat>, bufs: seq<Page<V>>,
                                   bufOf: map<nat, nat>)
    requires 1 <= nn && CellsOk(nn, bufs, bufOf) && PagesStored(nn, disk, id2loc)
  {
    forall id :: id in id2loc && LocSectorNo(nn, id2loc[id]) in bufOf ==>
      Cell(nn, bufs, bufOf, id2loc[id]) == RecordOf(nn, disk, id2loc, id)
  }

  /** A page with a live record that is about to be rewritten is always among those read first. */
  lemma LoadedPages<V>(nn: nat, l0: Layout, disk: map<nat, Page<V>>, id2loc: map<nat, nat>, locs: seq<nat>,
                       need: set<nat>, rmw: seq<nat>, bufs: seq<Page<V>>, bufOf: map<nat, nat>)
    requires 1 <= nn && MapsInverse(nn, l0, id2loc) && PagesStored(nn, disk, id2loc) && CellsOk(nn, bufs, bufOf)
    requires forall p :: p in rmw ==> exists k :: 0 <= k < |locs| && LocSectorNo(nn, locs[k]) == p
    requires forall x :: x in locs ==> (LocSectorNo(nn, x) in need <==> !PageFree(l0, LocSectorNo(nn, x)))
    requires forall p :: p in bufOf && (p !in rmw || p in need) ==> p in disk && bufs[bufOf[p]] == disk[p]
    ensures BuffersLoaded(nn, disk, id2loc, bufs, bufOf)
  {
    forall id | id in id2loc && LocSectorNo(nn, id2loc[id]) in bufOf
      ensures Cell(nn, bufs, bufOf, id2loc[id]) == RecordOf(nn, disk, id2loc, id)
    {
      var p := LocSectorNo(nn, id2loc[id]);
      Resident(nn, l0, id2loc, id);
      if p in rmw {
        var k :| 0 <= k < |locs| && LocSectorNo(nn, locs[k]) == p;
        assert locs[k] in locs;
      }
    }
  }

  lemma Resident(nn: nat, layout: Layout, id2loc: map<nat, nat>, id: nat)
    requires 1 <= nn && MapsInverse(nn, layout, id2loc) && id in id2loc
    ensures !PageFree(layout, LocSectorNo(nn, id2loc[id]))
  {
    var x := id2loc[id];
    assert SlotAt(nn, layout, x) == Holds(id);
    assert layout[LocSectorNo(nn, x)][LocOffset(nn, x)] != Free;
  }

  /** Records of ids that are not relocated survive the page writes. */
  lemma Survives<V>(nn: nat, disk: map<nat, Page<V>>, disk': map<nat, Page<V>>, id2loc: map<nat, nat>, locs: seq<nat>,
                    rmw: seq<nat>, n: nat, bufs: seq<Page<V>>, bufs': seq<Page<V>>, bufOf: map<nat, nat>, id: nat)
    requires 1 <= nn && PagesStored(nn, disk, id2loc) && id in id2loc && id2loc[id] !in locs
    requires CellsOk(nn, bufs, bufOf) && CellsOk(nn, bufs', bufOf) && BuffersLoaded(nn, disk, id2loc, bufs, bufOf)
    requires n + |rmw| <= |bufs'| && (forall j :: 0 <= j < |rmw| ==> rmw[j] in bufOf && bufOf[rmw[j]] == n + j)
    requires forall x: nat :: LocSectorNo(nn, x) in bufOf && x !in locs ==>
               Cell(nn, bufs', bufOf, x) == Cell(nn, bufs, bufOf, x)
    requires forall j :: 0 <= j < |rmw| ==> rmw[j] in disk' && disk'[rmw[j]] == bufs'[n + j]
    requires forall p :: p in disk && p !in rmw ==> p in disk' && disk'[p] == disk[p]
    ensures var p := LocSectorNo(nn, id2loc[id]);
            p in disk' && |disk'[p]| == nn && disk'[p][LocOffset(nn, id2loc[id])] == RecordOf(nn, disk, id2loc, id)
  {
    var x := id2loc[id];
    var p := LocSectorNo(nn, x);
    if p in rmw {
      var j :| 0 <= j < |rmw| && rmw[j] == p;
      assert Cell(nn, bufs', bufOf, x) == Cell(nn, bufs, bufOf, x);
    }
  }

  /** A cell of a rewritten page is what the page store holds afterwards. */
  lemma WrittenCell<V>(nn: nat, disk': map<nat, Page<V>>, rmw: seq<nat>, n: nat, bufs': seq<Page<V>>,
                       bufOf: map<nat, nat>, x: nat)
    requires 1 <= nn && CellsOk(nn, bufs', bufOf) && LocSectorNo(nn, x) in rmw
    requires n + |rmw| <= |bufs'| && (forall j :: 0 <= j < |rmw| ==> rmw[j] in bufOf && bufOf[rmw[j]] == n + j)
    requires forall j :: 0 <= j < |rmw| ==> rmw[j] in disk' && disk'[rmw[j]] == bufs'[n + j]
    ensures var p := LocSectorNo(nn, x);
            p in bufOf && p in disk' && |disk'[p]| == nn && disk'[p][LocOffset(nn, x)] == Cell(nn, bufs', bufOf, x)
  {
    var j :| 0 <= j < |rmw| && rmw[j] == LocSectorNo(nn, x);
  }

  /** After alloc, remap and erase_and_set the two maps are inverse again. */
  lemma RemapInverse(nn: nat, l0: Layout, l1: Layout, l2: Layout, id2loc: map<nat, nat>, id2loc': map<nat, nat>,
                     nhood: seq<nat>, target: nat, locs: seq<nat>, origs: seq<nat>)
    requires 1 <= nn && MapsInverse(nn, l0, id2loc) && Allocates(nn, l0, l1, locs) && |locs| == |nhood| + 1
    requires target !in id2loc && forall i :: 0 <= i < |nhood| ==> nhood[i] in id2loc
    requires |origs| == |nhood| && forall i :: 0 <= i < |nhood| ==> origs[i] == id2loc[nhood[i]]
    requires Recorded(nn, l1, l2, locs, nhood + [target], origs)
    requires Remapped(id2loc, id2loc', nhood, target, locs)
    ensures MapsInverse(nn, l2, id2loc')
  {
    hide LocSectorNo, LocOffset, SlotAt;
    forall id | id in id2loc'
      ensures SlotAt(nn, l2, id2loc'[id]) == Holds(id)
    {
      if id == target {
        assert (nhood + [target])[|nhood|] == target;
      } else if id in nhood {
        var i :| 0 <= i < |nhood| && nhood[i] == id;
        assert (nhood + [target])[i] == id;
      } else {
        var x := id2loc[id];
        assert x !in locs;
        assert x !in origs by {
          assert SlotAt(nn, l0, x) == Holds(id);
          assert forall i :: 0 <= i < |origs| ==> SlotAt(nn, l0, origs[i]) == Holds(nhood[i]);
        }
      }
    }
    forall x: nat | SlotAt(nn, l2, x) != Free
      ensures SlotAt(nn, l2, x).Holds? && SlotAt(nn, l2, x).id in id2loc' && id2loc'[SlotAt(nn, l2, x).id] == x
    {
      if x in locs {
        var i :| 0 <= i < |locs| && locs[i] == x;
        assert SlotAt(nn, l2, x) == Holds((nhood + [target])[i]);
      } else if x !in origs {
        assert SlotAt(nn, l0, x).id !in nhood;
      }
    }
  }

  /** The slots an insert frees and binds are in the states erase_and_set_loc needs. */
  lemma InsertRecordable(nn: nat, l0: Layout, l1: Layout, id2loc: map<nat, nat>, nhood: seq<nat>, locs: seq<nat>,
                         origs: seq<nat>)
    requires 1 <= nn && MapsInverse(nn, l0, id2loc) && Allocates(nn, l0, l1, locs)
    requires Distinct(nhood) && forall i :: 0 <= i < |nhood| ==> nhood[i] in id2loc
    requires |origs| == |nhood| && forall i :: 0 <= i < |nhood| ==> origs[i] == id2loc[nhood[i]]
    ensures Distinct(locs) && Recordable(nn, l1, locs, origs)
    ensures forall id :: id in id2loc ==> id2loc[id] !in locs
  {
    hide LocSectorNo, LocOffset, SlotAt;
    assert forall i :: 0 <= i < |origs| ==> SlotAt(nn, l0, origs[i]) == Holds(nhood[i]);
    assert forall id :: id in id2loc ==> SlotAt(nn, l0, id2loc[id]) == Holds(id);
  }

  const MAX_N_EDGES: nat := 512

  /** Record stored at a location. */
  ghost predicate StoredAt<V>(nn: nat, disk: map<nat, Page<V>>, x: nat, rec: Record<V>)
    requires 1 <= nn
  {
    var p := LocSectorNo(nn, x);
    p in disk && |disk[p]| == nn && disk[p][LocOffset(nn, x)] == rec
  }

  /** The page writes of an insert: new contents at `locs`, and every record live before still stored where it was. */
  ghost predicate RewriteEffect<V>(nn: nat, ps: Settings, disk: map<nat, Page<V>>, disk': map<nat, Page<V>>,
                                   id2loc: map<nat, nat>, nhood: seq<nat>, locs: seq<nat>, target: nat, point: V)
    requires 1 <= nn && PagesStored(nn, disk, id2loc)
  {
    && |locs| == |nhood| + 1
    && StoredAt(nn, disk', locs[|nhood|], Record(point, nhood))
    && (forall i :: 0 <= i < |nhood| ==>
        nhood[i] in id2loc && NeighbourStored(nn, ps, disk, disk', id2loc, nhood[i], locs[i], target))
    && (forall id :: id in id2loc ==> StoredAt(nn, disk', id2loc[id], RecordOf(nn, disk, id2loc, id)))
  }

  ghost predicate NeighbourStored<V>(nn: nat, ps: Settings, disk: map<nat, Page<V>>, disk': map<nat, Page<V>>,
                                     id2loc: map<nat, nat>, id: nat, loc: nat, target: nat)
    requires 1 <= nn && PagesStored(nn, disk, id2loc) && id in id2loc
  {
    var p := LocSectorNo(nn, loc);
    && p in disk' && |disk'[p]| == nn
    && Relinked(ps, id, target, RecordOf(nn, disk, id2loc, id), disk'[p][LocOffset(nn, loc)])
  }

  lemma NeedStored<V>(nn: nat, l0: Layout, disk: map<nat, Page<V>>, id2loc: map<nat, nat>, locs: seq<nat>,
                      need: set<nat>, rmw: seq<nat>)
    requires 1 <= nn && MapsInverse(nn, l0, id2loc) && PagesStored(nn, disk, id2loc)
    requires forall p :: p in l0 ==> 1 <= p && |l0[p]| == nn
    requires forall p :: p in rmw ==> exists k :: 0 <= k < |locs| && LocSectorNo(nn, locs[k]) == p
    requires forall x :: x in locs ==> (LocSectorNo(nn, x) in need <==> !PageFree(l0, LocSectorNo(nn, x)))
    ensures forall p :: p in rmw && p in need ==> p in disk && |disk[p]| == nn
  {
    forall p | p in rmw && p in need
      ensures p in disk && |disk[p]| == nn
    {
      var k :| 0 <= k < |locs| && LocSectorNo(nn, locs[k]) == p;
      assert locs[k] in locs;
      var o :| 0 <= o < nn && l0[p][o] != Free;
      var x := SectorToLoc(nn, p, o);
      assert SlotAt(nn, l0, x) == l0[p][o];
    }
  }

  lemma EffectOf<V>(nn: nat, ps: Settings, disk: map<nat, Page<V>>, disk': map<nat, Page<V>>, id2loc: map<nat, nat>,
                    nhood: seq<nat>, locs: seq<nat>, target: nat, point: V, rmw: seq<nat>,
                    bufs: seq<Page<V>>, bufs': seq<Page<V>>, bufOf: map<nat, nat>)
    requires 1 <= nn && PagesStored(nn, disk, id2loc) && |locs| == |nhood| + 1
    requires forall k :: 0 <= k < |locs| ==> LocSectorNo(nn, locs[k]) in rmw
    requires forall i :: 0 <= i < |nhood| ==> nhood[i] in id2loc && LocSectorNo(nn, id2loc[nhood[i]]) in bufOf
    requires forall id :: id in id2loc ==> id2loc[id] !in locs
    requires CellsOk(nn, bufs, bufOf) && CellsOk(nn, bufs', bufOf) && BuffersLoaded(nn, disk, id2loc, bufs, bufOf)
    requires |nhood| + |rmw| <= |bufs'|
    requires (forall j :: 0 <= j < |rmw| ==> rmw[j] in bufOf && bufOf[rmw[j]] == |nhood| + j)
    requires forall k :: 0 <= k < |locs| ==> LocSectorNo(nn, locs[k]) in bufOf
    requires Cell(nn, bufs', bufOf, locs[|nhood|]) == Record(point, nhood)
    requires RelinkedTo(nn, ps, bufs, bufs', bufOf, id2loc, nhood, locs, target, |nhood|)
    requires forall x: nat :: LocSectorNo(nn, x) in bufOf && x !in locs ==>
               Cell(nn, bufs', bufOf, x) == Cell(nn, bufs, bufOf, x)
    requires forall j :: 0 <= j < |rmw| ==> rmw[j] in disk' && disk'[rmw[j]] == bufs'[|nhood| + j]
    requires forall p :: p in disk && p !in rmw ==> p in disk' && disk'[p] == disk[p]
    ensures RewriteEffect(nn, ps, disk, disk', id2loc, nhood, locs, target, point)
  {
    hide Relinked, LocSectorNo, LocOffset;
    var n := |nhood|;
    WrittenCell(nn, disk', rmw, n, bufs', bufOf, locs[n]);
    forall i | 0 <= i < n
      ensures NeighbourStored(nn, ps, disk, disk', id2loc, nhood[i], locs[i], target)
    {
      WrittenCell(nn, disk', rmw, n, bufs', bufOf, locs[i]);
    }
    forall id | id in id2loc
      ensures StoredAt(nn, disk', id2loc[id], RecordOf(nn, disk, id2loc, id))
    {
      Survives(nn, disk, disk', id2loc, locs, rmw, n, bufs, bufs', bufOf, id);
    }
  }

  /** id2loc_.insert_or_assign for the target and every neighbour. */
  method Remap(id2loc: map<nat, nat>, nhood: seq<nat>, target: nat, locs: seq<nat>) returns (id2loc': map<nat, nat>)
    requires |locs| == |nhood| + 1 && Distinct(nhood) && target !in nhood
    requires forall i :: 0 <= i < |nhood| ==> nhood[i] in id2loc
    ensures Remapped(id2loc, id2loc', nhood, target, locs)
  {
    id2loc' := id2loc[target := locs[|nhood|]];
    for i := 0 to |nhood|
      invariant forall id :: id in id2loc' <==> id in id2loc || id == target
      invariant id2loc'[target] == locs[|nhood|]
      invariant forall k :: 0 <= k < i ==> id2loc'[nhood[k]] == locs[k]
      invariant forall id :: id in id2loc && id !in nhood && id != target ==> id2loc'[id] == id2loc[id]
    {
      assert nhood[i] in nhood;
      id2loc' := id2loc'[nhood[i] := locs[i]];
    }
  }

  lemma InsertEffectOf<V>(nn: nat, ps: Settings, disk: map<nat, Page<V>>, disk': map<nat, Page<V>>,
                          id2loc: map<nat, nat>, id2loc': map<nat, nat>, nhood: seq<nat>, locs: seq<nat>, target: nat,
                          point: V)
    requires 1 <= nn && PagesStored(nn, disk, id2loc) && target !in id2loc
    requires RewriteEffect(nn, ps, disk, disk', id2loc, nhood, locs, target, point)
    requires Remapped(id2loc, id2loc', nhood, target, locs)
    ensures InsertEffect(nn, ps, disk, disk', id2loc, id2loc', target, point, nhood)
    ensures PagesStored(nn, disk', id2loc') && forall id :: id in id2loc' <==> id in id2loc || id == target
  {
    hide Relinked, LocSectorNo, LocOffset;
    forall id | id in id2loc'
      ensures LocSectorNo(nn, id2loc'[id]) in disk' && |disk'[LocSectorNo(nn, id2loc'[id])]| == nn
    {
      if id in nhood {
        var i :| 0 <= i < |nhood| && nhood[i] == id;
        assert NeighbourStored(nn, ps, disk, disk', id2loc, nhood[i], locs[i], target);
      } else if id != target {
        assert StoredAt(nn, disk', id2loc[id], RecordOf(nn, disk, id2loc, id));
      }
    }
    forall id | id in id2loc && id in nhood
      ensures Relinked(ps, id, target, RecordOf(nn, disk, id2loc, id), RecordOf(nn, disk', id2loc', id))
    {
      var i :| 0 <= i < |nhood| && nhood[i] == id;
      assert NeighbourStored(nn, ps, disk, disk', id2loc, nhood[i], locs[i], target);
    }
  }

  /** Load, update and write back the pages of an insert. */
  method RewritePages<V>(nn: nat, disk: map<nat, Page<V>>, id2loc: map<nat, nat>, nhood: seq<nat>, locs: seq<nat>,
                         need: set<nat>, target: nat, point: V, stale: seq<Page<V>>, ps: Settings, ghost l0: Layout)
    returns (disk': map<nat, Page<V>>)
    requires 1 <= nn && MapsInverse(nn, l0, id2loc) && PagesStored(nn, disk, id2loc) && |locs| == |nhood| + 1
    requires Distinct(locs)
    requires forall p :: p in l0 ==> 1 <= p && |l0[p]| == nn
    requires |nhood| < MAX_N_EDGES && |stale| == 2 * MAX_N_EDGES + 1
    requires forall b :: 0 <= b < |stale| ==> |stale[b]| == nn
    requires forall i :: 0 <= i < |nhood| ==> nhood[i] in id2loc
    requires forall id :: id in id2loc ==> id2loc[id] !in locs
    requires forall x :: x in locs ==> (LocSectorNo(nn, x) in need <==> !PageFree(l0, LocSectorNo(nn, x)))
    ensures RewriteEffect(nn, ps, disk, disk', id2loc, nhood, locs, target, point)
  {
    hide LocSectorNo, LocOffset, MapsInverse, PagesStored, BuffersOk, Coalesced, Relinked, RewriteEffect,
         BuffersLoaded, Distinct;
    var n := |nhood|;
    var rmw, bufs, bufOf := LoadForInsert(nn, disk, id2loc, nhood, locs, need, stale, l0);
    var bufs' := UpdateRecords(nn, n, rmw, bufs, bufOf, id2loc, nhood, locs, target, point, ps);
    BuffersUse(nn, n, rmw, bufs', bufOf);
    var reqs, starts := CoalesceWrites(rmw, n);
    disk' := WritePages(disk, reqs, bufs', starts, rmw, n);
    EffectOf(nn, ps, disk, disk', id2loc, nhood, locs, target, point, rmw, bufs, bufs', bufOf);
  }

  /** Work out the pages to rewrite and fill the page buffers. */
  method LoadForInsert<V>(nn: nat, disk: map<nat, Page<V>>, id2loc: map<nat, nat>, nhood: seq<nat>, locs: seq<nat>,
                          need: set<nat>, stale: seq<Page<V>>, ghost l0: Layout)
    returns (rmw: seq<nat>, bufs: seq<Page<V>>, bufOf: map<nat, nat>)
    requires 1 <= nn && MapsInverse(nn, l0, id2loc) && PagesStored(nn, disk, id2loc) && |locs| == |nhood| + 1
    requires forall p :: p in l0 ==> 1 <= p && |l0[p]| == nn
    requires |nhood| < MAX_N_EDGES && |stale| == 2 * MAX_N_EDGES + 1
    requires forall b :: 0 <= b < |stale| ==> |stale[b]| == nn
    requires forall i :: 0 <= i < |nhood| ==> nhood[i] in id2loc
    requires forall x :: x in locs ==> (LocSectorNo(nn, x) in need <==> !PageFree(l0, LocSectorNo(nn, x)))
    ensures Increasing(rmw) && rmw != [] && |bufs| == |nhood| + |rmw|
    ensures forall k :: 0 <= k < |locs| ==> LocSectorNo(nn, locs[k]) in rmw && LocSectorNo(nn, locs[k]) in bufOf
    ensures forall i :: 0 <= i < |nhood| ==> LocSectorNo(nn, id2loc[nhood[i]]) in bufOf
    ensures forall j :: 0 <= j < |rmw| ==> rmw[j] in bufOf && bufOf[rmw[j]] == |nhood| + j
    ensures BuffersOk(nn, |nhood|, rmw, bufs, bufOf) && CellsOk(nn, bufs, bufOf)
    ensures BuffersLoaded(nn, disk, id2loc, bufs, bufOf)
  {
    hide LocSectorNo, LocOffset, MapsInverse, BuffersLoaded, PageFree;
    var n := |nhood|;
    rmw := PagesOf(nn, locs);
    assert LocSectorNo(nn, locs[0]) in rmw;
    var nbrPages := seq(n, i requires 0 <= i < n => LocSectorNo(nn, id2loc[nhood[i]]));
    NeedStored(nn, l0, disk, id2loc, locs, need, rmw);
    bufs, bufOf := LoadBuffers(nn, disk, stale[..n + |rmw|], nbrPages, rmw, need);
    forall i | 0 <= i < n
      ensures LocSectorNo(nn, id2loc[nhood[i]]) in bufOf
    {
      assert nbrPages[i] in nbrPages;
    }
    LoadedPages(nn, l0, disk, id2loc, locs, need, rmw, bufs, bufOf);
  }

  /** The locations the ids are at before an insert moves them. */
  method OrigLocs(id2loc: map<nat, nat>, ids: seq<nat>) returns (origs: seq<nat>)
    requires forall i :: 0 <= i < |ids| ==> ids[i] in id2loc
    ensures |origs| == |ids| && forall i :: 0 <= i < |ids| ==> origs[i] == id2loc[ids[i]]
  {
    origs := seq(|ids|, i requires 0 <= i < |ids| => id2loc[ids[i]]);
  }

  lemma KnownPages(nn: nat, layout: Layout, empty: seq<nat>, cur: nat)
    requires AllocInv(nn, layout, empty, cur)
    ensures 1 <= nn && forall p :: p in layout ==> 1 <= p && |layout[p]| == nn
  {
  }

  /** load_page_layout without a partition file: id -> loc is the identity ... */
  function IdentityMap(n: nat): (m: map<nat, nat>)
    ensures forall id :: id in m <==> 0 <= id < n
    ensures forall id :: id in m ==> m[id] == id
  {
    if n == 0 then map[] else IdentityMap(n - 1)[n - 1 := n - 1]
  }

  /** ... and the pages hold the ids in order, the tail of the last page being free. */
  function EqualLayout(nn: nat, numPoints: nat, pages: nat): (l: Layout)
    requires 1 <= nn
    ensures forall p :: p in l <==> 1 <= p <= pages
    ensures forall p :: p in l ==> l[p] == EqualPage(nn, numPoints, p)
  {
    if pages == 0 then map[] else EqualLayout(nn, numPoints, pages - 1)[pages := EqualPage(nn, numPoints, pages)]
  }

  function EqualPage(nn: nat, numPoints: nat, page: nat): (v: seq<Slot>)
    requires 1 <= nn && 1 <= page
    ensures |v| == nn
  {
    seq(nn, o requires 0 <= o < nn => EqualSlot(numPoints, SectorToLoc(nn, page, o)))
  }

  function EqualSlot(numPoints: nat, loc: nat): Slot {
    if loc < numPoints then Holds(loc) else Free
  }

  lemma EqualAllocInv(nn: nat, numPoints: nat, l: Layout, cur: nat)
    requires 1 <= nn <= 16 && l == EqualLayout(nn, numPoints, PageEnd(nn, 0, numPoints) - 1)
    requires cur == if LocOffset(nn, numPoints) != 0 then numPoints + (nn - LocOffset(nn, numPoints)) else numPoints
    ensures AllocInv(nn, l, [], cur)
  {
    hide LocSectorNo, LocOffset, PageEnd, AllFree, EqualPage, EqualLayout;
    LocZero(nn);
    AlignedUp(nn, 0, numPoints);
    forall p | p in l
      ensures |l[p]| == nn && !AllFree(l[p])
    {
      EqualPageUsed(nn, numPoints, p);
    }
  }

  lemma LocZero(nn: nat)
    requires 1 <= nn
    ensures LocSectorNo(nn, 0) == 1 && LocOffset(nn, 0) == 0
  {
  }

  lemma EqualMaps(nn: nat, numPoints: nat, l: Layout)
    requires 1 <= nn && l == EqualLayout(nn, numPoints, PageEnd(nn, 0, numPoints) - 1)
    ensures MapsInverse(nn, l, IdentityMap(numPoints))
  {
    hide SlotAt, LocSectorNo, LocOffset, PageEnd, EqualLayout;
    forall x: nat
      ensures SlotAt(nn, l, x) == EqualSlot(numPoints, x)
    {
      EqualSlotAt(nn, numPoints, l, x);
    }
  }

  lemma EqualPageUsed(nn: nat, numPoints: nat, p: nat)
    requires 1 <= nn && 1 <= p < PageEnd(nn, 0, numPoints)
    ensures !AllFree(EqualPage(nn, numPoints, p))
  {
    var first := SectorToLoc(nn, p, 0);
    assert LocSectorNo(nn, 0) == 1;
    if numPoints <= first {
      NextLoc(nn, first - 1);
      SectorMonotone(nn, numPoints - 1, first - 1);
    }
    assert EqualPage(nn, numPoints, p)[0] == Holds(first);
  }

  lemma EqualSlotAt(nn: nat, numPoints: nat, l: Layout, x: nat)
    requires 1 <= nn && l == EqualLayout(nn, numPoints, PageEnd(nn, 0, numPoints) - 1)
    ensures SlotAt(nn, l, x) == EqualSlot(numPoints, x)
  {
    LocRoundTrip(nn, x);
    if x < numPoints {
      SectorMonotone(nn, x, numPoints - 1);
    }
  }

  class SsdIndex<V> {
    const nn: nat                // nnodes_per_sector
    const ps: Settings           // pruning, with the distance between two ids in PQ space
    var pageLayout: Layout
    var emptyPages: seq<nat>
    var curLoc: nat
    var curId: nat
    var id2loc: map<nat, nat>
    var tags: map<nat, nat>
    var disk: map<nat, Page<V>>  // page contents as readers see them

    ghost predicate Valid()
      reads this
    {
      && AllocInv(nn, pageLayout, emptyPages, curLoc)
      && MapsInverse(nn, pageLayout, id2loc)
      && PagesStored(nn, disk, id2loc)
      && (forall id :: id in id2loc ==> id < curId)
    }

    /** Load an index of `numPoints` records under the equal mapping: record `id` is at location `id`. */
    constructor Load(nn: nat, ps: Settings, numPoints: nat, disk: map<nat, Page<V>>)
      requires 1 <= nn <= 16
      requires forall id: nat :: id < numPoints ==> LocSectorNo(nn, id) in disk && |disk[LocSectorNo(nn, id)]| == nn
      ensures Valid()
      ensures curId == numPoints && this.disk == disk && forall id :: id in id2loc <==> 0 <= id < numPoints
      ensures forall id :: id in id2loc ==> id2loc[id] == id
      ensures this.nn == nn && this.ps == ps
    {
      this.nn, this.ps := nn, ps;
      this.disk, tags, emptyPages, curId := disk, map[], [], numPoints;
      id2loc := IdentityMap(numPoints);
      curLoc := if LocOffset(nn, numPoints) != 0 then numPoints + (nn - LocOffset(nn, numPoints)) else numPoints;
      pageLayout := EqualLayout(nn, numPoints, PageEnd(nn, 0, numPoints) - 1);
      new;
      EqualAllocInv(nn, numPoints, pageLayout, curLoc);
      EqualMaps(nn, numPoints, pageLayout);
    }

    /** Allocate `n` slots; `needRead` holds the pages among theirs that already store something. */
    method AllocLoc(n: nat, hintPages: seq<nat>) returns (locs: seq<nat>, needRead: set<nat>)
      requires AllocInv(nn, pageLayout, emptyPages, curLoc) && 1 <= n
      modifies `pageLayout, `emptyPages, `curLoc
      ensures AllocInv(nn, pageLayout, emptyPages, curLoc)
      ensures |locs| == n && Allocates(nn, old(pageLayout), pageLayout, locs)
      ensures forall x :: x in locs ==>
                (LocSectorNo(nn, x) in needRead <==> !PageFree(old(pageLayout), LocSectorNo(nn, x)))
      ensures old(curLoc) <= curLoc
      ensures curLoc > old(curLoc) ==>
                emptyPages == [] && forall p :: p in Roomy(nn, old(pageLayout), hintPages) ==> PageUsedUp(pageLayout, p)
    {
      hide Allocates, LocSectorNo, Exhausted, Roomy, PageUsedUp, QueueInv;
      ghost var l0 := pageLayout;
      ghost var touched: set<nat>;
      pageLayout, emptyPages, locs, touched := DrainEmptyPages(nn, pageLayout, emptyPages, n);
      if |locs| == n {
        return locs, {};
      }
      ghost var drained, queued := pageLayout, touched;
      ghost var tried;
      pageLayout, locs, needRead, touched, tried := UseHintPages(nn, pageLayout, hintPages, n, locs, l0, touched);
      if |locs| == n {
        return;
      }
      ghost var l1 := pageLayout;
      assert hintPages[..tried] == hintPages;
      RoomyUsedUp(nn, l0, drained, l1, hintPages, queued);
      var tail;
      pageLayout, curLoc, tail := AllocFresh(nn, pageLayout, curLoc, n - |locs|, emptyPages);
      AllocatesTrans(nn, l0, l1, pageLayout, locs, tail);
      UsedUpKept(l1, pageLayout, Roomy(nn, l0, hintPages));
      locs := locs + tail;
    }

    /** insert_in_place after the search: choose the neighbours among the candidates it found, then insert. `exact` is
        the distance on coordinates, `hints` are the pages the search read and `stale` is the old content of the update
        buffer. */
    method Insert(point: V, tag: nat, found: seq<Candidate>, exact: Distance, medoid: nat, hints: seq<nat>,
                  stale: seq<Page<V>>)
      returns (target: nat)
      requires Valid() && NonNegative(found, exact) && Consistent(found)
      requires ps.range < MAX_N_EDGES && forall k :: 0 <= k < |found| ==> found[k].id in id2loc
      requires |stale| == 2 * MAX_N_EDGES + 1 && forall b :: 0 <= b < |stale| ==> |stale[b]| == nn
      modifies this
      ensures Valid()
      ensures target == old(curId) && curId == target + 1 && tags == old(tags)[target := tag]
      ensures InsertEffect(nn, ps, old(disk), disk, old(id2loc), id2loc, target, point,
                           Chosen(ps.(dist := exact), medoid, found))
    {
      hide AllocInv, MapsInverse, PagesStored, Chosen, InsertEffect;
      ChosenLive(ps.(dist := exact), medoid, found, id2loc);
      var nhood := ChooseNeighbors(ps.(dist := exact), medoid, found);
      target := InsertInPlace(point, tag, nhood, hints, stale);
    }

    /** Insert `point` with the neighbours `nhood`. */
    method InsertInPlace(point: V, tag: nat, nhood: seq<nat>, hints: seq<nat>, stale: seq<Page<V>>)
      returns (target: nat)
      requires Valid()
      requires |nhood| < MAX_N_EDGES && Distinct(nhood) && forall id :: id in nhood ==> id in id2loc
      requires |stale| == 2 * MAX_N_EDGES + 1 && forall b :: 0 <= b < |stale| ==> |stale[b]| == nn
      modifies this
      ensures Valid()
      ensures target == old(curId) && curId == target + 1 && tags == old(tags)[target := tag]
      ensures InsertEffect(nn, ps, old(disk), disk, old(id2loc), id2loc, target, point, nhood)
    {
      hide Allocates, LocSectorNo, LocOffset, SlotAt, MapsInverse, PagesStored, RewriteEffect, Recorded, Recordable,
           AllocInv, PageFree;
      KnownPages(nn, pageLayout, emptyPages, curLoc);
      target := curId;
      curId := curId + 1;
      tags := tags[target := tag];
      ghost var l0 := pageLayout;
      var locs, need := AllocLoc(|nhood| + 1, hints);
      var origs := OrigLocs(id2loc, nhood);
      InsertRecordable(nn, l0, pageLayout, id2loc, nhood, locs, origs);

      disk := RewritePages(nn, disk, id2loc, nhood, locs, need, target, point, stale, ps, l0);

      ghost var l1, map0 := pageLayout, id2loc;
      id2loc := Remap(id2loc, nhood, target, locs);
      pageLayout, emptyPages := EraseAndSetLoc(nn, pageLayout, emptyPages, origs, locs, nhood + [target], curLoc);
      InsertEffectOf(nn, ps, old(disk), disk, map0, id2loc, nhood, locs, target, point);
      RemapInverse(nn, l0, l1, pageLayout, map0, id2loc, nhood, target, locs, origs);
    }
  }

  lemma ChosenLive(s: Settings, medoid: nat, found: seq<Candidate>, id2loc: map<nat, nat>)
    requires NonNegative(found, s.dist) && Consistent(found) && forall k :: 0 <= k < |found| ==> found[k].id in id2loc
    ensures var r := Chosen(s, medoid, found);
            |r| <= s.range && Distinct(r) && forall id :: id in r ==> id in id2loc
  {
    ChosenFacts(s, medoid, found);
    hide Chosen;
    forall id | id in Chosen(s, medoid, found)
      ensures id in id2loc
    {
      var i :| 0 <= i < |Chosen(s, medoid, found)| && Chosen(s, medoid, found)[i] == id;
      assert HasId(found, id);
    }
  }

  /** A chosen neighbour whose list was full loses only edges that other edges of its new list stand in for, and room
      that is left goes to the nearest of the ids. */
  lemma InsertCovers<V>(nn: nat, ps: Settings, disk: map<nat, Page<V>>, disk': map<nat, Page<V>>, id2loc: map<nat, nat>,
                        id2loc': map<nat, nat>, target: nat, point: V, nhood: seq<nat>, id: nat)
    returns (n: nat, last: real)
    requires 1 <= nn && PagesStored(nn, disk, id2loc)
    requires InsertEffect(nn, ps, disk, disk', id2loc, id2loc', target, point, nhood) && id in id2loc && id in nhood
    requires ps.range < |RecordOf(nn, disk, id2loc, id).nbrs| + 1 && forall x, y :: 0.0 <= ps.dist(x, y)
    ensures var before, after := RecordOf(nn, disk, id2loc, id).nbrs, RecordOf(nn, disk', id2loc', id).nbrs;
            && n <= |after| <= ps.range && NearFirst(ps, id, Members(before + [target]), after, n)
            && (ps.alpha <= 1.0 ==> n == |after|)
            && (ps.alpha > 1.0 && |after| < ps.range ==> forall x :: x in before + [target] ==> x in after)
            && (n < ps.range && |before| + 1 <= ps.maxc && 1.0 <= ps.alpha ==>
                  && last <= ps.alpha < last * 1.2
                  && forall x :: x in before + [target] ==> x in after[..n] || Shadowed(ps, id, x, after[..n], last))
  {
    hide LocSectorNo, LocOffset, PagesStored, RelinkedList, Shadowed, RecordOf, Diversified;
    var before, after := RecordOf(nn, disk, id2loc, id).nbrs, RecordOf(nn, disk', id2loc', id).nbrs;
    RelinkFacts(ps, id, before, target, after);
    var kept;
    kept, n, last := RelinkCovers(ps, id, before, target, after);
  }

  // ----- whole runs of inserts -----

  datatype Snapshot<V> = Snapshot(disk: map<nat, Page<V>>, id2loc: map<nat, nat>)

  datatype Insertion<V> = Insertion(target: nat, point: V, nhood: seq<nat>)

  /** Successive states of an index under successive inserts. */
  ghost predicate InsertRun<V>(nn: nat, ps: Settings, snaps: seq<Snapshot<V>>, ins: seq<Insertion<V>>)
    requires 1 <= nn
  {
    && |snaps| == |ins| + 1
    && (forall k :: 0 <= k < |snaps| ==> PagesStored(nn, snaps[k].disk, snaps[k].id2loc))
    && (forall k :: 0 <= k < |ins| ==> InsertStep(nn, ps, snaps[k], snaps[k + 1], ins[k]))
  }

  ghost predicate InsertStep<V>(nn: nat, ps: Settings, s: Snapshot<V>, t: Snapshot<V>, i: Insertion<V>)
    requires 1 <= nn && PagesStored(nn, s.disk, s.id2loc)
  {
    InsertEffect(nn, ps, s.disk, t.disk, s.id2loc, t.id2loc, i.target, i.point, i.nhood)
  }

  ghost function Rec<V>(nn: nat, s: Snapshot<V>, id: nat): Record<V>
    requires 1 <= nn && PagesStored(nn, s.disk, s.id2loc) && id in s.id2loc
  {
    RecordOf(nn, s.disk, s.id2loc, id)
  }

  /** From `s` to `t`, `points` were added: live ids stay live and keep their coordinates, their edges are old ones or
      lead to added ids, a record not in `touched` is unchanged, and each added id has its own point. */
  ghost predicate Extends<V>(nn: nat, s: Snapshot<V>, t: Snapshot<V>, points: map<nat, V>, touched: set<nat>)
    requires 1 <= nn && PagesStored(nn, s.disk, s.id2loc) && PagesStored(nn, t.disk, t.id2loc)
  {
    && (forall id :: id in t.id2loc <==> id in s.id2loc || id in points)
    && (forall id :: id in s.id2loc ==>
        id !in points && RecordKept(Rec(nn, s, id), Rec(nn, t, id), points.Keys, id in touched))
    && (forall id :: id in points ==> Rec(nn, t, id).coords == points[id])
  }

  ghost predicate RecordKept<V>(r: Record<V>, r': Record<V>, added: set<nat>, touched: bool) {
    && r'.coords == r.coords
    && (forall x :: x in r'.nbrs ==> x in r.nbrs || x in added)
    && (!touched ==> r' == r)
  }

  lemma StepKeeps<V>(nn: nat, ps: Settings, t: Snapshot<V>, u: Snapshot<V>, i: Insertion<V>, id: nat)
    requires 1 <= nn && PagesStored(nn, t.disk, t.id2loc) && PagesStored(nn, u.disk, u.id2loc)
    requires InsertStep(nn, ps, t, u, i) && id in t.id2loc && forall x, y :: 0.0 <= ps.dist(x, y)
    ensures id in u.id2loc && id != i.target && RecordKept(Rec(nn, t, id), Rec(nn, u, id), {i.target}, id in i.nhood)
  {
    hide LocSectorNo, LocOffset, PagesStored, RelinkedList;
    if id in i.nhood {
      var before, after := Rec(nn, t, id).nbrs, Rec(nn, u, id).nbrs;
      RelinkFacts(ps, id, before, i.target, after);
    }
  }

  lemma ExtendsRefl<V>(nn: nat, s: Snapshot<V>)
    requires 1 <= nn && PagesStored(nn, s.disk, s.id2loc)
    ensures Extends(nn, s, s, map[], {})
  {
  }

  lemma StepTarget<V>(nn: nat, ps: Settings, t: Snapshot<V>, u: Snapshot<V>, i: Insertion<V>)
    requires 1 <= nn && PagesStored(nn, t.disk, t.id2loc) && PagesStored(nn, u.disk, u.id2loc)
    requires InsertStep(nn, ps, t, u, i)
    ensures i.target !in t.id2loc && forall id :: id in u.id2loc <==> id in t.id2loc || id == i.target
    ensures Rec(nn, u, i.target).coords == i.point
  {
  }

  lemma ExtendsStep<V>(nn: nat, ps: Settings, s: Snapshot<V>, t: Snapshot<V>, u: Snapshot<V>, points: map<nat, V>,
                       touched: set<nat>, i: Insertion<V>)
    requires 1 <= nn && PagesStored(nn, s.disk, s.id2loc) && PagesStored(nn, t.disk, t.id2loc)
    requires PagesStored(nn, u.disk, u.id2loc)
    requires Extends(nn, s, t, points, touched) && InsertStep(nn, ps, t, u, i) && forall x, y :: 0.0 <= ps.dist(x, y)
    ensures Extends(nn, s, u, points[i.target := i.point], touched + Members(i.nhood))
  {
    hide InsertStep, Rec, PagesStored;
    StepTarget(nn, ps, t, u, i);
    forall id | id in t.id2loc
      ensures RecordKept(Rec(nn, t, id), Rec(nn, u, id), {i.target}, id in i.nhood)
    {
      StepKeeps(nn, ps, t, u, i, id);
    }
  }

  /** The points inserted, by id; every target of the run is among them. */
  ghost function Points<V>(ins: seq<Insertion<V>>): map<nat, V> {
    if ins == [] then map[] else Points(ins[..|ins| - 1])[ins[|ins| - 1].target := ins[|ins| - 1].point]
  }

  /** The ids that some insert of the run chose as neighbours. */
  ghost function Touched<V>(ins: seq<Insertion<V>>): set<nat> {
    if ins == [] then {} else Touched(ins[..|ins| - 1]) + Members(ins[|ins| - 1].nhood)
  }

  ghost predicate Inserts<V>(ins: seq<Insertion<V>>, id: nat, point: V) {
    exists k :: 0 <= k < |ins| && ins[k].target == id && ins[k].point == point
  }

  ghost predicate Chooses<V>(ins: seq<Insertion<V>>, id: nat) {
    exists k :: 0 <= k < |ins| && id in ins[k].nhood
  }

  /** The points and the touched ids are those of the single inserts. */
  lemma {:induction false} RunIs<V>(ins: seq<Insertion<V>>, id: nat)
    ensures id in Points(ins) ==> Inserts(ins, id, Points(ins)[id])
    ensures (exists k :: 0 <= k < |ins| && ins[k].target == id) ==> id in Points(ins)
    ensures id in Touched(ins) <==> Chooses(ins, id)
  {
    if ins != [] {
      var n := |ins| - 1;
      var t := ins[..n];
      RunIs(t, id);
      assert ins == t + [ins[n]];
      if id in Points(t) {
        var k :| 0 <= k < |t| && t[k].target == id && t[k].point == Points(t)[id];
        assert ins[k] == t[k];
      }
      if Chooses(t, id) {
        var k :| 0 <= k < |t| && id in t[k].nhood;
        assert ins[k] == t[k];
      }
    }
  }

  /** The frame theorem over any number of inserts. */
  lemma {:induction false} InsertRunKeeps<V>(nn: nat, ps: Settings, snaps: seq<Snapshot<V>>, ins: seq<Insertion<V>>)
    requires 1 <= nn && InsertRun(nn, ps, snaps, ins) && forall x, y :: 0.0 <= ps.dist(x, y)
    ensures Extends(nn, snaps[0], snaps[|ins|], Points(ins), Touched(ins))
    decreases |ins|
  {
    hide InsertStep, PagesStored, Rec, RecordKept;
    if ins == [] {
      ExtendsRefl(nn, snaps[0]);
    } else {
      var m := |ins| - 1;
      var snaps', ins' := snaps[..m + 1], ins[..m];
      assert forall k :: 0 <= k < m ==> InsertStep(nn, ps, snaps[k], snaps[k + 1], ins[k]);
      InsertRunKeeps(nn, ps, snaps', ins');
      ExtendsStep(nn, ps, snaps[0], snaps[m], snaps[m + 1], Points(ins'), Touched(ins'), ins[m]);
    }
  }
}
