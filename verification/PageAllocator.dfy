/** The slot allocator of the disk index (alloc_loc): reuse pages from the free-page queue, then holes in
    the hinted pages, then fresh pages past `cur_loc`. */
module PageAllocator {
  import opened Counting
  import opened PageLayout

  const INDEX_SIZE_FACTOR: nat := 2

  /** The allocator's invariant: `cur` is a page boundary, the known pages are exactly those below it,
      and the queue lists, once each, exactly the pages whose slots are all free. */
  ghost predicate AllocInv(nn: nat, layout: Layout, empty: seq<nat>, cur: nat) {
    && 1 <= nn <= 16
    && LocOffset(nn, cur) == 0
    && (forall p :: p in layout <==> 1 <= p < LocSectorNo(nn, cur))
    && (forall p :: p in layout ==> |layout[p]| == nn)
    && QueueInv(layout, empty)
  }

  ghost predicate QueueInv(layout: Layout, empty: seq<nat>) {
    && Distinct(empty)
    && (forall p :: p in empty <==> p in layout && AllFree(layout[p]))
  }

  /** Allocating `taken`, at most `want` slots, all from the known page `page`. */
  ghost predicate PageStep(nn: nat, l0: Layout, l1: Layout, page: nat, want: nat, taken: seq<nat>)
    requires 1 <= nn
  {
    && 1 <= |taken| <= want
    && page in l0 && l1.Keys == l0.Keys
    && (forall p :: p in l1 && p != page ==> l1[p] == l0[p])
    && |l1[page]| == |l0[page]|
    && !AllFree(l1[page])
    && (|taken| < want ==> Free !in l1[page])
    && (forall x :: x in taken ==> LocSectorNo(nn, x) == page)
    && Allocates(nn, l0, l1, taken)
  }

  /** Pages allocated from have no free slot left; every other page is as it was in `l0`. */
  ghost predicate Exhausted(l0: Layout, l1: Layout, touched: set<nat>) {
    && touched <= l0.Keys == l1.Keys
    && forall p :: p in l0 ==> if p in touched then Free !in l1[p] else l1[p] == l0[p]
  }

  /** Mark a free slot as allocated and add its location to those taken. */
  method TakeSlot(nn: nat, layout: Layout, page: nat, off: nat, taken: seq<nat>, ghost start: Layout)
    returns (layout': Layout, taken': seq<nat>)
    requires 1 <= nn && 1 <= page && off < nn
    requires page in layout && |layout[page]| == nn && layout[page][off] == Free
    requires Allocates(nn, start, layout, taken)
    ensures layout' == layout[page := layout[page][off := Allocated]]
    ensures taken' == taken + [SectorToLoc(nn, page, off)]
    ensures Allocates(nn, start, layout', taken')
  {
    layout' := layout[page := layout[page][off := Allocated]];
    taken' := taken + [SectorToLoc(nn, page, off)];
    OneSlot(nn, layout, page, off);
    AllocatesTrans(nn, start, layout, layout', taken, [SectorToLoc(nn, page, off)]);
  }

  lemma OneSlot(nn: nat, l: Layout, page: nat, off: nat)
    requires 1 <= nn && 1 <= page && off < nn
    requires page in l && |l[page]| == nn && l[page][off] == Free
    ensures Allocates(nn, l, l[page := l[page][off := Allocated]], [SectorToLoc(nn, page, off)])
  {
    var loc := SectorToLoc(nn, page, off);
    var l' := l[page := l[page][off := Allocated]];
    forall x: nat | x !in [loc]
      ensures SlotAt(nn, l', x) == SlotAt(nn, l, x)
    {
      if LocSectorNo(nn, x) == page && LocOffset(nn, x) == off {
        LocInjective(nn, x, loc);
      }
    }
  }

  /** Allocate a page popped off the queue, in slot order, until `want` slots are taken. */
  method AllocEmptyPage(nn: nat, layout: Layout, page: nat, want: nat) returns (layout': Layout, taken: seq<nat>)
    requires 1 <= nn && 1 <= page && 1 <= want
    requires page in layout && |layout[page]| == nn && AllFree(layout[page])
    ensures PageStep(nn, layout, layout', page, want, taken)
  {
    hide Allocates, LocSectorNo, LocOffset, SectorToLoc;
    layout', taken := layout, [];
    AllocatesNone(nn, layout);
    var i := 0;
    while i < nn
      invariant 0 <= i <= nn && |taken| == i < want
      invariant layout'.Keys == layout.Keys && |layout'[page]| == nn
      invariant forall p :: p in layout && p != page ==> layout'[p] == layout[p]
      invariant forall k :: 0 <= k < i ==> layout'[page][k] == Allocated
      invariant forall k :: i <= k < nn ==> layout'[page][k] == Free
      invariant Allocates(nn, layout, layout', taken)
      invariant forall x :: x in taken ==> LocSectorNo(nn, x) == page
    {
      if layout'[page][i] != Free {
        assert false;  // the source's "Page is not empty" crash is unreachable
      }
      layout', taken := TakeSlot(nn, layout', page, i, taken, layout);
      i := i + 1;
      if |taken| == want {
        break;
      }
    }
    assert layout'[page][0] == Allocated;
  }

  /** The holes a hinted page must have to be used. */
  function HoleThreshold(nn: nat): (t: nat)
    ensures 2 * t == nn || 2 * t == nn + 1
  {
    (nn + INDEX_SIZE_FACTOR - 1) / INDEX_SIZE_FACTOR
  }

  /** Allocate the holes of a hinted page if at least half of its slots (rounded up) are free. */
  method AllocHintPage(nn: nat, layout: Layout, page: nat, want: nat, need: set<nat>)
    returns (layout': Layout, taken: seq<nat>, need': set<nat>)
    requires 1 <= nn && 1 <= want
    requires page in layout ==> 1 <= page && |layout[page]| == nn
    ensures taken != [] <==> page in layout && CountFree(layout[page]) >= HoleThreshold(nn)
    ensures taken == [] ==> layout' == layout && need' == need
    ensures taken != [] ==>
              && PageStep(nn, layout, layout', page, want, taken)
              && Free in layout[page]
              && need' == (if AllFree(layout[page]) then need else need + {page})
  {
    hide Allocates, LocSectorNo, LocOffset, SectorToLoc;
    layout', taken, need' := layout, [], need;
    if page !in layout {
      return;
    }
    var v := layout[page];
    var cnt := FreeSlots(v);
    if cnt < HoleThreshold(nn) {
      return;
    }
    if cnt < nn {
      need' := need' + {page};
    }
    assert Free in v;
    AllocatesNone(nn, layout);
    var i := 0;
    while i < nn
      invariant 0 <= i <= nn && |taken| < want
      invariant layout'.Keys == layout.Keys && |layout'[page]| == nn
      invariant forall p :: p in layout && p != page ==> layout'[p] == layout[p]
      invariant forall k :: 0 <= k < i ==> layout'[page][k] != Free
      invariant forall k :: i <= k < nn ==> layout'[page][k] == v[k]
      invariant Allocates(nn, layout, layout', taken)
      invariant forall x :: x in taken ==> LocSectorNo(nn, x) == page
      invariant taken == [] ==> Free in v[i..]
    {
      if layout'[page][i] == Free {
        layout', taken := TakeSlot(nn, layout', page, i, taken, layout);
        assert layout'[page][i] == Allocated;
        if |taken| == want {
          return;
        }
      }
      i := i + 1;
    }
    assert layout'[page][0] != Free;
  }

  method FreeSlots(v: seq<Slot>) returns (cnt: nat)
    ensures cnt == CountFree(v)
  {
    cnt := 0;
    for i := 0 to |v|
      invariant cnt == CountFree(v[..i])
    {
      assert v[..i + 1][..i] == v[..i];
      if v[i] == Free {
        cnt := cnt + 1;
      }
    }
    assert v[..|v|] == v;
  }

  /** Pop pages off the free-page queue until `n` slots are taken or the queue is empty. */
  method DrainEmptyPages(nn: nat, layout: Layout, empty: seq<nat>, n: nat)
    returns (layout': Layout, empty': seq<nat>, locs: seq<nat>, ghost touched: set<nat>)
    requires 1 <= nn && 1 <= n && QueueInv(layout, empty)
    requires forall p :: p in layout ==> 1 <= p && |layout[p]| == nn
    ensures QueueInv(layout', empty') && |locs| <= n && layout'.Keys == layout.Keys
    ensures forall p :: p in layout' ==> |layout'[p]| == nn
    ensures Allocates(nn, layout, layout', locs)
    ensures forall x :: x in locs ==> LocSectorNo(nn, x) in touched
    ensures forall p :: p in touched ==> PageFree(layout, p)
    ensures |locs| < n ==> empty' == [] && Exhausted(layout, layout', touched)
  {
    hide Allocates, LocSectorNo;
    layout', empty', locs, touched := layout, empty, [], {};
    AllocatesNone(nn, layout);
    while empty' != []
      invariant QueueInv(layout', empty') && |locs| < n
      invariant forall p :: p in layout' ==> |layout'[p]| == nn
      invariant Allocates(nn, layout, layout', locs)
      invariant Exhausted(layout, layout', touched)
      invariant forall x :: x in locs ==> LocSectorNo(nn, x) in touched
      invariant forall p :: p in touched ==> PageFree(layout, p)
      decreases |empty'|
    {
      var page := empty'[0];
      assert page in empty';
      ghost var l1, e1 := layout', empty';
      var taken;
      layout', taken := AllocEmptyPage(nn, layout', page, n - |locs|);
      empty' := empty'[1..];
      QueueAfterPop(nn, l1, layout', e1, n - |locs|, taken);
      AllocatesTrans(nn, layout, l1, layout', locs, taken);
      locs, touched := locs + taken, touched + {page};
      if |locs| == n {
        return;
      }
    }
  }

  lemma QueueAfterPop(nn: nat, l0: Layout, l1: Layout, empty: seq<nat>, want: nat, taken: seq<nat>)
    requires 1 <= nn && empty != [] && QueueInv(l0, empty) && PageStep(nn, l0, l1, empty[0], want, taken)
    ensures QueueInv(l1, empty[1..])
  {
    hide Allocates, LocSectorNo;
    forall p | p in l1 && AllFree(l1[p])
      ensures p in empty[1..]
    {
      assert p in empty && p != empty[0];
    }
  }

  /** A hinted page with a free slot was not allocated from before, and was not all free. */
  lemma HintStep(nn: nat, l0: Layout, l1: Layout, l2: Layout, page: nat, want: nat, taken: seq<nat>, touched: set<nat>)
    requires 1 <= nn && QueueInv(l1, []) && Exhausted(l0, l1, touched)
    requires PageStep(nn, l1, l2, page, want, taken) && Free in l1[page]
    ensures QueueInv(l2, []) && page !in touched && l1[page] == l0[page] && !AllFree(l0[page])
    ensures |taken| < want ==> Exhausted(l0, l2, touched + {page})
  {
    hide Allocates, LocSectorNo;
    assert page !in [] && !AllFree(l1[page]);
    forall p | p in l2
      ensures !AllFree(l2[p])
    {
      assert p !in [] && !AllFree(l1[p]);
    }
  }

  /** The hinted pages with enough holes to be used. */
  ghost function Roomy(nn: nat, layout: Layout, hints: seq<nat>): set<nat> {
    set p | p in hints && p in layout && CountFree(layout[p]) >= HoleThreshold(nn)
  }

  lemma RoomyNone(nn: nat, layout: Layout, hints: seq<nat>)
    ensures Roomy(nn, layout, hints[..0]) == {}
  {
  }

  /** Whether the next hinted page is used is decided by its holes at the start: pages used since have none left. */
  lemma RoomyNext(nn: nat, l0: Layout, l1: Layout, l2: Layout, hintPages: seq<nat>, h: nat, touched0: set<nat>)
    requires 1 <= nn && h < |hintPages| && Exhausted(l0, l1, touched0)
    requires Exhausted(l0, l2, touched0 + Roomy(nn, l1, hintPages[..h]))
    ensures var p := hintPages[h]; var r := Roomy(nn, l1, hintPages[..h]);
            touched0 + Roomy(nn, l1, hintPages[..h + 1])
            == if p in l2 && CountFree(l2[p]) >= HoleThreshold(nn) then touched0 + r + {p} else touched0 + r
  {
    var p, r := hintPages[h], Roomy(nn, l1, hintPages[..h]);
    assert hintPages[..h + 1] == hintPages[..h] + [p];
    if p in l2 && CountFree(l2[p]) >= HoleThreshold(nn) {
      assert p !in touched0 + r && l2[p] == l1[p];
      assert Roomy(nn, l1, hintPages[..h + 1]) == r + {p};
    } else if p in l1 && CountFree(l1[p]) >= HoleThreshold(nn) {
      assert p in r;
      assert Roomy(nn, l1, hintPages[..h + 1]) == r;
    } else {
      assert Roomy(nn, l1, hintPages[..h + 1]) == r;
    }
  }

  /** No slot of the page is free. */
  ghost predicate PageUsedUp(layout: Layout, page: nat) {
    page in layout && Free !in layout[page]
  }

  /** If all hinted pages were looked at, those that had enough holes before the call are used up. */
  lemma RoomyUsedUp(nn: nat, l0: Layout, l1: Layout, l2: Layout, hintPages: seq<nat>, touched: set<nat>)
    requires 1 <= nn && Exhausted(l0, l1, touched) && Exhausted(l0, l2, touched + Roomy(nn, l1, hintPages))
    ensures forall p :: p in Roomy(nn, l0, hintPages) ==> PageUsedUp(l2, p)
  {
    forall p | p in Roomy(nn, l0, hintPages)
      ensures PageUsedUp(l2, p)
    {
      assert p !in touched ==> l1[p] == l0[p] && p in Roomy(nn, l1, hintPages);
    }
  }

  lemma UsedUpKept(l1: Layout, l2: Layout, pages: set<nat>)
    requires forall p :: p in l1 ==> p in l2 && l2[p] == l1[p]
    ensures forall p :: p in pages && PageUsedUp(l1, p) ==> PageUsedUp(l2, p)
  {
  }

  /** Fill the holes of the hinted pages until `n` slots are taken. The first `tried` hinted pages are looked at, all of
      them unless `n` slots are reached; of these, exactly the pages with enough holes are used, and used up. */
  method UseHintPages(nn: nat, layout: Layout, hintPages: seq<nat>, n: nat, start: seq<nat>,
                      ghost l0: Layout, ghost touched0: set<nat>)
    returns (layout': Layout, locs: seq<nat>, needRead: set<nat>, ghost touched: set<nat>, ghost tried: nat)
    requires 1 <= nn && |start| < n && QueueInv(layout, [])
    requires forall p :: p in layout ==> 1 <= p && |layout[p]| == nn
    requires Allocates(nn, l0, layout, start) && Exhausted(l0, layout, touched0)
    requires forall x :: x in start ==> LocSectorNo(nn, x) in touched0
    requires forall p :: p in touched0 ==> PageFree(l0, p)
    ensures QueueInv(layout', []) && |locs| <= n && layout'.Keys == layout.Keys
    ensures forall p :: p in layout' ==> |layout'[p]| == nn
    ensures Allocates(nn, l0, layout', locs)
    ensures forall x :: x in locs ==> LocSectorNo(nn, x) in touched
    ensures forall p :: p in touched ==> (p in needRead <==> !PageFree(l0, p))
    ensures needRead <= touched <= l0.Keys
    ensures tried <= |hintPages| && touched == touched0 + Roomy(nn, layout, hintPages[..tried])
    ensures |locs| < n ==> tried == |hintPages| && Exhausted(l0, layout', touched)
  {
    hide Allocates, LocSectorNo, QueueInv, AllFree, Roomy;
    layout', locs, needRead, touched, tried := layout, start, {}, touched0, 0;
    RoomyNone(nn, layout, hintPages);
    var h := 0;
    while h < |hintPages|
      invariant 0 <= h == tried <= |hintPages| && |locs| < n
      invariant touched == touched0 + Roomy(nn, layout, hintPages[..h])
      invariant QueueInv(layout', [])
      invariant forall p :: p in layout' ==> |layout'[p]| == nn
      invariant Allocates(nn, l0, layout', locs)
      invariant Exhausted(l0, layout', touched)
      invariant forall x :: x in locs ==> LocSectorNo(nn, x) in touched
      invariant forall p :: p in touched ==> (p in needRead <==> !PageFree(l0, p))
      invariant needRead <= touched
    {
      var page, taken, need' := hintPages[h], [], {};
      ghost var l1 := layout';
      RoomyNext(nn, l0, layout, l1, hintPages, h, touched0);
      tried := h + 1;
      layout', taken, need' := AllocHintPage(nn, layout', page, n - |locs|, needRead);
      if taken != [] {
        HintStep(nn, l0, l1, layout', page, n - |locs|, taken, touched);
        AllocatesTrans(nn, l0, l1, layout', locs, taken);
        locs, needRead, touched := locs + taken, need', touched + {page};
        if |locs| == n {
          return;
        }
      }
      h := h + 1;
    }
  }

  // ----- fresh pages -----

  /** First page beyond those in use once `count` locations from `cur` on are handed out. */
  function PageEnd(nn: nat, cur: nat, count: nat): nat
    requires 1 <= nn
  {
    if count == 0 then LocSectorNo(nn, cur) else LocSectorNo(nn, cur + count - 1) + 1
  }

  /** `l1` extends `l0` by the pages of the fresh locations `locs`, which start at the page boundary `cur`. */
  ghost predicate FreshInv(nn: nat, cur: nat, l0: Layout, l1: Layout, locs: seq<nat>)
    requires 1 <= nn
  {
    && LocOffset(nn, cur) == 0
    && (forall k :: 0 <= k < |locs| ==> locs[k] == cur + k)
    && (forall p :: p in l0 <==> 1 <= p < LocSectorNo(nn, cur))
    && (forall p :: p in l1 <==> 1 <= p < PageEnd(nn, cur, |locs|))
    && (forall p :: p in l1 ==> |l1[p]| == nn)
    && (forall p :: p in l1 ==> if p in l0 then l1[p] == l0[p] else !AllFree(l1[p]))
    && Allocates(nn, l0, l1, locs)
  }

  /** `l1` is `l0` with slot `loc` set, its page being created if it was missing. */
  ghost predicate SetSlot(nn: nat, l0: Layout, l1: Layout, loc: nat, s: Slot)
    requires 1 <= nn
  {
    var page := LocSectorNo(nn, loc);
    && l1.Keys == l0.Keys + {page}
    && |l1[page]| == nn && l1[page][LocOffset(nn, loc)] == s
    && (forall p :: p in l0 && p != page ==> l1[p] == l0[p])
    && (forall x: nat :: x != loc ==> SlotAt(nn, l1, x) == SlotAt(nn, l0, x))
  }

  method SetLoc2Id(nn: nat, layout: Layout, loc: nat, s: Slot) returns (layout': Layout)
    requires 1 <= nn
    requires LocSectorNo(nn, loc) in layout ==> |layout[LocSectorNo(nn, loc)]| == nn
    ensures SetSlot(nn, layout, layout', loc, s)
  {
    // a page seen for the first time starts with every slot at kInvalidID
    var page, offset := LocSectorNo(nn, loc), LocOffset(nn, loc);
    var v := if page in layout then layout[page] else seq(nn, _ => Free);
    layout' := layout[page := v[offset := s]];
    forall x: nat | x != loc
      ensures SlotAt(nn, layout', x) == SlotAt(nn, layout, x)
    {
      if LocSectorNo(nn, x) == page && LocOffset(nn, x) == offset {
        LocInjective(nn, x, loc);
      }
    }
  }

  lemma SetAllocates(nn: nat, l0: Layout, l1: Layout, loc: nat)
    requires 1 <= nn
    requires SetSlot(nn, l0, l1, loc, Allocated) && SlotAt(nn, l0, loc) == Free
    ensures Allocates(nn, l0, l1, [loc])
  {
  }

  lemma FreshStart(nn: nat, layout: Layout, cur: nat, empty: seq<nat>)
    requires AllocInv(nn, layout, empty, cur)
    ensures 1 <= nn && LocOffset(nn, cur) == 0 && FreshInv(nn, cur, layout, layout, [])
  {
    AllocatesNone(nn, layout);
  }

  lemma FreshSlot(nn: nat, cur: nat, l0: Layout, l1: Layout, locs: seq<nat>)
    requires 1 <= nn && FreshInv(nn, cur, l0, l1, locs)
    ensures var loc := cur + |locs|; LocSectorNo(nn, loc) !in l0 && SlotAt(nn, l1, loc) == Free
    ensures forall p :: p in l1 ==> |l1[p]| == nn
  {
    var loc := cur + |locs|;
    SectorMonotone(nn, cur, loc);
    assert loc !in locs;
    assert SlotAt(nn, l1, loc) == SlotAt(nn, l0, loc);
  }

  lemma FreshStep(nn: nat, cur: nat, l0: Layout, l1: Layout, l2: Layout, locs: seq<nat>)
    requires 1 <= nn && FreshInv(nn, cur, l0, l1, locs)
    requires var loc := cur + |locs|;
             && SetSlot(nn, l1, l2, loc, Allocated) && SlotAt(nn, l1, loc) == Free && LocSectorNo(nn, loc) !in l0
    ensures FreshInv(nn, cur, l0, l2, locs + [cur + |locs|])
  {
    hide Allocates, SlotAt, LocSectorNo, LocOffset;
    var loc := cur + |locs|;
    if |locs| > 0 {
      NextLoc(nn, loc - 1);
    }
    SetAllocates(nn, l1, l2, loc);
    AllocatesTrans(nn, l0, l1, l2, locs, [loc]);
    var page := LocSectorNo(nn, loc);
    assert l2[page][LocOffset(nn, loc)] == Allocated;
  }

  /** Rounding the next location up to a page boundary. */
  lemma AlignedUp(nn: nat, cur: nat, count: nat)
    requires 1 <= nn && LocOffset(nn, cur) == 0
    ensures var e := cur + count;
            var c := if LocOffset(nn, e) != 0 then e + (nn - LocOffset(nn, e)) else e;
            LocOffset(nn, c) == 0 && LocSectorNo(nn, c) == PageEnd(nn, cur, count)
  {
    var e := cur + count;
    if LocOffset(nn, e) != 0 {
      NextPage(nn, e);
    }
    if count > 0 {
      NextLoc(nn, e - 1);
    }
  }

  lemma {:induction false} NextPage(nn: nat, e: nat)
    requires 1 <= nn && LocOffset(nn, e) != 0
    ensures LocOffset(nn, e + (nn - LocOffset(nn, e))) == 0
    ensures LocSectorNo(nn, e + (nn - LocOffset(nn, e))) == LocSectorNo(nn, e) + 1
  {
    if nn <= e {
      NextPage(nn, e - nn);
    }
  }

  lemma FreshDone(nn: nat, cur: nat, cur': nat, l0: Layout, l1: Layout, locs: seq<nat>, empty: seq<nat>)
    requires AllocInv(nn, l0, empty, cur) && FreshInv(nn, cur, l0, l1, locs)
    requires LocOffset(nn, cur') == 0 && LocSectorNo(nn, cur') == PageEnd(nn, cur, |locs|)
    ensures AllocInv(nn, l1, empty, cur')
    ensures forall x :: x in locs ==> LocSectorNo(nn, x) !in l0
    ensures forall k :: 0 <= k < |locs| ==> locs[k] == cur + k
    ensures forall p :: p in l0 ==> p in l1 && l1[p] == l0[p]
  {
    hide Allocates;
    if |locs| > 0 {
      SectorMonotone(nn, cur, cur + |locs| - 1);
    }
    forall k | 0 <= k < |locs|
      ensures LocSectorNo(nn, locs[k]) !in l0
    {
      SectorMonotone(nn, cur, locs[k]);
    }
  }

  /** Allocate `count` locations from `cur` on and round `cur` up to the next page. */
  method AllocFresh(nn: nat, layout: Layout, cur: nat, count: nat, ghost empty: seq<nat>)
    returns (layout': Layout, cur': nat, locs: seq<nat>)
    requires AllocInv(nn, layout, empty, cur)
    ensures AllocInv(nn, layout', empty, cur')
    ensures |locs| == count && Allocates(nn, layout, layout', locs)
    ensures forall x :: x in locs ==> LocSectorNo(nn, x) !in layout
    ensures cur + count <= cur' < cur + count + nn && forall k :: 0 <= k < count ==> locs[k] == cur + k
    ensures forall p :: p in layout ==> p in layout' && layout'[p] == layout[p]
  {
    FreshStart(nn, layout, cur, empty);
    hide Allocates, SlotAt, FreshInv, AllocInv, LocSectorNo;
    layout', locs := layout, [];
    var i := 0;
    while i < count
      invariant 0 <= i <= count && |locs| == i
      invariant FreshInv(nn, cur, layout, layout', locs)
    {
      ghost var l1 := layout';
      FreshSlot(nn, cur, layout, l1, locs);
      layout' := SetLoc2Id(nn, layout', cur + i, Allocated);
      FreshStep(nn, cur, layout, l1, layout', locs);
      locs := locs + [cur + i];
      i := i + 1;
    }
    cur' := cur + count;
    if LocOffset(nn, cur') != 0 {
      cur' := cur' + (nn - LocOffset(nn, cur'));
    }
    AlignedUp(nn, cur, count);
    FreshDone(nn, cur, cur', layout, layout', locs, empty);
  }

  // ----- recording the outcome of an insert -----

  /** Overwriting a slot in use by another non-free value keeps the allocator's invariant. */
  lemma SetKeepsInv(nn: nat, l0: Layout, l1: Layout, loc: nat, s: Slot, empty: seq<nat>, cur: nat)
    requires AllocInv(nn, l0, empty, cur) && SetSlot(nn, l0, l1, loc, s)
    requires SlotAt(nn, l0, loc) != Free && s != Free
    ensures AllocInv(nn, l1, empty, cur)
  {
    hide LocSectorNo, LocOffset;
    var page := LocSectorNo(nn, loc);
    assert page in l0 && !AllFree(l0[page]) && !AllFree(l1[page]) by {
      assert l0[page][LocOffset(nn, loc)] != Free;
      assert l1[page][LocOffset(nn, loc)] != Free;
    }
  }

  /** Free a slot in use; a page whose last slot is freed joins the queue. */
  method EraseLoc2Id(nn: nat, layout: Layout, empty: seq<nat>, loc: nat, ghost cur: nat)
    returns (layout': Layout, empty': seq<nat>)
    requires AllocInv(nn, layout, empty, cur) && SlotAt(nn, layout, loc) != Free
    ensures SetSlot(nn, layout, layout', loc, Free)
    ensures AllocInv(nn, layout', empty', cur)
  {
    hide LocSectorNo, LocOffset;
    layout' := SetLoc2Id(nn, layout, loc, Free);
    var page := LocSectorNo(nn, loc);
    assert page in layout && page !in empty by {
      assert layout[page][LocOffset(nn, loc)] != Free;
    }
    empty' := empty;
    if AllFree(layout'[page]) {
      empty' := empty + [page];
    }
    EraseQueue(layout, layout', empty, page);
  }

  lemma EraseQueue(l0: Layout, l1: Layout, empty: seq<nat>, page: nat)
    requires QueueInv(l0, empty) && page !in empty && page in l0
    requires l1.Keys == l0.Keys && forall p :: p in l0 && p != page ==> l1[p] == l0[p]
    ensures QueueInv(l1, if AllFree(l1[page]) then empty + [page] else empty)
  {
    hide AllFree;
  }

  /** `l1` is `l0` with the slots `locs` holding `ids`, the slots `olds` freed and nothing else changed. */
  ghost predicate Recorded(nn: nat, l0: Layout, l1: Layout, locs: seq<nat>, ids: seq<nat>, olds: seq<nat>)
    requires 1 <= nn && |ids| == |locs|
  {
    && (forall i :: 0 <= i < |locs| ==> SlotAt(nn, l1, locs[i]) == Holds(ids[i]))
    && (forall x :: x in olds ==> SlotAt(nn, l1, x) == Free)
    && (forall x: nat :: x !in locs && x !in olds ==> SlotAt(nn, l1, x) == SlotAt(nn, l0, x))
  }

  /** Every slot of `olds` holds a record, every slot of `locs` is allocated, and no slot is listed twice. */
  ghost predicate Recordable(nn: nat, l: Layout, locs: seq<nat>, olds: seq<nat>)
    requires 1 <= nn
  {
    && Distinct(locs) && Distinct(olds)
    && (forall x :: x in locs ==> SlotAt(nn, l, x) == Allocated)
    && (forall x :: x in olds ==> SlotAt(nn, l, x).Holds?)
  }

  lemma RecordSet(nn: nat, l0: Layout, l1: Layout, l2: Layout, locs: seq<nat>, ids: seq<nat>, i: nat)
    requires 1 <= nn && |ids| == |locs| && i < |locs| && Distinct(locs)
    requires Recorded(nn, l0, l1, locs[..i], ids[..i], []) && SetSlot(nn, l1, l2, locs[i], Holds(ids[i]))
    ensures Recorded(nn, l0, l2, locs[..i + 1], ids[..i + 1], [])
  {
    hide LocSectorNo, LocOffset;
    assert locs[..i + 1] == locs[..i] + [locs[i]] && ids[..i + 1] == ids[..i] + [ids[i]];
  }

  lemma RecordErase(nn: nat, l0: Layout, l1: Layout, l2: Layout, locs: seq<nat>, ids: seq<nat>, olds: seq<nat>, i: nat)
    requires 1 <= nn && |ids| == |locs| && i < |olds| && Recordable(nn, l0, locs, olds)
    requires Recorded(nn, l0, l1, locs, ids, olds[..i]) && SetSlot(nn, l1, l2, olds[i], Free)
    ensures Recorded(nn, l0, l2, locs, ids, olds[..i + 1])
  {
    hide LocSectorNo, LocOffset;
    assert olds[..i + 1] == olds[..i] + [olds[i]];
    assert olds[i] in olds;
  }

  /** Under the allocation lock: bind the new locations to their ids, then free the old ones. */
  method EraseAndSetLoc(nn: nat, layout: Layout, empty: seq<nat>, oldLocs: seq<nat>, newLocs: seq<nat>,
                        newIds: seq<nat>, ghost cur: nat)
    returns (layout': Layout, empty': seq<nat>)
    requires 1 <= nn && AllocInv(nn, layout, empty, cur) && |newIds| == |newLocs|
    requires Recordable(nn, layout, newLocs, oldLocs)
    ensures AllocInv(nn, layout', empty', cur)
    ensures Recorded(nn, layout, layout', newLocs, newIds, oldLocs)
  {
    layout', empty' := layout, empty;
    hide AllocInv, SetSlot, LocSectorNo, LocOffset;
    for i := 0 to |newLocs|
      invariant AllocInv(nn, layout', empty, cur)
      invariant Recorded(nn, layout, layout', newLocs[..i], newIds[..i], [])
    {
      ghost var l1 := layout';
      assert newLocs[i] in newLocs;
      assert SlotAt(nn, l1, newLocs[i]) == Allocated;
      PageLength(nn, layout', empty, cur, newLocs[i]);
      layout' := SetLoc2Id(nn, layout', newLocs[i], Holds(newIds[i]));
      SetKeepsInv(nn, l1, layout', newLocs[i], Holds(newIds[i]), empty, cur);
      RecordSet(nn, layout, l1, layout', newLocs, newIds, i);
    }
    assert newLocs[..|newLocs|] == newLocs && newIds[..|newIds|] == newIds;
    for i := 0 to |oldLocs|
      invariant AllocInv(nn, layout', empty', cur)
      invariant Recorded(nn, layout, layout', newLocs, newIds, oldLocs[..i])
    {
      ghost var l1 := layout';
      assert oldLocs[i] in oldLocs;
      layout', empty' := EraseLoc2Id(nn, layout', empty', oldLocs[i], cur);
      RecordErase(nn, layout, l1, layout', newLocs, newIds, oldLocs, i);
    }
    assert oldLocs[..|oldLocs|] == oldLocs;
  }

  lemma PageLength(nn: nat, l: Layout, empty: seq<nat>, cur: nat, loc: nat)
    requires AllocInv(nn, l, empty, cur)
    ensures LocSectorNo(nn, loc) in l ==> |l[LocSectorNo(nn, loc)]| == nn
  {
  }
}
