/** The address arithmetic of the disk index and the values its page layout holds:
    a page (sector) stores `nn` record slots, locations number the slots densely, and
    page 0 holds the metadata. */
module PageLayout {
  import opened Counting

  /** A slot of a page: kInvalidID, kAllocatedID, or the id of the record stored there. */
  datatype Slot = Free | Allocated | Holds(id: nat)

  type Layout = map<nat, seq<Slot>>

  /** Page of a location: 1 + loc / nn, counted out by subtraction (see LocAddress). */
  function LocSectorNo(nn: nat, loc: nat): (page: nat)
    requires 1 <= nn
    ensures 1 <= page
  {
    if loc < nn then 1 else 1 + LocSectorNo(nn, loc - nn)
  }

  /** Slot of a location on its page: loc % nn. */
  function LocOffset(nn: nat, loc: nat): (off: nat)
    requires 1 <= nn
    ensures off < nn
  {
    if loc < nn then loc else LocOffset(nn, loc - nn)
  }

  lemma {:induction false} LocAddress(nn: nat, loc: nat)
    requires 1 <= nn
    ensures LocSectorNo(nn, loc) == 1 + loc / nn
    ensures LocOffset(nn, loc) == loc % nn
  {
    if nn <= loc {
      LocAddress(nn, loc - nn);
      DivModShift(nn, loc - nn);
    }
  }

  lemma DivModShift(nn: nat, x: nat)
    requires 1 <= nn
    ensures (x + nn) / nn == x / nn + 1 && (x + nn) % nn == x % nn
  {
    assert x + nn == (x / nn + 1) * nn + x % nn;
    DivModOfSum(nn, x / nn + 1, x % nn);
  }

  lemma DivModOfSum(nn: nat, q: nat, r: nat)
    requires r < nn
    ensures (q * nn + r) / nn == q && (q * nn + r) % nn == r
  {
    var x := q * nn + r;
    assert x == (x / nn) * nn + x % nn;
    var d := x / nn - q;
    assert d * nn == r - x % nn;
    assert d == 0;
  }

  /** Inverse of the two functions above: the location of slot `off` of page `sector`. */
  function SectorToLoc(nn: nat, sector: nat, off: nat): (loc: nat)
    requires 1 <= nn && 1 <= sector && off < nn
    ensures LocSectorNo(nn, loc) == sector && LocOffset(nn, loc) == off
    decreases sector
  {
    if sector == 1 then off else SectorToLoc(nn, sector - 1, off) + nn
  }

  lemma {:induction false} SectorAddress(nn: nat, sector: nat, off: nat)
    requires 1 <= nn && 1 <= sector && off < nn
    ensures SectorToLoc(nn, sector, off) == (sector - 1) * nn + off
    decreases sector
  {
    if sector > 1 {
      SectorAddress(nn, sector - 1, off);
      assert (sector - 1) * nn == (sector - 2) * nn + nn;
    }
  }

  lemma {:induction false} LocRoundTrip(nn: nat, loc: nat)
    requires 1 <= nn
    ensures SectorToLoc(nn, LocSectorNo(nn, loc), LocOffset(nn, loc)) == loc
  {
    if nn <= loc {
      LocRoundTrip(nn, loc - nn);
    }
  }

  /** Two locations with the same page and offset are the same location. */
  lemma LocInjective(nn: nat, a: nat, b: nat)
    requires 1 <= nn
    requires LocSectorNo(nn, a) == LocSectorNo(nn, b) && LocOffset(nn, a) == LocOffset(nn, b)
    ensures a == b
  {
    LocRoundTrip(nn, a);
    LocRoundTrip(nn, b);
  }

  /** Stepping to the next location stays on the page or starts the next one. */
  lemma {:induction false} NextLoc(nn: nat, loc: nat)
    requires 1 <= nn
    ensures LocOffset(nn, loc) + 1 < nn ==>
              LocSectorNo(nn, loc + 1) == LocSectorNo(nn, loc) && LocOffset(nn, loc + 1) == LocOffset(nn, loc) + 1
    ensures LocOffset(nn, loc) + 1 == nn ==>
              LocSectorNo(nn, loc + 1) == LocSectorNo(nn, loc) + 1 && LocOffset(nn, loc + 1) == 0
  {
    if nn <= loc {
      NextLoc(nn, loc - nn);
    }
  }

  /** Earlier locations lie on earlier or equal pages. */
  lemma {:induction false} SectorMonotone(nn: nat, a: nat, b: nat)
    requires 1 <= nn && a <= b
    ensures LocSectorNo(nn, a) <= LocSectorNo(nn, b)
    decreases b - a
  {
    if a < b {
      NextLoc(nn, a);
      SectorMonotone(nn, a + 1, b);
    }
  }

  /** What loc2id answers: a slot of an unknown page is free. */
  ghost function SlotAt(nn: nat, layout: Layout, loc: nat): Slot
    requires 1 <= nn
  {
    var p, o := LocSectorNo(nn, loc), LocOffset(nn, loc);
    if p in layout && o < |layout[p]| then layout[p][o] else Free
  }

  predicate AllFree(v: seq<Slot>) {
    forall i :: 0 <= i < |v| ==> v[i] == Free
  }

  /** Every slot of the page is free; pages never touched count as free. */
  ghost predicate PageFree(layout: Layout, page: nat) {
    page in layout ==> AllFree(layout[page])
  }

  function CountFree(v: seq<Slot>): (n: nat)
    ensures n <= |v|
    ensures n == 0 <==> Free !in v
    ensures n == |v| <==> AllFree(v)
  {
    if v == [] then 0
    else
      assert v == v[..|v| - 1] + [v[|v| - 1]];
      CountFree(v[..|v| - 1]) + if v[|v| - 1] == Free then 1 else 0
  }

  /** `l1` is `l0` with exactly the slots `locs`, all free before, marked allocated. */
  ghost predicate Allocates(nn: nat, l0: Layout, l1: Layout, locs: seq<nat>)
    requires 1 <= nn
  {
    && Distinct(locs)
    && (forall x :: x in locs ==> SlotAt(nn, l0, x) == Free && SlotAt(nn, l1, x) == Allocated)
    && (forall x: nat :: x !in locs ==> SlotAt(nn, l1, x) == SlotAt(nn, l0, x))
  }

  lemma AllocatesNone(nn: nat, l: Layout)
    requires 1 <= nn
    ensures Allocates(nn, l, l, [])
  {
  }

  lemma AllocatesTrans(nn: nat, l0: Layout, l1: Layout, l2: Layout, r1: seq<nat>, r2: seq<nat>)
    requires 1 <= nn
    requires Allocates(nn, l0, l1, r1) && Allocates(nn, l1, l2, r2)
    ensures Allocates(nn, l0, l2, r1 + r2)
  {
    var r := r1 + r2;
    assert forall x :: x in r <==> x in r1 || x in r2;
    forall i, j | 0 <= i < j < |r|
      ensures r[i] != r[j]
    {
      if i < |r1| <= j {
        assert SlotAt(nn, l1, r1[i]) == Allocated;
        assert SlotAt(nn, l1, r2[j - |r1|]) == Free;
      }
    }
    forall x: nat | x !in r
      ensures SlotAt(nn, l2, x) == SlotAt(nn, l0, x)
    {
      assert SlotAt(nn, l2, x) == SlotAt(nn, l1, x);
    }
  }
}
