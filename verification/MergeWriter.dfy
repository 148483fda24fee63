/** The sliding write buffer of delete-merge: two halves of `half` records each. Records arrive in any order within a
    window, one half is written out whenever enough ids are filled, and its places are used again. */
module MergeWriter {
  import opened InsertBuffers

  lemma MulSteps(d: int, m: nat)
    ensures (d >= 1 ==> d * m >= m) && (d <= -1 ==> d * m + m <= 0) && (d >= 2 ==> d * m >= 2 * m)
  {
  }

  lemma SameResidue(m: nat, a: nat, b: nat)
    requires m > 0 && a <= b < a + m && a % m == b % m
    ensures a == b
  {
    var d := b / m - a / m;
    assert b - a == d * m by {
      assert a == (a / m) * m + a % m && b == (b / m) * m + b % m;
    }
    MulSteps(d, m);
  }

  /** The place of an id inside the half that a half-aligned window start falls into. */
  lemma HalfPlace(half: nat, wb: nat, k: nat)
    requires Aligned(wb, half) && k < half
    ensures Place(wb + k, half) == HalfBase(wb, half) + k && HalfBase(wb, half) + half <= 2 * half
  {
    var m := 2 * half;
    var r := wb % m;
    assert wb == (wb / m) * m + r;
    var q := wb / half;
    assert wb == q * half;
    var j := q - 2 * (wb / m);
    assert r == j * half by { assert 2 * (wb / m) * half == (wb / m) * m; }
    assert 0 <= j <= 1 by { MulSteps(j, half); }
    assert r / half == j by { InRangeDiv(half, j); }
    Residue(m, wb / m, r + k);
  }

  lemma InRangeDiv(half: nat, j: nat)
    requires half > 0 && j <= 1
    ensures j * half / half == j
  {
  }

  lemma Residue(m: nat, q: nat, r: nat)
    requires r < m
    ensures (q * m + r) % m == r
  {
    var x := q * m + r;
    var d := x / m - q;
    assert x == (x / m) * m + x % m;
    assert d * m == r - x % m;
    MulSteps(d, m);
  }

  predicate Aligned(wb: nat, half: nat) {
    half > 0 && wb % half == 0
  }

  /** First place of the half that the window start falls into. */
  function HalfBase(wb: nat, half: nat): (base: nat)
    requires half > 0
  {
    (wb % (2 * half)) / half * half
  }

  /** The buffer place of an id. */
  function Place(id: nat, half: nat): (p: nat)
    requires half > 0
    ensures p < 2 * half
  {
    id % (2 * half)
  }

  function RoundUp(x: nat, y: nat): (r: nat)
    requires y > 0
  {
    (x / y + (if x % y != 0 then 1 else 0)) * y
  }

  lemma Factored(q: int, d: int, y: nat)
    ensures q * y - d * y == (q - d) * y
  {
  }

  lemma RoundUpWithin(x: nat, y: nat, q: nat)
    requires y > 0 && x <= q * y
    ensures x <= RoundUp(x, y) <= q * y
  {
    var d, m := x / y, x % y;
    assert x == d * y + m;
    var r := d + if m != 0 then 1 else 0;
    Factored(q, d, y);
    Factored(q, r, y);
    Factored(r, d, y);
    MulSteps(q - d, y);
    MulSteps(q - r, y);
  }

  /** What has been flushed is in the file, and what has not is in the buffer at its id modulo the buffer size. */
  ghost predicate Lossless<V>(out: map<nat, Record<V>>, wbId: nat, half: nat, file: map<nat, Record<V>>,
                              buf: seq<Record<V>>)
    requires half > 0 && |buf| == 2 * half
  {
    forall id :: id in out ==>
      if id < wbId then id in file && file[id] == out[id]
      else id < wbId + 2 * half && buf[Place(id, half)] == out[id]
  }

  lemma PutLossless<V>(out: map<nat, Record<V>>, wbId: nat, half: nat, file: map<nat, Record<V>>, buf: seq<Record<V>>,
                       newId: nat, rec: Record<V>)
    requires half > 0 && |buf| == 2 * half && Lossless(out, wbId, half, file, buf) && wbId <= newId < wbId + 2 * half
    requires newId !in out
    ensures Lossless(out[newId := rec], wbId, half, file, buf[Place(newId, half) := rec])
  {
    forall id | id in out && id >= wbId
      ensures Place(id, half) != Place(newId, half)
    {
      if Place(id, half) == Place(newId, half) {
        if id <= newId {
          SameResidue(2 * half, id, newId);
        } else {
          SameResidue(2 * half, newId, id);
        }
      }
    }
  }

  /** Writing n places of the half at `base` to the file, from id wbId on. */
  function WriteHalf<V>(file: map<nat, Record<V>>, buf: seq<Record<V>>, base: nat, wbId: nat,
                        n: nat): (r: map<nat, Record<V>>)
    requires base + n <= |buf|
    ensures forall id :: id in r <==> id in file || wbId <= id < wbId + n
    ensures forall id :: id in r ==> r[id] == if wbId <= id < wbId + n then buf[base + (id - wbId)] else file[id]
  {
    if n == 0 then file else WriteHalf(file, buf, base, wbId, n - 1)[wbId + n - 1 := buf[base + n - 1]]
  }

  lemma FlushLossless<V>(out: map<nat, Record<V>>, wbId: nat, half: nat, file: map<nat, Record<V>>, buf: seq<Record<V>>,
                         n: nat, delta: nat)
    requires half > 0 && Aligned(wbId, half) && |buf| == 2 * half && Lossless(out, wbId, half, file, buf)
    requires delta <= n <= half
    ensures HalfBase(wbId, half) + n <= 2 * half
    ensures Lossless(out, wbId + delta, half, WriteHalf(file, buf, HalfBase(wbId, half), wbId, n), buf)
  {
    hide Place, HalfBase, Aligned;
    var base := HalfBase(wbId, half);
    HalfPlace(half, wbId, half - 1);
    var file' := WriteHalf(file, buf, base, wbId, n);
    forall id | id in out
      ensures if id < wbId + delta then id in file' && file'[id] == out[id]
              else id < wbId + delta + 2 * half && buf[Place(id, half)] == out[id]
    {
      if wbId <= id < wbId + delta {
        HalfPlace(half, wbId, id - wbId);
        assert id == wbId + (id - wbId);
      }
    }
  }

  class SlidingWriter<V> {
    const nn: nat
    const sectors: nat
    const half: nat
    const wbuf: array<Record<V>>
    var wbId: nat
    var nUsed: nat
    var file: map<nat, Record<V>>
    ghost var out: map<nat, Record<V>>

    ghost predicate Valid()
      reads this, wbuf
    {
      && nn > 0 && half == sectors * nn && half > 0 && wbuf.Length == 2 * half
      && Lossless(out, wbId, half, file, wbuf[..]) && nUsed == |out|
    }

    constructor (nn: nat, sectors: nat, blank: Record<V>)
      requires nn > 0 && sectors > 0
      ensures Valid() && this.nn == nn && half == sectors * nn && wbId == nUsed == 0 && file == out == map[]
      ensures fresh(wbuf)
    {
      this.nn, this.sectors, this.half := nn, sectors, sectors * nn;
      wbId, nUsed, file, out := 0, 0, map[], map[];
      assert sectors * nn > 0;
      wbuf := new Record<V>[2 * (sectors * nn)](_ => blank);
    }

    /** Place the record of a new id in the window. */
    method Put(newId: nat, rec: Record<V>)
      requires Valid() && newId !in out && wbId <= newId < wbId + 2 * half
      modifies this`nUsed, this`out, wbuf
      ensures Valid() && out == old(out)[newId := rec] && nUsed == old(nUsed) + 1
    {
      hide Lossless, Place;
      PutLossless(out, wbId, half, file, wbuf[..], newId, rec);
      ghost var was := wbuf[..];
      var off := Place(newId, half);
      wbuf[off] := rec;
      assert wbuf[..] == was[off := rec];
      nUsed := nUsed + 1;
      assert |out[newId := rec]| == |out| + 1 by {
        assert out[newId := rec].Keys == out.Keys + {newId};
        assert |out[newId := rec]| == |out[newId := rec].Keys| && |out| == |out.Keys|;
      }
      out := out[newId := rec];
    }

    /** Write one half, or the filled part of it, rounded up to whole pages. */
    method WriteBack()
      requires Valid() && wbId < nUsed && Aligned(wbId, half)
      modifies this`wbId, this`file
      ensures Valid() && wbId == if nUsed - old(wbId) < half then nUsed else old(wbId) + half
      ensures wbId < nUsed ==> Aligned(wbId, half)
    {
      hide Lossless, Aligned, HalfBase, RoundUp;
      var base := HalfBase(wbId, half);
      var delta := if half < nUsed - wbId then half else nUsed - wbId;
      RoundUpWithin(delta, nn, sectors);
      var n := RoundUp(delta, nn);
      FlushLossless(out, wbId, half, file, wbuf[..], n, delta);
      file := WriteHalf(file, wbuf[..], base, wbId, n);
      StepAligned(half, wbId);
      wbId := wbId + delta;
    }

    /** Write everything that is left. */
    method Drain()
      requires Valid() && wbId <= nUsed && Aligned(wbId, half)
      modifies this`wbId, this`file
      ensures Valid() && wbId == nUsed
    {
      hide Lossless, Aligned;
      while wbId < nUsed
        invariant Valid() && wbId <= nUsed && (wbId < nUsed ==> Aligned(wbId, half))
      {
        WriteBack();
      }
    }
  }

  lemma StepAligned(half: nat, wb: nat)
    requires Aligned(wb, half)
    ensures Aligned(wb + half, half)
  {
    var q := wb / half;
    assert wb == q * half;
    assert wb + half == (q + 1) * half;
    Residue(half, q + 1, 0);
  }
}
