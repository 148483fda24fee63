/** Product quantisation: the dimensions are split into chunks, every chunk of a vector is replaced by one of 256
    centres, and distances are sums of table entries. */
module ProductQuantizer {

  // ----- the chunk split -----

  /** Size of bin b: the first `maxHigh` bins get one dimension more. */
  function Size(low: nat, high: nat, maxHigh: nat, b: nat): nat {
    if b < maxHigh then high else low
  }

  /** First dimension of bin b. */
  function Off(low: nat, high: nat, maxHigh: nat, b: nat): nat {
    if b == 0 then 0 else Off(low, high, maxHigh, b - 1) + Size(low, high, maxHigh, b - 1)
  }

  lemma {:induction false} OffIs(low: nat, high: nat, maxHigh: nat, b: nat)
    ensures Off(low, high, maxHigh, b) == if b <= maxHigh then b * high else maxHigh * high + (b - maxHigh) * low
  {
    if b > 0 {
      OffIs(low, high, maxHigh, b - 1);
    }
  }

  lemma {:induction false} OffGrows(low: nat, high: nat, maxHigh: nat, a: nat, b: nat)
    requires a <= b
    ensures Off(low, high, maxHigh, a) <= Off(low, high, maxHigh, b)
  {
    if a < b {
      OffGrows(low, high, maxHigh, a, b - 1);
    }
  }

  /** The bin sizes add up to the number of dimensions. */
  lemma OffEnd(dim: nat, chunks: nat, low: nat, high: nat, maxHigh: nat)
    requires Split(dim, chunks, low, high, maxHigh)
    ensures Off(low, high, maxHigh, chunks) == dim && maxHigh <= chunks
  {
    assert dim == low * chunks + dim % chunks;
    OffIs(low, high, maxHigh, chunks);
    assert maxHigh * high + (chunks - maxHigh) * low == chunks * low + maxHigh * (high - low);
  }

  ghost predicate Split(dim: nat, chunks: nat, low: nat, high: nat, maxHigh: nat) {
    chunks > 0 && low == dim / chunks && high == (if dim % chunks == 0 then low else low + 1) && maxHigh == dim % chunks
  }

  /** Bins after the first d dimensions: full ones before bin b, bin b holding its dimensions up to d, empty ones
      after. */
  ghost predicate Filled(bins: seq<seq<nat>>, low: nat, high: nat, maxHigh: nat, b: nat, d: nat) {
    && (forall x :: 0 <= x < b && x < |bins| ==>
        Consecutive(bins[x], Off(low, high, maxHigh, x), Off(low, high, maxHigh, x + 1)))
    && (b < |bins| ==> Off(low, high, maxHigh, b) <= d && Consecutive(bins[b], Off(low, high, maxHigh, b), d))
    && (forall x :: b < x < |bins| ==> bins[x] == [])
  }

  ghost predicate Consecutive(s: seq<nat>, lo: nat, hi: nat) {
    lo <= hi && |s| == hi - lo && forall i :: 0 <= i < |s| ==> s[i] == lo + i
  }

  /** The first bin with room; its index is out of range if there is none. The loads are never changed, so the first bin
      with room always wins. */
  method BestBin(bins: seq<seq<nat>>, threshold: nat) returns (best: nat)
    ensures best < |bins| ==> |bins[best]| < threshold && forall x :: 0 <= x < best ==> |bins[x]| >= threshold
    ensures best >= |bins| ==> forall x :: 0 <= x < |bins| ==> |bins[x]| >= threshold
  {
    best := |bins| + 1;
    for b := 0 to |bins|
      invariant best < |bins| ==> best < b && |bins[best]| < threshold && forall x :: 0 <= x < best ==>
                  |bins[x]| >= threshold
      invariant best >= |bins| ==> best == |bins| + 1 && forall x :: 0 <= x < b ==> |bins[x]| >= threshold
    {
      if best == |bins| + 1 && |bins[b]| < threshold {
        best := b;
      }
    }
  }

  /** The bin that dimension d belongs to. */
  ghost predicate InBin(dim: nat, chunks: nat, low: nat, high: nat, maxHigh: nat, b: nat, d: nat) {
    && b <= chunks && Off(low, high, maxHigh, b) <= d
    && (if d < dim then b < chunks && d < Off(low, high, maxHigh, b + 1) else Off(low, high, maxHigh, b) == d)
  }

  /** After the last dimension of a bin comes the first one of the next bin, which is not empty unless all dimensions
      are placed. */
  lemma NextBin(dim: nat, chunks: nat, low: nat, high: nat, maxHigh: nat, b: nat, d: nat)
    requires Split(dim, chunks, low, high, maxHigh) && InBin(dim, chunks, low, high, maxHigh, b, d) && d < dim
    ensures var b' := if d + 1 == Off(low, high, maxHigh, b + 1) then b + 1 else b;
            InBin(dim, chunks, low, high, maxHigh, b', d + 1)
  {
    OffEnd(dim, chunks, low, high, maxHigh);
    OffGrows(low, high, maxHigh, b + 1, chunks);
    assert low <= high;
    hide Split;
    if d + 1 == Off(low, high, maxHigh, b + 1) && d + 1 < dim {
      assert b + 1 < chunks;
      if Size(low, high, maxHigh, b + 1) == 0 {
        SameOff(low, high, maxHigh, b + 1, chunks);
      }
    }
  }

  lemma {:induction false} SameOff(low: nat, high: nat, maxHigh: nat, a: nat, b: nat)
    requires a <= b && Size(low, high, maxHigh, a) == 0 && low <= high
    ensures Off(low, high, maxHigh, a) == Off(low, high, maxHigh, b)
  {
    if a < b {
      SameOff(low, high, maxHigh, a, b - 1);
    }
  }

  /** Bin b is the first one with room. */
  lemma RoomInBin(bins: seq<seq<nat>>, dim: nat, low: nat, high: nat, maxHigh: nat, b: nat, d: nat, threshold: nat)
    requires Filled(bins, low, high, maxHigh, b, d) && b < |bins| && low <= high
    requires threshold == Size(low, high, maxHigh, b)
    requires d < Off(low, high, maxHigh, b + 1)
    ensures |bins[b]| < threshold && forall x :: 0 <= x < b ==> |bins[x]| >= threshold
  {
    forall x | 0 <= x < b
      ensures |bins[x]| >= threshold
    {
      assert Consecutive(bins[x], Off(low, high, maxHigh, x), Off(low, high, maxHigh, x + 1));
    }
  }

  lemma PlaceDim(bins: seq<seq<nat>>, low: nat, high: nat, maxHigh: nat, b: nat, d: nat)
    requires Filled(bins, low, high, maxHigh, b, d) && b < |bins| && d < Off(low, high, maxHigh, b + 1)
    ensures var b' := if d + 1 == Off(low, high, maxHigh, b + 1) then b + 1 else b;
            Filled(bins[b := bins[b] + [d]], low, high, maxHigh, b', d + 1)
  {
    hide Off;
  }

  /** Distribute the dimensions over the bins: a bin is always found, and every bin is a run of consecutive
      dimensions. */
  method FillBins(dim: nat, chunks: nat) returns (bins: seq<seq<nat>>, low: nat, high: nat, maxHigh: nat)
    requires chunks > 0
    ensures Split(dim, chunks, low, high, maxHigh) && |bins| == chunks
    ensures forall x :: 0 <= x < chunks ==> Consecutive(bins[x], Off(low, high, maxHigh, x),
                                                        Off(low, high, maxHigh, x + 1))
  {
    hide Filled, Off, Consecutive, Split, InBin, Size;
    low, high, maxHigh := SplitSizes(dim, chunks);
    OffEnd(dim, chunks, low, high, maxHigh);
    bins := seq(chunks, _ => []);
    var curHigh: nat, threshold := 0, high;
    ghost var b: nat := StartBin(dim, chunks, low, high, maxHigh);
    FilledNone(bins, low, high, maxHigh);
    for d := 0 to dim
      invariant |bins| == chunks && Filled(bins, low, high, maxHigh, b, d)
      invariant InBin(dim, chunks, low, high, maxHigh, b, d)
      invariant threshold == Size(low, high, maxHigh, b) && (maxHigh > 0 ==> curHigh == Min(b, maxHigh))
    {
      bins, curHigh, threshold, b := FillOne(dim, chunks, low, high, maxHigh, bins, curHigh, threshold, d, b);
    }
    AllFilled(bins, dim, chunks, low, high, maxHigh, b);
  }

  /** Put dimension d into the first bin with room. */
  method FillOne(dim: nat, chunks: nat, low: nat, high: nat, maxHigh: nat, bins0: seq<seq<nat>>, curHigh0: nat,
                 threshold0: nat, d: nat, ghost b0: nat)
    returns (bins: seq<seq<nat>>, curHigh: nat, threshold: nat, ghost b: nat)
    requires Split(dim, chunks, low, high, maxHigh) && low <= high && (maxHigh == 0 <==> low == high)
    requires |bins0| == chunks && d < dim
    requires Filled(bins0, low, high, maxHigh, b0, d) && InBin(dim, chunks, low, high, maxHigh, b0, d)
    requires threshold0 == Size(low, high, maxHigh, b0) && (maxHigh > 0 ==> curHigh0 == Min(b0, maxHigh))
    ensures |bins| == chunks && Filled(bins, low, high, maxHigh, b, d + 1)
    ensures InBin(dim, chunks, low, high, maxHigh, b, d + 1)
    ensures threshold == Size(low, high, maxHigh, b) && (maxHigh > 0 ==> curHigh == Min(b, maxHigh))
  {
    hide Filled, Off, Consecutive, Split, InBin, Size;
    curHigh, threshold := curHigh0, threshold0;
    BinBound(dim, chunks, low, high, maxHigh, b0, d);
    RoomInBin(bins0, dim, low, high, maxHigh, b0, d, threshold);
    var best := BestBin(bins0, threshold);
    PlaceDim(bins0, low, high, maxHigh, b0, d);
    NextBin(dim, chunks, low, high, maxHigh, b0, d);
    BinSize(bins0, low, high, maxHigh, b0, d);
    bins := bins0[best := bins0[best] + [d]];
    b := if d + 1 == Off(low, high, maxHigh, b0 + 1) then b0 + 1 else b0;
    if |bins[best]| == high {
      curHigh := curHigh + 1;
      if curHigh == maxHigh {
        threshold := low;
      }
    }
    SizeIs(low, high, maxHigh, b);
    SizeIs(low, high, maxHigh, b0);
  }

  method SplitSizes(dim: nat, chunks: nat) returns (low: nat, high: nat, maxHigh: nat)
    requires chunks > 0
    ensures Split(dim, chunks, low, high, maxHigh) && low <= high && (maxHigh == 0 <==> low == high)
  {
    low, high := dim / chunks, if dim % chunks == 0 then dim / chunks else dim / chunks + 1;
    maxHigh := dim - low * chunks;
  }

  function Min(a: nat, b: nat): nat { if a < b then a else b }

  lemma StartBin(dim: nat, chunks: nat, low: nat, high: nat, maxHigh: nat) returns (b: nat)
    requires Split(dim, chunks, low, high, maxHigh)
    ensures b == 0 && InBin(dim, chunks, low, high, maxHigh, b, 0) && Size(low, high, maxHigh, 0) == high
  {
    b := 0;
    OffEnd(dim, chunks, low, high, maxHigh);
    assert Off(low, high, maxHigh, 1) == Size(low, high, maxHigh, 0);
    if dim > 0 && high == 0 {
      SameOff(low, high, maxHigh, 0, chunks);
    }
  }

  lemma BinSize(bins: seq<seq<nat>>, low: nat, high: nat, maxHigh: nat, b: nat, d: nat)
    requires Filled(bins, low, high, maxHigh, b, d) && b < |bins|
    ensures |bins[b]| + 1 == Size(low, high, maxHigh, b) <==> d + 1 == Off(low, high, maxHigh, b + 1)
  {
  }

  lemma AllFilled(bins: seq<seq<nat>>, dim: nat, chunks: nat, low: nat, high: nat, maxHigh: nat, b: nat)
    requires Filled(bins, low, high, maxHigh, b, dim) && InBin(dim, chunks, low, high, maxHigh, b, dim)
    requires |bins| == chunks
    requires Off(low, high, maxHigh, chunks) == dim
    ensures forall x :: 0 <= x < chunks ==> Consecutive(bins[x], Off(low, high, maxHigh, x),
                                                        Off(low, high, maxHigh, x + 1))
  {
    hide Off;
    forall x | 0 <= x < chunks
      ensures Consecutive(bins[x], Off(low, high, maxHigh, x), Off(low, high, maxHigh, x + 1))
    {
      if x >= b {
        OffGrows(low, high, maxHigh, b, x);
        OffGrows(low, high, maxHigh, x, x + 1);
        OffGrows(low, high, maxHigh, x + 1, chunks);
      }
    }
  }

  /** The chunk offsets and the order of the dimensions: contiguous chunks from 0 to dim, in the original order. */
  method Chunks(dim: nat, chunks: nat) returns (rearrangement: seq<nat>, offsets: seq<nat>)
    requires chunks > 0
    ensures |offsets| == chunks + 1 && offsets[0] == 0 && offsets[chunks] == dim
    ensures forall b :: 0 <= b < chunks ==> dim / chunks <= offsets[b + 1] - offsets[b] <= dim / chunks + 1
    ensures |rearrangement| == dim && forall j :: 0 <= j < dim ==> rearrangement[j] == j
  {
    hide Split, Off, Size;
    var bins, low, high, maxHigh := FillBins(dim, chunks);
    OffEnd(dim, chunks, low, high, maxHigh);
    OffZero(low, high, maxHigh);
    rearrangement, offsets := [], [0];
    for b := 0 to chunks
      invariant |rearrangement| == Off(low, high, maxHigh, b)
      invariant forall j :: 0 <= j < |rearrangement| ==> rearrangement[j] == j
      invariant |offsets| == (if b == 0 then 1 else b)
      invariant forall x :: 0 <= x < |offsets| ==> offsets[x] == Off(low, high, maxHigh, x)
    {
      assert Consecutive(bins[b], Off(low, high, maxHigh, b), Off(low, high, maxHigh, b + 1));
      rearrangement := rearrangement + bins[b];
      if b > 0 {
        assert Consecutive(bins[b - 1], Off(low, high, maxHigh, b - 1), Off(low, high, maxHigh, b));
        offsets := offsets + [offsets[b - 1] + |bins[b - 1]|];
      }
    }
    offsets := offsets + [dim];
    forall b | 0 <= b < chunks
      ensures dim / chunks <= offsets[b + 1] - offsets[b] <= dim / chunks + 1
    {
      OffStep(dim, chunks, low, high, maxHigh, b);
    }
  }

  lemma OffStep(dim: nat, chunks: nat, low: nat, high: nat, maxHigh: nat, b: nat)
    requires Split(dim, chunks, low, high, maxHigh)
    ensures dim / chunks <= Off(low, high, maxHigh, b + 1) - Off(low, high, maxHigh, b) <= dim / chunks + 1
  {
  }

  // ----- distances -----

  type Vector = seq<real>

  /** Squared distance over the dimensions lo .. hi - 1. */
  function Seg(x: Vector, y: Vector, lo: nat, hi: nat): (r: real)
    requires lo <= hi <= |x| && hi <= |y|
    ensures r >= 0.0
  {
    if lo == hi then 0.0
    else
      SquareNonNegative(x[hi - 1] - y[hi - 1]);
      Seg(x, y, lo, hi - 1) + Square(x[hi - 1] - y[hi - 1])
  }

  lemma SquareNonNegative(x: real)
    ensures Square(x) >= 0.0
  {
  }

  function Square(x: real): real { x * x }

  /** One dimension adds the square of its difference. */
  lemma SegOne(x: Vector, y: Vector, d: nat)
    requires d < |x| && d < |y|
    ensures Seg(x, y, d, d + 1) == x[d] * x[d] - 2.0 * x[d] * y[d] + y[d] * y[d]
  {
    assert Seg(x, y, d, d) == 0.0;
  }

  lemma {:induction false} SegJoin(x: Vector, y: Vector, lo: nat, mid: nat, hi: nat)
    requires lo <= mid <= hi <= |x| && hi <= |y|
    ensures Seg(x, y, lo, mid) + Seg(x, y, mid, hi) == Seg(x, y, lo, hi)
  {
    if mid < hi {
      SegJoin(x, y, lo, mid, hi - 1);
    }
  }

  lemma {:induction false} SegSame(x: Vector, x': Vector, y: Vector, y': Vector, lo: nat, hi: nat)
    requires lo <= hi <= |x| && hi <= |y| && hi <= |x'| && hi <= |y'|
    requires forall d :: lo <= d < hi ==> x[d] == x'[d] && y[d] == y'[d]
    ensures Seg(x, y, lo, hi) == Seg(x', y', lo, hi)
  {
    if lo < hi {
      SegSame(x, x', y, y', lo, hi - 1);
    }
  }

  /** A quantiser: 256 centres (rows of all dimensions), the chunk offsets, the order of the dimensions, the
      centroid. */
  datatype Table = Table(centers: seq<Vector>, offsets: seq<nat>, rearrangement: seq<nat>, centroid: Vector)

  ghost predicate TableOk(t: Table) {
    && |t.centers| == 256 && |t.offsets| >= 1 && t.offsets[0] == 0 && t.offsets[|t.offsets| - 1] == |t.centroid|
    && (forall c, e :: 0 <= c < e < |t.offsets| ==> t.offsets[c] <= t.offsets[e])
    && |t.rearrangement| == |t.centroid| && (forall j :: 0 <= j < |t.rearrangement| ==>
                                             t.rearrangement[j] < |t.centroid|)
    && (forall i :: 0 <= i < 256 ==> |t.centers[i]| == |t.centroid|)
  }

  function NChunks(t: Table): nat
    requires |t.offsets| >= 1
  {
    |t.offsets| - 1
  }

  ghost predicate CodeOk(t: Table, code: seq<nat>) {
    |t.offsets| >= 1 && |code| == NChunks(t) && forall c :: 0 <= c < |code| ==> code[c] < 256
  }

  /** A vector in the quantiser's order, relative to the centroid. */
  function Residual(t: Table, v: Vector): (r: Vector)
    requires TableOk(t) && |v| == |t.centroid|
    ensures |r| == |v|
  {
    seq(|v|, j requires 0 <= j < |v| => v[t.rearrangement[j]] - t.centroid[t.rearrangement[j]])
  }

  /** `x` is the decoding of `code`: in every chunk the coordinates of the chosen centre. */
  ghost predicate Decodes(t: Table, code: seq<nat>, x: Vector)
    requires TableOk(t) && CodeOk(t, code)
  {
    |x| == |t.centroid| && forall c, d :: 0 <= c < NChunks(t) && t.offsets[c] <= d < t.offsets[c + 1] ==>
      x[d] == t.centers[code[c]][d]
  }

  /** Distance of the chosen centres from y, chunk by chunk, over the first n chunks. */
  ghost function ChunkSum(t: Table, code: seq<nat>, y: Vector, n: nat): real
    requires TableOk(t) && CodeOk(t, code) && |y| == |t.centroid| && n <= NChunks(t)
  {
    if n == 0 then 0.0
    else ChunkSum(t, code, y, n - 1) + Seg(t.centers[code[n - 1]], y, t.offsets[n - 1], t.offsets[n])
  }

  /** The sum over chunks is the squared distance to the decoded vector. */
  lemma {:induction false} ChunkSumIs(t: Table, code: seq<nat>, x: Vector, y: Vector, n: nat)
    requires TableOk(t) && CodeOk(t, code) && |y| == |t.centroid| && n <= NChunks(t) && Decodes(t, code, x)
    ensures ChunkSum(t, code, y, n) == Seg(x, y, 0, t.offsets[n])
  {
    if n > 0 {
      ChunkSumIs(t, code, x, y, n - 1);
      SegSame(x, t.centers[code[n - 1]], y, y, t.offsets[n - 1], t.offsets[n]);
      SegJoin(x, y, 0, t.offsets[n - 1], t.offsets[n]);
    }
  }

  /** dists holds, for the chunks before c, the distance of every centre from y. */
  ghost predicate Tabled(t: Table, y: Vector, dists: seq<real>, n: nat)
    requires TableOk(t) && |y| == |t.centroid| && n <= NChunks(t) && |dists| == 256 * NChunks(t)
  {
    forall c, i :: 0 <= c < n && 0 <= i < 256 ==>
      dists[256 * c + i] == Seg(t.centers[i], y, t.offsets[c], t.offsets[c + 1])
  }

  /** Add one dimension to the row of every centre. */
  method AddDim(t: Table, y: Vector, dists: array<real>, base: nat, lo: nat, j: nat)
    requires TableOk(t) && |y| == |t.centroid| && base + 256 <= dists.Length && lo <= j < |y|
    requires forall i :: 0 <= i < 256 ==> dists[base + i] == Seg(t.centers[i], y, lo, j)
    modifies dists
    ensures forall i :: 0 <= i < 256 ==> dists[base + i] == Seg(t.centers[i], y, lo, j + 1)
    ensures forall k :: 0 <= k < dists.Length && !(base <= k < base + 256) ==> dists[k] == old(dists[k])
  {
    hide Square;
    for idx := 0 to 256
      invariant forall i :: 0 <= i < idx ==> dists[base + i] == Seg(t.centers[i], y, lo, j + 1)
      invariant forall i :: idx <= i < 256 ==> dists[base + i] == Seg(t.centers[i], y, lo, j)
      invariant forall k :: 0 <= k < dists.Length && !(base <= k < base + 256) ==> dists[k] == old(dists[k])
    {
      var diff := t.centers[idx][j] - y[j];
      dists[base + idx] := dists[base + idx] + Square(diff);
    }
  }

  /** The row of one chunk. */
  method FillChunk(t: Table, y: Vector, dists: array<real>, c: nat)
    requires TableOk(t) && |y| == |t.centroid| && dists.Length == 256 * NChunks(t) && c < NChunks(t)
    requires forall k :: 256 * c <= k < 256 * c + 256 ==> dists[k] == 0.0
    modifies dists
    ensures forall i :: 0 <= i < 256 ==> dists[256 * c + i] == Seg(t.centers[i], y, t.offsets[c], t.offsets[c + 1])
    ensures forall k :: 0 <= k < dists.Length && !(256 * c <= k < 256 * c + 256) ==> dists[k] == old(dists[k])
  {
    hide Seg;
    var lo, hi := t.offsets[c], t.offsets[c + 1];
    forall i | 0 <= i < 256
      ensures Seg(t.centers[i], y, lo, lo) == 0.0
    {
      SegNone(t.centers[i], y, lo);
    }
    for j := lo to hi
      invariant forall i :: 0 <= i < 256 ==> dists[256 * c + i] == Seg(t.centers[i], y, lo, j)
      invariant forall k :: 0 <= k < dists.Length && !(256 * c <= k < 256 * c + 256) ==> dists[k] == old(dists[k])
    {
      AddDim(t, y, dists, 256 * c, lo, j);
    }
  }

  /** populate_chunk_distances. */
  method PopulateChunkDistances(t: Table, query: Vector, dists: array<real>)
    requires TableOk(t) && |query| == |t.centroid| && dists.Length == 256 * NChunks(t)
    modifies dists
    ensures Tabled(t, Residual(t, query), dists[..], NChunks(t))
  {
    hide Seg, Residual;
    forall k | 0 <= k < dists.Length {
      dists[k] := 0.0;
    }
    var y := Residual(t, query);
    for c := 0 to NChunks(t)
      invariant Tabled(t, y, dists[..], c)
      invariant forall k :: 256 * c <= k < dists.Length ==> dists[k] == 0.0
    {
      FillChunk(t, y, dists, c);
    }
  }

  /** pq_dist_lookup: for every code the sum of its table entries, which is the squared distance between the query and
      the decoded vector. */
  method PqDistLookup(t: Table, codes: seq<seq<nat>>, dists: seq<real>, ghost y: Vector) returns (out: seq<real>)
    requires TableOk(t) && |y| == |t.centroid| && |dists| == 256 * NChunks(t) && Tabled(t, y, dists, NChunks(t))
    requires forall p :: 0 <= p < |codes| ==> CodeOk(t, codes[p])
    ensures |out| == |codes|
    ensures forall p, x :: 0 <= p < |codes| && Decodes(t, codes[p], x) ==> out[p] == Seg(x, y, 0, |y|)
  {
    hide Seg;
    out := seq(|codes|, _ => 0.0);
    for c := 0 to NChunks(t)
      invariant |out| == |codes| && forall p :: 0 <= p < |codes| ==> out[p] == ChunkSum(t, codes[p], y, c)
    {
      for p := 0 to |codes|
        invariant |out| == |codes|
        invariant forall q :: 0 <= q < p ==> out[q] == ChunkSum(t, codes[q], y, c + 1)
        invariant forall q :: p <= q < |codes| ==> out[q] == ChunkSum(t, codes[q], y, c)
      {
        assert CodeOk(t, codes[p]);
        out := out[p := out[p] + dists[256 * c + codes[p][c]]];
      }
    }
    forall p, x | 0 <= p < |codes| && Decodes(t, codes[p], x)
      ensures out[p] == Seg(x, y, 0, |y|)
    {
      ChunkSumIs(t, codes[p], x, y, NChunks(t));
    }
  }

  /** In the residual, distances are those of the original space: decoding adds the centroid back. */
  lemma {:induction false} ResidualDistance(t: Table, q: Vector, v: Vector, x: Vector, n: nat)
    requires TableOk(t) && |q| == |v| == |x| == |t.centroid| && n <= |q|
    requires forall j :: 0 <= j < |q| ==> t.rearrangement[j] == j && v[j] == x[j] + t.centroid[j]
    ensures Seg(x, Residual(t, q), 0, n) == Seg(v, q, 0, n)
  {
    if n > 0 {
      ResidualDistance(t, q, v, x, n - 1);
    }
  }

  // ----- encoding -----

  /** deflate_vec: the nearest centre of every chunk. */
  method Deflate(t: Table, v: Vector) returns (code: seq<nat>)
    requires TableOk(t) && |v| == |t.centroid|
    ensures CodeOk(t, code) && Nearest(t, Residual(t, v), code)
  {
    hide Seg, Residual;
    var y := Residual(t, v);
    code := [];
    for c := 0 to NChunks(t)
      invariant |code| == c && (forall d :: 0 <= d < c ==> code[d] < 256)
      invariant forall d, i :: 0 <= d < c && 0 <= i < 256 ==>
                  Seg(t.centers[code[d]], y, t.offsets[d], t.offsets[d + 1]) <= Seg(t.centers[i], y, t.offsets[d],
                            t.offsets[d + 1])
    {
      var best := NearestCenter(t, y, t.offsets[c], t.offsets[c + 1]);
      code := code + [best];
    }
  }

  ghost predicate Nearest(t: Table, y: Vector, code: seq<nat>)
    requires TableOk(t) && CodeOk(t, code) && |y| == |t.centroid|
  {
    forall c, i :: 0 <= c < NChunks(t) && 0 <= i < 256 ==>
      Seg(t.centers[code[c]], y, t.offsets[c], t.offsets[c + 1]) <= Seg(t.centers[i], y, t.offsets[c], t.offsets[c + 1])
  }

  method NearestCenter(t: Table, y: Vector, lo: nat, hi: nat) returns (best: nat)
    requires TableOk(t) && |y| == |t.centroid| && lo <= hi <= |y|
    ensures best < 256 && forall i :: 0 <= i < 256 ==> Seg(t.centers[best], y, lo, hi) <= Seg(t.centers[i], y, lo, hi)
  {
    hide Seg;
    best := 0;
    var closest := Distance(t.centers[0], y, lo, hi);
    for i := 1 to 256
      invariant best < 256 && closest == Seg(t.centers[best], y, lo, hi)
      invariant forall k :: 0 <= k < i ==> closest <= Seg(t.centers[k], y, lo, hi)
    {
      var cur := Distance(t.centers[i], y, lo, hi);
      if cur < closest {
        closest, best := cur, i;
      }
    }
  }

  method Distance(x: Vector, y: Vector, lo: nat, hi: nat) returns (r: real)
    requires lo <= hi <= |x| && hi <= |y|
    ensures r == Seg(x, y, lo, hi)
  {
    r := 0.0;
    for d := lo to hi
      invariant r == Seg(x, y, lo, d)
    {
      var diff := x[d] - y[d];
      r := r + Square(diff);
    }
  }

  lemma {:induction false} NearestSums(t: Table, y: Vector, code: seq<nat>, other: seq<nat>, n: nat)
    requires TableOk(t) && CodeOk(t, code) && CodeOk(t, other) && |y| == |t.centroid| && n <= NChunks(t)
    requires Nearest(t, y, code)
    ensures ChunkSum(t, code, y, n) <= ChunkSum(t, other, y, n)
  {
    hide Seg;
    if n > 0 {
      NearestSums(t, y, code, other, n - 1);
    }
  }

  /** No code decodes to a vector nearer than the one deflate_vec chooses. */
  lemma DeflateOptimal(t: Table, y: Vector, code: seq<nat>, x: Vector, other: seq<nat>, z: Vector)
    requires TableOk(t) && CodeOk(t, code) && CodeOk(t, other) && |y| == |t.centroid| && Nearest(t, y, code)
    requires Decodes(t, code, x) && Decodes(t, other, z)
    ensures Seg(x, y, 0, |y|) <= Seg(z, y, 0, |y|)
  {
    hide Seg, Nearest, Decodes;
    NearestSums(t, y, code, other, NChunks(t));
    ChunkSumIs(t, code, x, y, NChunks(t));
    ChunkSumIs(t, other, z, y, NChunks(t));
  }

  // ----- distances between codes -----

  /** Start of row r in a flat table of rows of n entries. */
  function Row(r: nat, n: nat): nat {
    r * n
  }

  lemma RowStep(r: nat, n: nat)
    ensures Row(r + 1, n) == Row(r, n) + n && Row(0, n) == 0
  {
  }

  lemma {:induction false} RowGrows(r: nat, q: nat, n: nat)
    requires r <= q
    ensures Row(r, n) <= Row(q, n)
  {
    if r < q {
      RowGrows(r, q - 1, n);
      RowStep(q - 1, n);
    }
  }

  /** Where the source keeps the entry of centres i and j and chunk c: in row 256 i + j. */
  function Flat(i: nat, j: nat, c: nat, n: nat): nat {
    i * 256 * n + j * n + c
  }

  lemma FlatIndex(i: nat, j: nat, c: nat, n: nat)
    ensures Flat(i, j, c, n) == Row(256 * i + j, n) + c
  {
    assert (256 * i + j) * n == 256 * i * n + j * n;
  }

  function ChunkDistance(t: Table, i: nat, j: nat, c: nat): real
    requires TableOk(t) && i < 256 && j < 256 && c < NChunks(t)
  {
    Seg(t.centers[i], t.centers[j], t.offsets[c], t.offsets[c + 1])
  }

  /** Row q of the table holds the chunk distances of its pair of centres. */
  ghost predicate PairRow(t: Table, table: seq<real>, q: nat)
    requires TableOk(t) && q < 65536
  {
    && Row(q, NChunks(t)) + NChunks(t) <= |table|
    && forall c :: 0 <= c < NChunks(t) ==> table[Row(q, NChunks(t)) + c] == ChunkDistance(t, q / 256, q % 256, c)
  }

  ghost predicate PairTable(t: Table, table: seq<real>, rows: nat)
    requires TableOk(t) && rows <= 65536
  {
    |table| == Row(65536, NChunks(t)) && forall q :: 0 <= q < rows ==> PairRow(t, table, q)
  }

  /** The entries of one pair of centres, dimension by dimension. */
  method FillPair(t: Table, table: array<real>, i: nat, j: nat, base: nat)
    requires TableOk(t) && i < 256 && j < 256 && base + NChunks(t) <= table.Length
    requires forall k :: base <= k < base + NChunks(t) ==> table[k] == 0.0
    modifies table
    ensures forall c :: 0 <= c < NChunks(t) ==> table[base + c] == ChunkDistance(t, i, j, c)
    ensures forall k :: 0 <= k < table.Length && !(base <= k < base + NChunks(t)) ==> table[k] == old(table[k])
  {
    hide Square;
    for c := 0 to NChunks(t)
      invariant forall e :: 0 <= e < c ==> table[base + e] == ChunkDistance(t, i, j, e)
      invariant forall k :: base + c <= k < base + NChunks(t) ==> table[k] == 0.0
      invariant forall k :: 0 <= k < table.Length && !(base <= k < base + NChunks(t)) ==> table[k] == old(table[k])
    {
      var lo, hi := t.offsets[c], t.offsets[c + 1];
      for d := lo to hi
        invariant table[base + c] == Seg(t.centers[i], t.centers[j], lo, d)
        invariant forall e :: 0 <= e < c ==> table[base + e] == ChunkDistance(t, i, j, e)
        invariant forall k :: base + c < k < base + NChunks(t) ==> table[k] == 0.0
        invariant forall k :: 0 <= k < table.Length && !(base <= k < base + NChunks(t)) ==> table[k] == old(table[k])
      {
        var diff := t.centers[i][d] - t.centers[j][d];
        table[base + c] := table[base + c] + Square(diff);
      }
    }
  }

  /** One row more of the table. */
  lemma NextRow(t: Table, was: seq<real>, table: seq<real>, q: nat)
    requires TableOk(t) && q < 65536 && PairTable(t, was, q) && |table| == |was|
    requires var base := Row(q, NChunks(t));
             && base + NChunks(t) <= |table|
             && (forall c :: 0 <= c < NChunks(t) ==> table[base + c] == ChunkDistance(t, q / 256, q % 256, c))
             && forall k :: 0 <= k < base ==> table[k] == was[k]
    ensures PairTable(t, table, q + 1)
  {
    hide Row, ChunkDistance;
    forall p | 0 <= p < q
      ensures PairRow(t, table, p)
    {
      assert PairRow(t, was, p);
      RowStep(p, NChunks(t));
      RowGrows(p + 1, q, NChunks(t));
    }
  }

  /** The part of post_load_pq_table that fills the table of distances between centres. */
  method FillAllToAll(t: Table, table: array<real>)
    requires TableOk(t) && table.Length == Row(65536, NChunks(t))
    modifies table
    ensures PairTable(t, table[..], 65536)
  {
    hide PairRow, Row, ChunkDistance;
    forall k | 0 <= k < table.Length {
      table[k] := 0.0;
    }
    var n := NChunks(t);
    var base := 0;
    RowStep(0, n);
    for i := 0 to 256
      invariant PairTable(t, table[..], 256 * i) && base == Row(256 * i, n)
      invariant forall k :: base <= k < table.Length ==> table[k] == 0.0
    {
      for j := 0 to 256
        invariant PairTable(t, table[..], 256 * i + j) && base == Row(256 * i + j, n)
        invariant forall k :: base <= k < table.Length ==> table[k] == 0.0
      {
        RowStep(256 * i + j, n);
        RowGrows(256 * i + j + 1, 65536, n);
        ghost var was := table[..];
        FillPair(t, table, i, j, base);
        NextRow(t, was, table[..], 256 * i + j);
        base := base + n;
      }
    }
  }

  /** The code at position p of a flat array of codes of n chunks. */
  function CodeAt(codes: seq<nat>, p: nat, n: nat): (r: seq<nat>)
    requires Row(p, n) + n <= |codes|
    ensures |r| == n
  {
    codes[Row(p, n)..Row(p, n) + n]
  }

  /** compute_distances_alltoall: for every destination code the sum of the table's entries, which is the squared
      distance between the two decoded vectors. */
  method AllToAll(t: Table, table: seq<real>, src: seq<nat>, dsts: seq<nat>, count: nat) returns (dists: seq<real>)
    requires TableOk(t) && PairTable(t, table, 65536) && CodeOk(t, src)
    requires |dsts| == Row(count, NChunks(t)) && forall k :: 0 <= k < |dsts| ==> dsts[k] < 256
    ensures |dists| == count
    ensures forall p :: 0 <= p < count ==>
              Row(p, NChunks(t)) + NChunks(t) <= |dsts|
                && DecodedDistance(t, src, CodeAt(dsts, p, NChunks(t)), dists[p])
  {
    hide Seg, Row, PairTable, DecodedDistance, Flat;
    var n := NChunks(t);
    dists := [];
    for i := 0 to count
      invariant |dists| == i
      invariant forall p :: 0 <= p < i ==>
                  Row(p, n) + n <= |dsts| && DecodedDistance(t, src, CodeAt(dsts, p, n), dists[p])
    {
      RowStep(i, n);
      RowGrows(i + 1, count, n);
      var dst := CodeAt(dsts, i, n);
      var sum := 0.0;
      for c := 0 to n
        invariant sum == PairSum(t, src, dst, c)
      {
        TableEntry(t, table, src[c], dst[c], c);
        sum := sum + table[Flat(src[c], dst[c], c, n)];
      }
      PairDistance(t, src, dst);
      dists := dists + [sum];
    }
  }

  /** d is the squared distance between the vectors that two codes decode to. */
  ghost predicate DecodedDistance(t: Table, a: seq<nat>, b: seq<nat>, d: real)
    requires TableOk(t)
  {
    && CodeOk(t, a) && CodeOk(t, b)
    && forall x, y :: Decodes(t, a, x) && Decodes(t, b, y) ==> d == Seg(x, y, 0, |t.centroid|)
  }

  lemma PairDistance(t: Table, a: seq<nat>, b: seq<nat>)
    requires TableOk(t) && CodeOk(t, a) && CodeOk(t, b)
    ensures DecodedDistance(t, a, b, PairSum(t, a, b, NChunks(t)))
  {
    hide Seg;
    forall x, y | Decodes(t, a, x) && Decodes(t, b, y)
      ensures PairSum(t, a, b, NChunks(t)) == Seg(x, y, 0, |t.centroid|)
    {
      PairSumIs(t, a, b, x, y, NChunks(t));
    }
  }

  lemma TableEntry(t: Table, table: seq<real>, i: nat, j: nat, c: nat)
    requires TableOk(t) && PairTable(t, table, 65536) && i < 256 && j < 256 && c < NChunks(t)
    ensures Flat(i, j, c, NChunks(t)) < |table|
    ensures table[Flat(i, j, c, NChunks(t))] == Seg(t.centers[i], t.centers[j], t.offsets[c], t.offsets[c + 1])
  {
    hide Row, Seg, Flat;
    FlatIndex(i, j, c, NChunks(t));
    var q := 256 * i + j;
    assert q / 256 == i && q % 256 == j;
    assert PairRow(t, table, q);
    assert table[Row(q, NChunks(t)) + c] == ChunkDistance(t, q / 256, q % 256, c);
  }

  ghost function PairSum(t: Table, a: seq<nat>, b: seq<nat>, n: nat): real
    requires TableOk(t) && CodeOk(t, a) && CodeOk(t, b) && n <= NChunks(t)
  {
    if n == 0 then 0.0
    else PairSum(t, a, b, n - 1) + Seg(t.centers[a[n - 1]], t.centers[b[n - 1]], t.offsets[n - 1], t.offsets[n])
  }

  lemma {:induction false} PairSumIs(t: Table, a: seq<nat>, b: seq<nat>, x: Vector, y: Vector, n: nat)
    requires TableOk(t) && CodeOk(t, a) && CodeOk(t, b) && n <= NChunks(t) && Decodes(t, a, x) && Decodes(t, b, y)
    ensures PairSum(t, a, b, n) == Seg(x, y, 0, t.offsets[n])
  {
    if n > 0 {
      PairSumIs(t, a, b, x, y, n - 1);
      SegSame(x, t.centers[a[n - 1]], y, t.centers[b[n - 1]], t.offsets[n - 1], t.offsets[n]);
      SegJoin(x, y, 0, t.offsets[n - 1], t.offsets[n]);
    }
  }

  lemma SegNone(x: Vector, y: Vector, lo: nat)
    requires lo <= |x| && lo <= |y|
    ensures Seg(x, y, lo, lo) == 0.0
  {
  }

  lemma FilledNone(bins: seq<seq<nat>>, low: nat, high: nat, maxHigh: nat)
    requires forall x :: 0 <= x < |bins| ==> bins[x] == []
    ensures Filled(bins, low, high, maxHigh, 0, 0)
  {
  }

  lemma BinBound(dim: nat, chunks: nat, low: nat, high: nat, maxHigh: nat, b: nat, d: nat)
    requires InBin(dim, chunks, low, high, maxHigh, b, d) && d < dim
    ensures b < chunks && d < Off(low, high, maxHigh, b + 1)
  {
  }

  lemma SizeIs(low: nat, high: nat, maxHigh: nat, b: nat)
    ensures Size(low, high, maxHigh, b) == if b < maxHigh then high else low
  {
  }

  lemma OffZero(low: nat, high: nat, maxHigh: nat)
    ensures Off(low, high, maxHigh, 0) == 0
  {
  }
}
