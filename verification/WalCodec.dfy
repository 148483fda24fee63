/** The byte format of the tag index's write-ahead log, and what recovery reads from it, also from a log cut short. */
module WalCodec {
  import opened Wrappers

  type Byte = x: nat | x < 256
  type U32 = x: nat | x < 0x1_0000_0000
  type I32 = x: int | -0x8000_0000 <= x < 0x8000_0000

  datatype Op = Insert(vid: U32, tags: seq<I32>) | Remove(vid: U32)

  /** n bytes, least significant first. */
  function PutBytes(x: nat, n: nat): (b: seq<Byte>)
    ensures |b| == n
  {
    if n == 0 then []
    else
      var low: nat, high: nat := x % 256, x / 256;
      [low] + PutBytes(high, n - 1)
  }

  function GetBytes(b: seq<Byte>): (x: nat) {
    if b == [] then 0 else b[0] + 256 * GetBytes(b[1..])
  }

  function Bound(n: nat): (r: nat)
    ensures r > 0
  {
    if n == 0 then 1 else 256 * Bound(n - 1)
  }

  lemma {:induction false} BytesRoundTrip(x: nat, n: nat)
    requires x < Bound(n)
    ensures GetBytes(PutBytes(x, n)) == x
  {
    if n > 0 {
      BytesRoundTrip(x / 256, n - 1);
    }
  }

  lemma {:induction false} GetBytesBound(b: seq<Byte>)
    ensures GetBytes(b) < Bound(|b|)
  {
    if b != [] {
      GetBytesBound(b[1..]);
    }
  }

  lemma FourBytes()
    ensures Bound(4) == 0x1_0000_0000
  {
    assert Bound(1) == 256 && Bound(2) == 65536 && Bound(3) == 16777216;
  }

  function PutU32(x: U32): (b: seq<Byte>)
    ensures |b| == 4
  {
    PutBytes(x, 4)
  }

  function GetU32(b: seq<Byte>): (x: U32)
    requires |b| == 4
  {
    GetBytesBound(b);
    FourBytes();
    GetBytes(b)
  }

  lemma U32RoundTrip(x: U32)
    ensures GetU32(PutU32(x)) == x
  {
    FourBytes();
    BytesRoundTrip(x, 4);
  }

  /** Two's complement. */
  function PutI32(x: I32): (b: seq<Byte>)
    ensures |b| == 4
  {
    PutU32(if x < 0 then x + 0x1_0000_0000 else x)
  }

  function GetI32(b: seq<Byte>): (x: I32)
    requires |b| == 4
  {
    var u := GetU32(b);
    if u < 0x8000_0000 then u else u - 0x1_0000_0000
  }

  lemma I32RoundTrip(x: I32)
    ensures GetI32(PutI32(x)) == x
  {
    U32RoundTrip(if x < 0 then x + 0x1_0000_0000 else x);
  }

  function PutTags(tags: seq<I32>): (b: seq<Byte>)
    ensures |b| == 4 * |tags|
  {
    if tags == [] then [] else PutI32(tags[0]) + PutTags(tags[1..])
  }

  function GetTags(b: seq<Byte>, count: nat): (tags: seq<I32>)
    requires |b| == 4 * count
    ensures |tags| == count
  {
    if count == 0 then [] else [GetI32(b[..4])] + GetTags(b[4..], count - 1)
  }

  lemma {:induction false} TagsRoundTrip(tags: seq<I32>)
    ensures GetTags(PutTags(tags), |tags|) == tags
  {
    if tags != [] {
      var b := PutTags(tags);
      assert b[..4] == PutI32(tags[0]) && b[4..] == PutTags(tags[1..]);
      I32RoundTrip(tags[0]);
      TagsRoundTrip(tags[1..]);
    }
  }

  /** The count field has 32 bits. */
  predicate Loggable(op: Op) {
    op.Insert? ==> |op.tags| < 0x1_0000_0000
  }

  function Encode(op: Op): (b: seq<Byte>)
    requires Loggable(op)
  {
    match op
    case Insert(vid, tags) => [1] + PutU32(vid) + PutU32(|tags|) + PutTags(tags)
    case Remove(vid) => [2] + PutU32(vid)
  }

  function EncodeAll(ops: seq<Op>): (b: seq<Byte>)
    requires forall i :: 0 <= i < |ops| ==> Loggable(ops[i])
  {
    if ops == [] then [] else EncodeAll(ops[..|ops| - 1]) + Encode(ops[|ops| - 1])
  }

  /** What one turn of the recovery loop reads: an operation and the rest, no operation for an unknown code, or nothing
      for a record cut short. */
  function ReadOne(b: seq<Byte>): (r: Option<(Option<Op>, seq<Byte>)>)
    requires b != []
    ensures r.Some? ==> |r.value.1| < |b|
  {
    if b[0] == 1 then
      if |b| < 9 then None
      else
        var count := GetU32(b[5..9]);
        if |b| < 9 + 4 * count then None
        else Some((Some(Insert(GetU32(b[1..5]), GetTags(b[9..9 + 4 * count], count))), b[9 + 4 * count..]))
    else if b[0] == 2 then
      if |b| < 5 then None else Some((Some(Remove(GetU32(b[1..5]))), b[5..]))
    else Some((None, b[1..]))
  }

  function Parse(b: seq<Byte>): (r: Option<seq<Op>>)
    decreases |b|
  {
    if b == [] then Some([])
    else
      match ReadOne(b)
      case None => None
      case Some((op, rest)) =>
        match Parse(rest)
        case None => None
        case Some(ops) => Some(if op.Some? then [op.value] + ops else ops)
  }

  lemma ReadInsert(vid: U32, tags: seq<I32>, rest: seq<Byte>)
    requires |tags| < 0x1_0000_0000
    ensures ReadOne(Encode(Insert(vid, tags)) + rest) == Some((Some(Insert(vid, tags)), rest))
  {
    hide PutU32, GetU32, PutTags, GetTags;
    var b := [1] + PutU32(vid) + PutU32(|tags|) + PutTags(tags) + rest;
    assert b == Encode(Insert(vid, tags)) + rest;
    assert b[1..5] == PutU32(vid) && b[5..9] == PutU32(|tags|);
    U32RoundTrip(vid);
    U32RoundTrip(|tags|);
    assert b[9..9 + 4 * |tags|] == PutTags(tags);
    assert b[9 + 4 * |tags|..] == rest;
    TagsRoundTrip(tags);
  }

  lemma ReadRemove(vid: U32, rest: seq<Byte>)
    ensures ReadOne(Encode(Remove(vid)) + rest) == Some((Some(Remove(vid)), rest))
  {
    hide PutU32, GetU32;
    var b := [2] + PutU32(vid) + rest;
    assert b == Encode(Remove(vid)) + rest;
    assert b[1..5] == PutU32(vid) && b[5..] == rest;
    U32RoundTrip(vid);
  }

  lemma ParseOne(op: Op, rest: seq<Byte>)
    requires Loggable(op) && Parse(rest).Some?
    ensures Parse(Encode(op) + rest) == Some([op] + Parse(rest).value)
  {
    hide PutU32, GetU32, PutTags, GetTags, ReadOne;
    if op.Insert? {
      ReadInsert(op.vid, op.tags, rest);
    } else {
      ReadRemove(op.vid, rest);
    }
    assert Encode(op) + rest != [];
  }

  lemma {:induction false} ParseAppended(ops: seq<Op>, rest: seq<Byte>)
    requires forall i :: 0 <= i < |ops| ==> Loggable(ops[i])
    requires Parse(rest).Some?
    ensures Parse(EncodeAll(ops) + rest) == Some(ops + Parse(rest).value)
  {
    hide Parse, Encode, Loggable;
    if ops == [] {
      assert EncodeAll(ops) + rest == rest;
      assert ops + Parse(rest).value == Parse(rest).value;
    } else {
      var t, op := ops[..|ops| - 1], ops[|ops| - 1];
      var tail := Encode(op) + rest;
      ParseOne(op, rest);
      ParseAppended(t, tail);
      assert EncodeAll(ops) + rest == EncodeAll(t) + tail;
      assert t + ([op] + Parse(rest).value) == ops + Parse(rest).value;
    }
  }

  /** A log of complete records reads back as the operations appended. */
  lemma WalRoundTrip(ops: seq<Op>)
    requires forall i :: 0 <= i < |ops| ==> Loggable(ops[i])
    ensures Parse(EncodeAll(ops)) == Some(ops)
  {
    ParseAppended(ops, []);
    assert EncodeAll(ops) + [] == EncodeAll(ops);
    assert ops + [] == ops;
  }

  // ----- logs cut short -----

  /** A four-byte variable after a read that got only some bytes: they overwrite its first bytes. */
  function Fill(have: seq<Byte>, garbage: seq<Byte>): (r: seq<Byte>)
    requires |garbage| == 4
    ensures |r| == 4
  {
    if |have| >= 4 then have[..4] else have + garbage[|have|..]
  }

  function Zeros(n: nat): (r: seq<Byte>)
    ensures |r| == n && forall i :: 0 <= i < n ==> r[i] == 0
  {
    seq(n, _ => 0)
  }

  function From(b: seq<Byte>, i: nat): (r: seq<Byte>)
    ensures |r| == if i <= |b| then |b| - i else 0
  {
    if i <= |b| then b[i..] else []
  }

  /** The operation that recovery makes of a record cut short. The variables for id and count start with whatever is in
      memory, the tags start as zeros. */
  function Torn(b: seq<Byte>, vid: seq<Byte>, count: seq<Byte>): (op: Op)
    requires b != [] && ReadOne(b).None? && |vid| == |count| == 4
    ensures Loggable(op)
  {
    if b[0] == 2 then Remove(GetU32(Fill(From(b, 1), vid)))
    else
      var n := GetU32(Fill(From(b, 5), count));
      assert |b| >= 9 ==> Fill(From(b, 5), count) == b[5..9];
      Insert(GetU32(Fill(From(b, 1), vid)), GetTags(From(b, 9) + Zeros(4 * n - |From(b, 9)|), n))
  }

  lemma {:induction false} BytesBack(b: seq<Byte>)
    ensures PutBytes(GetBytes(b), |b|) == b
  {
    if b != [] {
      BytesBack(b[1..]);
      LowByte(b[0], GetBytes(b[1..]));
      assert b == [b[0]] + b[1..];
    }
  }

  lemma LowByte(low: Byte, high: nat)
    ensures (low + 256 * high) % 256 == low && (low + 256 * high) / 256 == high
  {
  }

  lemma U32Back(b: seq<Byte>)
    requires |b| == 4
    ensures PutU32(GetU32(b)) == b
  {
    BytesBack(b);
  }

  lemma {:induction false} TagsBack(b: seq<Byte>, count: nat)
    requires |b| == 4 * count
    ensures PutTags(GetTags(b, count)) == b
  {
    hide PutU32, GetU32;
    if count > 0 {
      U32Back(b[..4]);
      TagsBack(b[4..], count - 1);
      assert b == b[..4] + b[4..];
      assert GetTags(b, count)[1..] == GetTags(b[4..], count - 1);
    }
  }

  /** A field of four bytes of which the first ones were read: the others are what memory held. */
  ghost predicate HalfRead(field: seq<Byte>, record: seq<Byte>, at: nat, memory: seq<Byte>) {
    |field| == |memory| == 4 && forall i :: 0 <= i < 4 ==> field[i] == if at + i < |record| then record[at + i]
      else memory[i]
  }

  lemma FillIs(b: seq<Byte>, at: nat, memory: seq<Byte>)
    requires |memory| == 4
    ensures HalfRead(Fill(From(b, at), memory), b, at, memory)
  {
  }

  /** What becomes of a record cut short, field by field: the bytes that are there are read, missing bytes of the id and
      of the count are what memory held, and missing bytes of the tags are zero. */
  lemma TornIs(b: seq<Byte>, vid: seq<Byte>, count: seq<Byte>)
    requires b != [] && ReadOne(b).None? && |vid| == |count| == 4
    ensures var op := Torn(b, vid, count);
            && (op.Remove? <==> b[0] == 2) && HalfRead(PutU32(op.vid), b, 1, vid)
            && (op.Insert? ==>
                  && Loggable(op) && HalfRead(PutU32(|op.tags|), b, 5, count)
                  && forall i :: 0 <= i < 4 * |op.tags| ==>
                       PutTags(op.tags)[i] == if 9 + i < |b| then b[9 + i] else 0)
  {
    hide PutU32, GetU32, PutTags, GetTags, HalfRead;
    FillIs(b, 1, vid);
    FillIs(b, 5, count);
    U32Back(Fill(From(b, 1), vid));
    U32Back(Fill(From(b, 5), count));
    if b[0] != 2 {
      var n: nat := GetU32(Fill(From(b, 5), count));
      TornTags(b, count);
      TagsBack(From(b, 9) + Zeros(4 * n - |From(b, 9)|), n);
    }
  }

  /** The tags that are there do not exceed the count. */
  lemma TornTags(b: seq<Byte>, count: seq<Byte>)
    requires b != [] && b[0] != 2 && ReadOne(b).None? && |count| == 4
    ensures |From(b, 9)| <= 4 * GetU32(Fill(From(b, 5), count))
  {
    assert |b| >= 9 ==> Fill(From(b, 5), count) == b[5..9];
  }

  /** The operations that recovery applies. */
  function Recovered(b: seq<Byte>, vid: seq<Byte>, count: seq<Byte>): (ops: seq<Op>)
    requires |vid| == |count| == 4
    ensures forall i :: 0 <= i < |ops| ==> Loggable(ops[i])
    decreases |b|
  {
    if b == [] then []
    else
      match ReadOne(b)
      case None => [Torn(b, vid, count)]
      case Some((op, rest)) =>
        ReadLoggable(b);
        (if op.Some? then [op.value] else []) + Recovered(rest, vid, count)
  }

  lemma RecoveredStep(b: seq<Byte>, vid: seq<Byte>, count: seq<Byte>)
    requires b != [] && |vid| == |count| == 4
    ensures var r := ReadOne(b);
            var op, left := if r.Some? then r.value.0 else Some(Torn(b, vid, count)), if r.Some? then r.value.1 else [];
            |left| < |b| && Recovered(b, vid, count) == (if op.Some? then [op.value] else []) + Recovered(left, vid,
                      count)
  {
    hide Torn, ReadOne;
  }

  lemma ReadLoggable(b: seq<Byte>)
    requires b != []
    ensures ReadOne(b).Some? && ReadOne(b).value.0.Some? ==> Loggable(ReadOne(b).value.0.value)
  {
  }

  lemma ReadMore(b: seq<Byte>, c: seq<Byte>)
    requires b != [] && ReadOne(b).Some?
    ensures ReadOne(b + c) == Some((ReadOne(b).value.0, ReadOne(b).value.1 + c))
  {
    hide GetU32, GetTags;
    var d := b + c;
    if b[0] == 1 {
      assert d[1..5] == b[1..5] && d[5..9] == b[5..9];
      var count: nat := GetU32(b[5..9]);
      assert d[9..9 + 4 * count] == b[9..9 + 4 * count];
      assert d[9 + 4 * count..] == b[9 + 4 * count..] + c;
    } else if b[0] == 2 {
      assert d[1..5] == b[1..5] && d[5..] == b[5..] + c;
    } else {
      assert d[1..] == b[1..] + c;
    }
  }

  /** Whole records are recovered as they are, whatever follows them. */
  lemma {:induction false} RecoverWhole(a: seq<Byte>, c: seq<Byte>, vid: seq<Byte>, count: seq<Byte>)
    requires Parse(a).Some? && |vid| == |count| == 4
    ensures Recovered(a + c, vid, count) == Parse(a).value + Recovered(c, vid, count)
    decreases |a|
  {
    hide ReadOne, Torn;
    if a == [] {
      assert a + c == c;
    } else {
      ReadMore(a, c);
      RecoverWhole(ReadOne(a).value.1, c, vid, count);
    }
  }

  /** A log is its whole records and a record cut short. */
  lemma {:induction false} TornTail(b: seq<Byte>) returns (a: seq<Byte>, t: seq<Byte>)
    requires Parse(b).None?
    ensures b == a + t && Parse(a).Some? && t != [] && ReadOne(t).None?
    decreases |b|
  {
    if ReadOne(b).None? {
      a, t := [], b;
    } else {
      var rest := ReadOne(b).value.1;
      a, t := TornTail(rest);
      var n := |b| - |rest|;
      assert b[n..] == rest;
      assert b[..n] + a + t == b;
      ReadPrefix(b, a);
      a := b[..n] + a;
    }
  }

  /** Reading a record does not depend on what follows it. */
  lemma ReadPrefix(b: seq<Byte>, a: seq<Byte>)
    requires b != [] && ReadOne(b).Some?
    ensures var n := |b| - |ReadOne(b).value.1|; n > 0 && ReadOne(b[..n] + a) == Some((ReadOne(b).value.0, a))
  {
    hide GetU32, GetTags;
    var n := |b| - |ReadOne(b).value.1|;
    var d := b[..n] + a;
    assert d[n..] == a;
    if b[0] == 1 {
      assert d[1..5] == b[1..5] && d[5..9] == b[5..9];
      assert d[9..n] == b[9..n];
    } else if b[0] == 2 {
      assert d[1..5] == b[1..5];
    }
  }

  lemma {:induction false} GetBytesInjective(a: seq<Byte>, b: seq<Byte>)
    requires |a| == |b| && GetBytes(a) == GetBytes(b)
    ensures a == b
  {
    if a != [] {
      var x, y := GetBytes(a[1..]), GetBytes(b[1..]);
      assert a[0] + 256 * x == b[0] + 256 * y;
      GetBytesInjective(a[1..], b[1..]);
      assert a == [a[0]] + a[1..] && b == [b[0]] + b[1..];
    }
  }

  lemma {:induction false} GetTagsInjective(a: seq<Byte>, b: seq<Byte>, count: nat)
    requires |a| == |b| == 4 * count && GetTags(a, count) == GetTags(b, count)
    ensures a == b
  {
    if count > 0 {
      var s, t := GetTags(a, count), GetTags(b, count);
      assert s[0] == GetI32(a[..4]) && t[0] == GetI32(b[..4]);
      GetBytesInjective(a[..4], b[..4]);
      assert s[1..] == GetTags(a[4..], count - 1) && t[1..] == GetTags(b[4..], count - 1);
      GetTagsInjective(a[4..], b[4..], count - 1);
      assert a == a[..4] + a[4..] && b == b[..4] + b[4..];
    }
  }

  /** A restart is reliable for a log if, whatever is appended to it later and whatever is in memory, the next restart
      recovers what this one did, followed by what was appended. */
  ghost predicate Reliable(log: seq<Byte>) {
    forall later: seq<Op>, v: seq<Byte>, c: seq<Byte>, v': seq<Byte>, c': seq<Byte> ::
      (forall i :: 0 <= i < |later| ==> Loggable(later[i])) && |v| == |c| == |v'| == |c'| == 4 ==>
        Agrees(log, later, v, c, v', c')
  }

  ghost predicate Agrees(log: seq<Byte>, later: seq<Op>, v: seq<Byte>, c: seq<Byte>, v': seq<Byte>, c': seq<Byte>)
    requires (forall i :: 0 <= i < |later| ==> Loggable(later[i])) && |v| == |c| == |v'| == |c'| == 4
  {
    Recovered(log + EncodeAll(later), v', c') == Recovered(log, v, c) + later
  }

  lemma WholeAgrees(log: seq<Byte>, later: seq<Op>, v: seq<Byte>, c: seq<Byte>, v': seq<Byte>, c': seq<Byte>)
    requires Parse(log).Some? && (forall i :: 0 <= i < |later| ==> Loggable(later[i]))
    requires |v| == |c| == |v'| == |c'| == 4
    ensures Agrees(log, later, v, c, v', c')
  {
    hide Parse, EncodeAll, Loggable;
    RecoverWhole(log, EncodeAll(later), v', c');
    RecoverWhole(log, [], v, c);
    WalRoundTrip(later);
    RecoverWhole(EncodeAll(later), [], v', c');
    assert log + [] == log && EncodeAll(later) + [] == EncodeAll(later);
    assert Parse(log).value + [] == Parse(log).value && later + [] == later;
  }

  /** For a record cut short there is memory content, or a later record, for which the next restart disagrees. */
  lemma TornDisagrees(t: seq<Byte>) returns (later: seq<Op>, v: seq<Byte>, c: seq<Byte>, w: seq<Byte>)
    requires t != [] && ReadOne(t).None?
    ensures v == c && |v| == |w| == 4 && (later == [] || later == [Remove(0)])
    ensures later == [] ==> Torn(t, w, w) != Torn(t, v, c)
    ensures later == [Remove(0)] ==> t[0] == 1 && 9 <= |t|
  {
    v, c, w, later := [0, 0, 0, 0], [0, 0, 0, 0], [255, 255, 255, 255], [];
    if t[0] == 1 && |t| >= 9 {
      later := [Remove(0)];
    } else {
      hide GetU32, GetTags;
      FillDiffers(if t[0] == 1 then From(t, 5) else From(t, 1), v, w);
    }
  }

  lemma FillDiffers(have: seq<Byte>, v: seq<Byte>, w: seq<Byte>)
    requires v == [0, 0, 0, 0] && w == [255, 255, 255, 255] && |have| < 4
    ensures GetU32(Fill(have, v)) != GetU32(Fill(have, w))
  {
    assert Fill(have, v)[3] == 0 && Fill(have, w)[3] == 255;
    if GetU32(Fill(have, v)) == GetU32(Fill(have, w)) {
      GetBytesInjective(Fill(have, v), Fill(have, w));
    }
  }

  /** An insert record cut short within its tags takes the first bytes of the next record for tags. */
  lemma SwallowsNext(t: seq<Byte>, next: seq<Byte>, v: seq<Byte>, w: seq<Byte>, op: Op)
    requires t != [] && ReadOne(t).None? && t[0] == 1 && 9 <= |t| && next != [] && next[0] != 0
    requires |v| == |w| == 4
    ensures Recovered(t + next, w, w) != [Torn(t, v, v), op]
  {
    hide Torn, ReadOne, Recovered;
    var b := t + next;
    if ReadOne(b).Some? {
      FirstDiffers(t, next, v);
      RecoveredFirst(b, w);
    } else {
      RecoveredTorn(b, w);
    }
  }

  lemma FirstDiffers(t: seq<Byte>, next: seq<Byte>, v: seq<Byte>)
    requires t != [] && ReadOne(t).None? && t[0] == 1 && 9 <= |t| && next != [] && next[0] != 0 && |v| == 4
    requires ReadOne(t + next).Some?
    ensures ReadOne(t + next).value.0.Some? && ReadOne(t + next).value.0.value != Torn(t, v, v)
  {
    hide GetU32, GetTags, Torn, ReadOne;
    var b := t + next;
    TornInsert(t, v);
    FirstInsert(b);
    assert b[5..9] == t[5..9];
    var count: nat := GetU32(b[5..9]);
    assert GetTags(b[9..9 + 4 * count], count) != GetTags(t[9..] + Zeros(4 * count - (|t| - 9)), count) by {
      var read, zeroed := b[9..9 + 4 * count], t[9..] + Zeros(4 * count - (|t| - 9));
      assert read[|t| - 9] == next[0] && zeroed[|t| - 9] == 0;
      DifferAt(read, zeroed, count, |t| - 9);
    }
  }

  lemma FirstInsert(b: seq<Byte>)
    requires 9 <= |b| && b[0] == 1 && ReadOne(b).Some?
    ensures var count: nat := GetU32(b[5..9]);
            && 9 + 4 * count <= |b|
            && ReadOne(b).value.0 == Some(Insert(GetU32(b[1..5]), GetTags(b[9..9 + 4 * count], count)))
  {
    hide GetU32, GetTags;
  }

  lemma RecoveredTorn(b: seq<Byte>, w: seq<Byte>)
    requires b != [] && ReadOne(b).None? && |w| == 4
    ensures |Recovered(b, w, w)| == 1
  {
  }

  lemma RecoveredFirst(b: seq<Byte>, w: seq<Byte>)
    requires b != [] && ReadOne(b).Some? && ReadOne(b).value.0.Some? && |w| == 4
    ensures Recovered(b, w, w) != [] && Recovered(b, w, w)[0] == ReadOne(b).value.0.value
  {
  }

  lemma TornInsert(t: seq<Byte>, v: seq<Byte>)
    requires t != [] && ReadOne(t).None? && t[0] == 1 && 9 <= |t| && |v| == 4
    ensures var count := GetU32(t[5..9]);
            && |t| - 9 < 4 * count
            && Torn(t, v, v) == Insert(GetU32(t[1..5]), GetTags(t[9..] + Zeros(4 * count - (|t| - 9)), count))
  {
    hide GetU32, GetTags;
    assert Fill(From(t, 1), v) == t[1..5] && Fill(From(t, 5), v) == t[5..9];
  }

  lemma DifferAt(a: seq<Byte>, b: seq<Byte>, count: nat, i: nat)
    requires |a| == |b| == 4 * count && i < |a| && a[i] != b[i]
    ensures GetTags(a, count) != GetTags(b, count)
  {
    if GetTags(a, count) == GetTags(b, count) {
      GetTagsInjective(a, b, count);
    }
  }

  /** A log with a record cut short is not reliable. */
  lemma TornUnreliable(log: seq<Byte>)
    requires Parse(log).None?
    ensures !Reliable(log)
  {
    hide Torn, ReadOne, Parse;
    var a, t := TornTail(log);
    var later, v, c, w := TornDisagrees(t);
    var e := EncodeAll(later);
    assert log + e == a + (t + e);
    RecoverWhole(a, t + e, w, w);
    RecoverWhole(a, t, v, c);
    assert Recovered(t, v, c) == [Torn(t, v, c)];
    if later == [] {
      assert t + e == t;
      assert Recovered(t, w, w) == [Torn(t, w, w)];
      SameTail(Parse(a).value, [Torn(t, w, w)], [Torn(t, v, c)]);
      assert !Agrees(log, later, v, c, w, w);
    } else {
      RemoveBytes();
      SwallowsNext(t, e, v, w, Remove(0));
      SameTail(Parse(a).value, Recovered(t + e, w, w), [Torn(t, v, c), Remove(0)]);
      assert Parse(a).value + [Torn(t, v, c)] + later == Parse(a).value + [Torn(t, v, c), Remove(0)];
      assert !Agrees(log, later, v, c, w, w);
    }
  }

  lemma RemoveBytes()
    ensures EncodeAll([Remove(0)]) == [2, 0, 0, 0, 0]
  {
    assert PutU32(0) == [0, 0, 0, 0];
    assert EncodeAll([]) == [];
  }

  lemma SameTail(p: seq<Op>, x: seq<Op>, y: seq<Op>)
    requires x != y
    ensures p + x != p + y
  {
    assert (p + x)[|p|..] == x && (p + y)[|p|..] == y;
  }

  /** Restarting from a log is reliable if and only if the log ends at the end of a record. */
  lemma RestartReliable(log: seq<Byte>)
    ensures Reliable(log) <==> Parse(log).Some?
  {
    if Parse(log).Some? {
      hide Parse, Agrees;
      forall later: seq<Op>, v: seq<Byte>, c: seq<Byte>, v': seq<Byte>, c': seq<Byte> |
        (forall i :: 0 <= i < |later| ==> Loggable(later[i])) && |v| == |c| == |v'| == |c'| == 4
        ensures Agrees(log, later, v, c, v', c')
      {
        WholeAgrees(log, later, v, c, v', c');
      }
    } else {
      TornUnreliable(log);
    }
  }

  /** A crash after the first byte of a remove record: the removal of id 7 logged next is read as one of id 1794. */
  lemma TornExample(memory: seq<Byte>)
    requires |memory| == 4
    ensures Parse([2]).None? && Recovered([2] + EncodeAll([Remove(7)]), memory, memory) == [Remove(1794)]
  {
    hide PutBytes, GetBytes, PutU32, GetU32, GetTags;
    SmallBytes();
    assert EncodeAll([]) == [];
    var b: seq<Byte> := [2, 2, 7, 0, 0, 0];
    assert [2] + EncodeAll([Remove(7)]) == b;
    assert b[1..5] == [2, 7, 0, 0] && b[5..] == [0];
    var rest: seq<Byte> := [0];
    assert rest[1..] == [];
    assert Recovered(rest, memory, memory) == [];
  }

  lemma SmallBytes()
    ensures PutU32(7) == [7, 0, 0, 0] && GetU32([2, 7, 0, 0]) == 1794
  {
    assert PutBytes(0, 3) == [0] + PutBytes(0, 2) && PutBytes(0, 2) == [0] + PutBytes(0, 1);
    assert GetBytes([0, 0]) == 0 && GetBytes([7, 0, 0]) == 7;
  }
}
