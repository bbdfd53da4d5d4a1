/** Arrays of the BASIC runtime: stride layout, element addressing and REDIM PRESERVE of array_ops.c. */
module BasicArrays {
  import opened Words
  import opened Wrappers

  const INT_MAX: int := 0x7fff_ffff

  type int32 = x: int | -INT_MAX - 1 <= x <= INT_MAX

  /** The bounds of one dimension, both inclusive. */
  datatype Dim = Dim(lower: int32, upper: int32) {
    function Size(): int { upper - lower + 1 }

    predicate Has(i: int) { lower <= i <= upper }
  }

  type Box = seq<Dim>
  type Index = seq<int32>

  predicate Nonempty(box: Box) {
    forall d :: 0 <= d < |box| ==> box[d].Size() > 0
  }

  predicate InBox(box: Box, idx: Index) {
    |idx| == |box| && forall d :: 0 <= d < |box| ==> box[d].Has(idx[d])
  }

  function Total(box: Box): (n: nat)
    requires Nonempty(box)
    ensures n > 0
  {
    if box == [] then 1 else
    assert box[0].Size() > 0;
    Product(box[0].Size(), Total(box[1..]));
    box[0].Size() * Total(box[1..])
  }

  lemma Product(a: int, b: int)
    requires a > 0 && b > 0
    ensures a * b > 0
  {}

  /** The row-major position of an index. */
  ghost function Offset(box: Box, idx: Index): (o: nat)
    requires Nonempty(box) && InBox(box, idx)
    ensures o < Total(box)
  {
    if box == [] then 0 else
    var rest := Offset(box[1..], idx[1..]);
    assert box[0].Has(idx[0]);
    Digit(box[0].Size(), idx[0] - box[0].lower, Total(box[1..]), rest);
    (idx[0] - box[0].lower) * Total(box[1..]) + rest
  }

  lemma Digit(size: int, q: int, t: int, r: int)
    requires 0 <= q < size && 0 <= r < t
    ensures 0 <= q * t && q * t + r < size * t
  {
    assert (size - 1 - q) * t >= 0;
    assert size * t == q * t + (size - 1 - q) * t + t;
  }

  /** The index at a position. */
  ghost function Place(box: Box, k: nat): (idx: Index)
    requires Nonempty(box) && k < Total(box)
    ensures InBox(box, idx)
  {
    if box == [] then [] else
    var t := Total(box[1..]);
    Quotient(box[0].Size(), t, k);
    [box[0].lower + k / t] + Place(box[1..], k % t)
  }

  lemma Quotient(size: int, t: int, k: int)
    requires size > 0 && t > 0 && 0 <= k < size * t
    ensures 0 <= k / t < size && k == (k / t) * t + k % t
  {
    DivMul(k, t);
    DivBound(k, t, size);
  }

  lemma UniqueDigit(q: int, r: int, t: int)
    requires 0 <= r < t && 0 <= q
    ensures (q * t + r) / t == q && (q * t + r) % t == r
  {
    DivModIs(q * t + r, q, r, t);
  }

  /** Every position is the offset of the index at that position. */
  lemma {:induction false} OffsetOfPlace(box: Box, k: nat)
    requires Nonempty(box) && k < Total(box)
    ensures Offset(box, Place(box, k)) == k
  {
    if box != [] {
      var t := Total(box[1..]);
      Quotient(box[0].Size(), t, k);
      OffsetOfPlace(box[1..], k % t);
      assert Place(box, k)[1..] == Place(box[1..], k % t);
    }
  }

  /** Every index of the box is the index at its offset: with OffsetOfPlace, the layout is a bijection. */
  lemma {:induction false} PlaceOfOffset(box: Box, idx: Index)
    requires Nonempty(box) && InBox(box, idx)
    ensures Place(box, Offset(box, idx)) == idx
  {
    if box != [] {
      PlaceOfOffset(box[1..], idx[1..]);
      var q, t, rest := idx[0] - box[0].lower, Total(box[1..]), Offset(box[1..], idx[1..]);
      assert box[0].Has(idx[0]);
      UniqueDigit(q, rest, t);
      var k := Offset(box, idx);
      assert k / t == q && k % t == rest;
      assert Place(box, k) == [idx[0]] + idx[1..];
    }
  }

  // ----- the odometer -----

  function Lows(box: Box): (idx: Index)
    ensures |idx| == |box| && forall d :: 0 <= d < |box| ==> idx[d] == box[d].lower
  {
    seq(|box|, d requires 0 <= d < |box| => box[d].lower)
  }

  /** The index after idx, the last dimension running fastest. */
  ghost function Next(box: Box, idx: Index): (r: Option<Index>)
    requires |idx| == |box|
  {
    if box == [] then None else
    match Next(box[1..], idx[1..])
    case Some(t) => Some([idx[0]] + t)
    case None => if idx[0] + 1 <= box[0].upper then Some([idx[0] + 1] + Lows(box[1..])) else None
  }

  lemma {:induction false} LowsFirst(box: Box)
    requires Nonempty(box)
    ensures InBox(box, Lows(box)) && Offset(box, Lows(box)) == 0
  {
    if box != [] {
      LowsFirst(box[1..]);
      assert Lows(box)[1..] == Lows(box[1..]);
      assert box[0].Size() > 0;
      forall d | 0 <= d < |box| ensures box[d].Has(Lows(box)[d]) { assert box[d].Size() > 0; }
    }
  }

  /** The next index has the next offset, and there is none after the last one. */
  lemma {:induction false} NextOffset(box: Box, idx: Index)
    requires Nonempty(box) && InBox(box, idx)
    ensures match Next(box, idx)
            case Some(t) => InBox(box, t) && Offset(box, t) == Offset(box, idx) + 1
            case None => Offset(box, idx) == Total(box) - 1
  {
    if box != [] {
      NextOffset(box[1..], idx[1..]);
      LowsFirst(box[1..]);
      var t := Total(box[1..]);
      assert box[0].Has(idx[0]);
      match Next(box[1..], idx[1..]) {
        case Some(u) =>
          assert ([idx[0]] + u)[1..] == u;
        case None =>
          if idx[0] + 1 <= box[0].upper {
            var u := [idx[0] + 1] + Lows(box[1..]);
            assert u[1..] == Lows(box[1..]);
            assert box[0].Has(u[0]);
            assert (idx[0] + 1 - box[0].lower) * t == (idx[0] - box[0].lower) * t + t;
          } else {
            assert (idx[0] - box[0].lower) * t + t == box[0].Size() * t;
          }
      }
    }
  }

  /** Only the tail from dimension d on changes. */
  lemma {:induction false} NextTail(box: Box, idx: Index, d: nat)
    requires |idx| == |box| && d <= |box| && Next(box[d..], idx[d..]).Some?
    ensures Next(box, idx) == Some(idx[..d] + Next(box[d..], idx[d..]).value)
  {
    if d == 0 {
      assert box[0..] == box && idx[0..] == idx;
      var v := Next(box, idx).value;
      assert idx[..0] + v == v;
    } else {
      assert box[1..][d - 1..] == box[d..] && idx[1..][d - 1..] == idx[d..];
      NextTail(box[1..], idx[1..], d - 1);
      var v := Next(box[d..], idx[d..]).value;
      assert [idx[0]] + (idx[1..][..d - 1] + v) == idx[..d] + v;
    }
  }

  /** A carry out of the dimensions after d either stops at d or goes on. */
  lemma Carry(box: Box, idx: Index, d: nat)
    requires |idx| == |box| && d < |box| && Next(box[d + 1..], idx[d + 1..]).None?
    ensures if idx[d] + 1 <= box[d].upper
            then Next(box, idx) == Some(idx[..d] + ([idx[d] + 1] + Lows(box[d + 1..])))
            else Next(box[d..], idx[d..]).None?
  {
    assert box[d..][1..] == box[d + 1..] && idx[d..][1..] == idx[d + 1..];
    if idx[d] + 1 <= box[d].upper { NextTail(box, idx, d); }
  }

  /** cur is idx with dimension d counted up and the later ones back at their lower bounds. */
  lemma CarryStops(box: Box, idx: Index, d: nat, cur: Index)
    requires |cur| == |idx| == |box| && d < |box| && Next(box[d + 1..], idx[d + 1..]).None?
    requires cur[d] == idx[d] + 1 <= box[d].upper
    requires forall e :: 0 <= e < d ==> cur[e] == idx[e]
    requires forall e :: d < e < |box| ==> cur[e] == box[e].lower
    ensures Next(box, idx) == Some(cur)
  {
    Carry(box, idx, d);
    var lows := Lows(box[d + 1..]);
    forall e | 0 <= e < |box| ensures cur[e] == (idx[..d] + ([idx[d] + 1] + lows))[e] {
      assert e > d ==> lows[e - d - 1] == box[d + 1..][e - d - 1].lower;
    }
    assert cur == idx[..d] + ([idx[d] + 1] + lows);
  }

  /** The odometer counts one past the upper bound before it carries. */
  predicate Incrementable(box: Box) {
    forall d :: 0 <= d < |box| ==> box[d].upper < INT_MAX
  }

  /**
   * That is exactly when every increment of the odometer, the one before the carry included, stays a 32-bit
   * integer.
   */
  lemma IncrementsFit(box: Box)
    requires Nonempty(box)
    ensures Incrementable(box) <==>
      forall idx: Index, d :: InBox(box, idx) && 0 <= d < |box| ==> idx[d] + 1 <= INT_MAX
  {
    var highs: Index := seq(|box|, d requires 0 <= d < |box| => box[d].upper);
    forall d | 0 <= d < |box| ensures box[d].Has(highs[d]) {
      assert box[d].Size() > 0;
    }
    assert InBox(box, highs);
    forall idx: Index, d | InBox(box, idx) && 0 <= d < |box| ensures idx[d] <= highs[d] {
      assert box[d].Has(idx[d]);
    }
  }

  /** The increment loop of REDIM PRESERVE; done reports that the last index was reached. */
  method Advance(box: Box, cur: array<int32>) returns (done: bool)
    requires Nonempty(box) && InBox(box, cur[..])
    requires Incrementable(box)
    modifies cur
    ensures done <==> Next(box, old(cur[..])).None?
    ensures !done ==> cur[..] == Next(box, old(cur[..])).value
  {
    ghost var idx := cur[..];
    var d := cur.Length - 1;
    while d >= 0
      invariant -1 <= d < cur.Length
      invariant forall e :: 0 <= e <= d ==> cur[e] == idx[e]
      invariant forall e :: d < e < cur.Length ==> cur[e] == box[e].lower
      invariant Next(box[d + 1..], idx[d + 1..]).None?
      decreases d
    {
      Carry(box, idx, d);
      cur[d] := cur[d] + 1;
      if cur[d] <= box[d].upper {
        CarryStops(box, idx, d, cur[..]);
        return false;
      }
      cur[d] := box[d].lower;
      d := d - 1;
    }
    assert box[0..] == box && idx[0..] == idx;
    return true;
  }

  // ----- strides -----

  /** The conversion of a size_t to int32_t. */
  function Cast32(x: int): int32 {
    (x + 0x8000_0000) % 0x1_0000_0000 - 0x8000_0000
  }

  /** The sizes can be computed in 32 bits, and so can every offset. */
  predicate Fits(box: Box) {
    && (forall d :: 0 <= d < |box| ==> -INT_MAX <= box[d].Size() <= INT_MAX)
    && (Nonempty(box) ==> Total(box) <= INT_MAX)
  }

  lemma {:induction false} TailTotal(box: Box, i: nat)
    requires Nonempty(box) && i <= |box|
    ensures Total(box[i..]) <= Total(box)
  {
    if i == 0 {
      assert box[0..] == box;
    } else {
      assert box[1..][i - 1..] == box[i..];
      TailTotal(box[1..], i - 1);
      assert box[0].Size() > 0;
      MulAtLeast(box[0].Size(), 1, Total(box[1..]));
    }
  }

  /** The stride of a dimension is the number of elements in one step along it. */
  ghost predicate IsStrides(box: Box, strides: seq<int32>)
    requires Nonempty(box)
  {
    |strides| == |box| && forall d :: 0 <= d < |box| ==> strides[d] == Total(box[d + 1..])
  }

  ghost predicate StrideAt(box: Box, strides: seq<int32>, d: nat)
    requires d < |box| == |strides|
  {
    Nonempty(box[d + 1..]) && strides[d] == Cast32(Total(box[d + 1..]))
  }

  lemma TotalStep(box: Box, i: nat)
    requires i < |box| && Nonempty(box[i + 1..]) && box[i].Size() > 0
    ensures Nonempty(box[i..]) && Total(box[i..]) == box[i].Size() * Total(box[i + 1..])
  {
    assert box[i..][1..] == box[i + 1..];
    forall d | 0 <= d < |box[i..]| ensures box[i..][d].Size() > 0 {
      if d > 0 { assert box[i..][d] == box[i + 1..][d - 1]; }
    }
  }

  /** The strides of the dimensions from i on are set. */
  ghost predicate StridesFrom(box: Box, strides: seq<int32>, i: nat) {
    |strides| == |box| && forall d: nat :: i <= d < |box| ==> StrideAt(box, strides, d)
  }

  lemma StrideStep(box: Box, strides: seq<int32>, i: nat)
    requires i < |box| && StridesFrom(box, strides, i + 1) && Nonempty(box[i + 1..])
    ensures StridesFrom(box, strides[i := Cast32(Total(box[i + 1..]))], i)
  {
    var strides' := strides[i := Cast32(Total(box[i + 1..]))];
    forall d: nat | i <= d < |box| ensures StrideAt(box, strides', d) {
      assert d > i ==> StrideAt(box, strides, d);
    }
  }

  lemma StridesDone(box: Box, strides: seq<int32>)
    requires Nonempty(box) && Fits(box) && StridesFrom(box, strides, 0)
    ensures IsStrides(box, strides)
  {
    forall d: nat | d < |box| ensures strides[d] == Total(box[d + 1..]) {
      assert StrideAt(box, strides, d);
      TailTotal(box, d + 1);
    }
  }

  /** The loop of array_new and array_redim over the dimensions, last one first. */
  method Layout(box: Box) returns (ok: bool, strides: seq<int32>, total: nat)
    requires Fits(box)
    ensures ok <==> Nonempty(box)
    ensures ok ==> IsStrides(box, strides) && total == Total(box)
  {
    strides := seq(|box|, d => 0);
    total := 1;
    var i := |box| - 1;
    while i >= 0
      invariant -1 <= i < |box| == |strides|
      invariant Nonempty(box[i + 1..]) && total == Total(box[i + 1..])
      invariant StridesFrom(box, strides, i + 1)
      decreases i
    {
      var size: int32 := box[i].upper - box[i].lower + 1;
      if size <= 0 {
        assert box[i].Size() <= 0;
        return false, strides, total;
      }
      StrideStep(box, strides, i);
      TotalStep(box, i);
      strides := strides[i := Cast32(total)];
      total := size * total;
      i := i - 1;
    }
    assert box[0..] == box;
    StridesDone(box, strides);
    ok := true;
  }

  // ----- offsets -----

  /** The sum over the dimensions before d. */
  ghost predicate Partial(box: Box, idx: Index, d: nat, o: nat)
    requires Nonempty(box) && InBox(box, idx)
  {
    d <= |box| && Offset(box, idx) == o + Offset(box[d..], idx[d..])
  }

  /** A term of the sum fits in 32 bits. */
  lemma TermFits(box: Box, i: int32, d: nat)
    requires Nonempty(box) && Fits(box) && d < |box| && box[d].Has(i)
    ensures 0 <= (i - box[d].lower) * Total(box[d + 1..]) <= INT_MAX
  {
    assert box[d..][1..] == box[d + 1..];
    TailTotal(box, d);
    Digit(box[d].Size(), i - box[d].lower, Total(box[d + 1..]), 0);
  }

  /** Adding one term of the sum. */
  lemma Term(box: Box, idx: Index, strides: seq<int32>, d: nat, o: nat)
    requires Nonempty(box) && InBox(box, idx) && Fits(box) && IsStrides(box, strides)
    requires d < |box| && Partial(box, idx, d, o)
    ensures var x := (idx[d] - box[d].lower) * strides[d]; 0 <= x <= INT_MAX && Partial(box, idx, d + 1, o + x)
  {
    assert box[d..][1..] == box[d + 1..] && idx[d..][1..] == idx[d + 1..];
    TermFits(box, idx[d], d);
  }

  /** The offset computation of the copying loop, without a bounds check. */
  method RawOffset(box: Box, strides: seq<int32>, idx: Index) returns (o: nat)
    requires Nonempty(box) && Fits(box) && IsStrides(box, strides) && InBox(box, idx)
    ensures o == Offset(box, idx)
  {
    o := 0;
    assert box[0..] == box && idx[0..] == idx;
    for d := 0 to |box|
      invariant Partial(box, idx, d, o)
    {
      Term(box, idx, strides, d, o);
      var term: int32 := (idx[d] - box[d].lower) * strides[d];
      o := o + term;
    }
  }

  /** calculate_offset: a subscript out of range ends the program. */
  method CalculateOffset(box: Box, strides: seq<int32>, idx: Index) returns (ok: bool, o: nat)
    requires Nonempty(box) && Fits(box) && IsStrides(box, strides) && |idx| == |box|
    ensures ok <==> InBox(box, idx)
    ensures ok ==> o == Offset(box, idx)
    ensures !ok ==> o == 0
  {
    o := 0;
    assert box[0..] == box && idx[0..] == idx;
    for d := 0 to |box|
      invariant forall e :: 0 <= e < d ==> box[e].Has(idx[e])
      invariant InBox(box, idx) ==> Partial(box, idx, d, o)
    {
      if idx[d] < box[d].lower || idx[d] > box[d].upper {
        return false, 0;
      }
      TermFits(box, idx[d], d);
      var term: int32 := (idx[d] - box[d].lower) * strides[d];
      if InBox(box, idx) { Term(box, idx, strides, d, o); }
      o := o + term;
    }
    ok := true;
  }

  // ----- the part of the box that REDIM PRESERVE keeps -----

  function Max(a: int32, b: int32): int32 { if a > b then a else b }

  function Min(a: int32, b: int32): int32 { if a < b then a else b }

  /** The index ranges common to both boxes. */
  function Overlap(old': Box, new': Box): (ov: Box)
    requires |old'| == |new'|
    ensures |ov| == |new'|
  {
    seq(|new'|, d requires 0 <= d < |new'| =>
      Dim(Max(old'[d].lower, new'[d].lower), Min(old'[d].upper, new'[d].upper)))
  }

  lemma InOverlap(old': Box, new': Box, idx: Index)
    requires |old'| == |new'| == |idx|
    ensures InBox(Overlap(old', new'), idx) <==> InBox(old', idx) && InBox(new', idx)
  {
    var ov := Overlap(old', new');
    if InBox(ov, idx) {
      forall d | 0 <= d < |ov| ensures old'[d].Has(idx[d]) && new'[d].Has(idx[d]) {
        assert ov[d].Has(idx[d]);
      }
    }
    if InBox(old', idx) && InBox(new', idx) {
      forall d | 0 <= d < |ov| ensures ov[d].Has(idx[d]) {
        assert old'[d].Has(idx[d]) && new'[d].Has(idx[d]);
      }
    }
  }

  /**
   * The copying loop for two or more dimensions runs its body before any test: the index it starts with lies in
   * both boxes if and only if they overlap in every dimension.
   */
  lemma FirstIndexIsCommon(old': Box, new': Box)
    requires |old'| == |new'| && Nonempty(old') && Nonempty(new')
    ensures var start := Lows(Overlap(old', new'));
      InBox(old', start) && InBox(new', start) <==> Nonempty(Overlap(old', new'))
  {
    var ov := Overlap(old', new');
    InOverlap(old', new', Lows(ov));
    if InBox(ov, Lows(ov)) {
      forall d | 0 <= d < |ov| ensures ov[d].Size() > 0 {
        assert ov[d].Has(Lows(ov)[d]);
      }
    }
    if Nonempty(ov) {
      forall d | 0 <= d < |ov| ensures ov[d].Has(Lows(ov)[d]) {
        assert ov[d].Size() > 0;
      }
    }
  }

  /** The indexes for which kept holds have their old element, the others are zero. */
  ghost predicate Copied<T>(nd: seq<T>, od: seq<T>, old': Box, new': Box, zero: T, kept: Index -> bool)
    requires Nonempty(old') && Nonempty(new') && |nd| == Total(new') && |od| == Total(old') && |old'| == |new'|
  {
    forall idx: Index :: InBox(new', idx) ==>
      nd[Offset(new', idx)] == if InBox(old', idx) && kept(idx) then od[Offset(old', idx)] else zero
  }

  lemma SameOffset(box: Box, a: Index, b: Index)
    requires Nonempty(box) && InBox(box, a) && InBox(box, b) && Offset(box, a) == Offset(box, b)
    ensures a == b
  {
    PlaceOfOffset(box, a);
    PlaceOfOffset(box, b);
  }

  /** Copying one more element. */
  lemma CopyOne<T>(nd: seq<T>, od: seq<T>, old': Box, new': Box, zero: T, kept: Index -> bool, cur: Index,
                   kept': Index -> bool)
    requires Nonempty(old') && Nonempty(new') && |nd| == Total(new') && |od| == Total(old') && |old'| == |new'|
    requires Copied(nd, od, old', new', zero, kept) && InBox(old', cur) && InBox(new', cur)
    requires forall idx: Index :: InBox(old', idx) && InBox(new', idx) ==> (kept'(idx) <==> kept(idx) || idx == cur)
    ensures Copied(nd[Offset(new', cur) := od[Offset(old', cur)]], od, old', new', zero, kept')
  {
    var nd' := nd[Offset(new', cur) := od[Offset(old', cur)]];
    forall idx: Index | InBox(new', idx)
      ensures nd'[Offset(new', idx)] == if InBox(old', idx) && kept'(idx) then od[Offset(old', idx)] else zero
    {
      if Offset(new', idx) == Offset(new', cur) { SameOffset(new', idx, cur); }
    }
  }

  /** The indexes of the box before the r-th one. */
  ghost function Before(box: Box, r: nat): Index -> bool
    requires Nonempty(box)
  {
    idx => InBox(box, idx) && Offset(box, idx) < r
  }

  /** The r-th index of the overlap was copied. */
  lemma CopyNext<T>(nd: seq<T>, od: seq<T>, old': Box, new': Box, zero: T, r: nat, cur: Index)
    requires |old'| == |new'| && Nonempty(old') && Nonempty(new') && |nd| == Total(new') && |od| == Total(old')
    requires var ov := Overlap(old', new');
      Nonempty(ov) && InBox(ov, cur) && Offset(ov, cur) == r && Copied(nd, od, old', new', zero, Before(ov, r))
    ensures InBox(old', cur) && InBox(new', cur)
    ensures Copied(nd[Offset(new', cur) := od[Offset(old', cur)]], od, old', new', zero, Before(Overlap(old', new'), r + 1))
  {
    var ov := Overlap(old', new');
    InOverlap(old', new', cur);
    forall idx: Index | InBox(old', idx) && InBox(new', idx)
      ensures Before(ov, r + 1)(idx) <==> Before(ov, r)(idx) || idx == cur
    {
      InOverlap(old', new', idx);
      if Offset(ov, idx) == r { SameOffset(ov, idx, cur); }
    }
    CopyOne(nd, od, old', new', zero, Before(ov, r), cur, Before(ov, r + 1));
  }

  /** The indexes visited so far are the first ones of the box, in order. */
  ghost predicate InOrder(box: Box, visited: seq<Index>)
    requires Nonempty(box)
  {
    |visited| <= Total(box) && forall k: nat :: k < |visited| ==> visited[k] == Place(box, k)
  }

  lemma VisitNext(box: Box, visited: seq<Index>, cur: Index)
    requires Nonempty(box) && InOrder(box, visited) && InBox(box, cur) && Offset(box, cur) == |visited|
    ensures InOrder(box, visited + [cur])
    ensures match Next(box, cur)
            case Some(t) => InBox(box, t) && Offset(box, t) == |visited| + 1
            case None => |visited| + 1 == Total(box)
  {
    PlaceOfOffset(box, cur);
    NextOffset(box, cur);
  }

  /** Every common index has been copied. */
  ghost predicate AllCopied<T>(nd: seq<T>, od: seq<T>, old': Box, new': Box, zero: T)
    requires Nonempty(old') && Nonempty(new') && |nd| == Total(new') && |od| == Total(old') && |old'| == |new'|
  {
    forall idx: Index :: InBox(new', idx) ==>
      nd[Offset(new', idx)] == if InBox(old', idx) then od[Offset(old', idx)] else zero
  }

  lemma CopiedAll<T>(nd: seq<T>, od: seq<T>, old': Box, new': Box, zero: T)
    requires |old'| == |new'| && Nonempty(old') && Nonempty(new') && |nd| == Total(new') && |od| == Total(old')
    requires var ov := Overlap(old', new'); Nonempty(ov) && Copied(nd, od, old', new', zero, Before(ov, Total(ov)))
    ensures AllCopied(nd, od, old', new', zero)
  {
    forall idx: Index | InBox(new', idx)
      ensures nd[Offset(new', idx)] == if InBox(old', idx) then od[Offset(old', idx)] else zero
    {
      InOverlap(old', new', idx);
    }
  }

  /**
   * Boxes that do not overlap have no common index, so that every element must be zero; but the loop body runs once.
   * If its offsets o and n lie in the arrays at all, it stores an old element that need not be zero.
   */
  lemma DisjointGoesWrong<T>(nd: seq<T>, od: seq<T>, old': Box, new': Box, o: nat, n: nat, zero: T)
    requires |old'| == |new'| && Nonempty(old') && Nonempty(new') && !Nonempty(Overlap(old', new'))
    requires |nd| == Total(new') && |od| == Total(old') && n < |nd| && o < |od| && od[o] != zero
    ensures !AllCopied(nd[n := od[o]], od, old', new', zero)
  {
    var idx := Place(new', n);
    OffsetOfPlace(new', n);
    InOverlap(old', new', idx);
    var d :| 0 <= d < |old'| && Overlap(old', new')[d].Size() <= 0;
    assert !Overlap(old', new')[d].Has(idx[d]);
  }

  /** Moving a 2 by 2 array five rows down: the first read is at offset 10 of four elements. */
  lemma DisjointExample(old': Box, new': Box)
    requires old' == [Dim(0, 1), Dim(0, 1)] && new' == [Dim(5, 6), Dim(0, 1)]
    ensures Nonempty(old') && Nonempty(new') && !Nonempty(Overlap(old', new')) && Total(old') == 4
    ensures var start, strides := Lows(Overlap(old', new')), [2, 1];
      start == [5, 0] && IsStrides(old', strides) && (start[0] - old'[0].lower) * strides[0] + (start[1] - old'[1].lower) * strides[1] == 10
  {
    assert Overlap(old', new')[0] == Dim(5, 1) && Overlap(old', new')[0].Size() < 0;
    assert old'[1..] == [Dim(0, 1)] && old'[1..][1..] == [] && old'[2..] == [];
    assert Total(old'[1..]) == 2 * Total([]) == 2;
    assert Total(old') == 2 * Total(old'[1..]);
  }

  /**
   * The odometer of REDIM PRESERVE for two or more dimensions. It visits the common indexes one after the other,
   * each exactly once.
   */
  method CopyBox<T>(od: array<T>, nd: array<T>, old': Box, oldStrides: seq<int32>, new': Box, newStrides: seq<int32>,
                    ghost zero: T)
    returns (ghost visited: seq<Index>)
    requires |old'| == |new'| && Nonempty(old') && Nonempty(new') && Fits(old') && Fits(new') && od != nd
    requires IsStrides(old', oldStrides) && IsStrides(new', newStrides)
    requires od.Length == Total(old') && nd.Length == Total(new') && forall k :: 0 <= k < nd.Length ==> nd[k] == zero
    requires Nonempty(Overlap(old', new')) && Incrementable(Overlap(old', new'))
    modifies nd
    ensures AllCopied(nd[..], od[..], old', new', zero)
    ensures InOrder(Overlap(old', new'), visited) && |visited| == Total(Overlap(old', new'))
  {
    var ov := Overlap(old', new');
    var cur := new int32[|ov|](d requires 0 <= d < |ov| => ov[d].lower);
    var done := false;
    visited := [];
    assert cur[..] == Lows(ov);
    LowsFirst(ov);
    while !done
      invariant InOrder(ov, visited) && Copied(nd[..], od[..], old', new', zero, Before(ov, |visited|))
      invariant if done then |visited| == Total(ov) else InBox(ov, cur[..]) && Offset(ov, cur[..]) == |visited|
      decreases Total(ov) - |visited|, !done
    {
      ghost var idx, r, before := cur[..], |visited|, nd[..];
      CopyNext(before, od[..], old', new', zero, r, idx);
      var oldOffset := RawOffset(old', oldStrides, cur[..]);
      var newOffset := RawOffset(new', newStrides, cur[..]);
      nd[newOffset] := od[oldOffset];
      assert nd[..] == before[newOffset := od[..][oldOffset]];
      VisitNext(ov, visited, idx);
      visited := visited + [idx];
      done := Advance(ov, cur);
    }
    CopiedAll(nd[..], od[..], old', new', zero);
  }

  lemma LineOffset(box: Box, idx: Index)
    requires |box| == 1 && Nonempty(box) && InBox(box, idx)
    ensures Offset(box, idx) == idx[0] - box[0].lower
    ensures Total(box) == box[0].Size()
  {
    assert box[1..] == [] && idx[1..] == [];
  }

  /** The single loop of REDIM PRESERVE for one dimension; the ranges need not overlap. */
  method CopyLine<T>(od: array<T>, nd: array<T>, old': Box, oldStrides: seq<int32>, new': Box, newStrides: seq<int32>,
                     ghost zero: T)
    requires |old'| == |new'| == 1 && Nonempty(old') && Nonempty(new') && Fits(old') && Fits(new') && od != nd
    requires IsStrides(old', oldStrides) && IsStrides(new', newStrides)
    requires od.Length == Total(old') && nd.Length == Total(new') && forall k :: 0 <= k < nd.Length ==> nd[k] == zero
    requires Incrementable(Overlap(old', new'))
    modifies nd
    ensures AllCopied(nd[..], od[..], old', new', zero)
  {
    var start := Max(old'[0].lower, new'[0].lower);
    var end := Min(old'[0].upper, new'[0].upper);
    assert Overlap(old', new')[0] == Dim(start, end);
    var i := start;
    while i <= end
      invariant start <= i && (i <= end + 1 || i == start)
      invariant Copied(nd[..], od[..], old', new', zero, idx => |idx| > 0 && idx[0] < i)
      decreases end - i
    {
      ghost var before, cur: Index := nd[..], [i];
      LineOffset(old', cur);
      LineOffset(new', cur);
      assert oldStrides[0] == Total(old'[1..]) == 1 && newStrides[0] == Total(new'[1..]) == 1;
      var oldOffset := (i - old'[0].lower) * oldStrides[0];
      var newOffset := (i - new'[0].lower) * newStrides[0];
      CopyOne(before, od[..], old', new', zero, idx => |idx| > 0 && idx[0] < i, cur, idx => |idx| > 0 && idx[0] < i + 1);
      nd[newOffset] := od[oldOffset];
      assert nd[..] == before[newOffset := od[..][oldOffset]];
      i := i + 1;
    }
  }

  // ----- arrays -----

  /** struct BasicArray, with elements of one type; zero is what memset leaves in an element. */
  class BasicArray<T> {
    const zero: T
    var bounds: Box
    var strides: seq<int32>
    var data: array<T>

    ghost predicate Valid()
      reads this
    {
      && 0 < |bounds| <= 8 && Nonempty(bounds) && Fits(bounds)
      && IsStrides(bounds, strides) && data.Length == Total(bounds)
    }

    /** The element at an index. */
    ghost function At(idx: Index): T
      requires Valid() && InBox(bounds, idx)
      reads this, data
    {
      data[Offset(bounds, idx)]
    }

    constructor (zero: T, bounds: Box, strides: seq<int32>, total: nat)
      requires 0 < |bounds| <= 8 && Nonempty(bounds) && Fits(bounds) && IsStrides(bounds, strides)
      requires total == Total(bounds)
      ensures Valid() && this.bounds == bounds && this.zero == zero && fresh(data)
      ensures forall idx: Index :: InBox(bounds, idx) ==> At(idx) == zero
    {
      this.zero, this.bounds, this.strides := zero, bounds, strides;
      this.data := new T[total](i => zero);
    }

    /** array_set_*: the element is stored, or the subscript is out of range and the program ends. */
    method Set(idx: Index, value: T) returns (ok: bool)
      requires Valid() && |idx| == |bounds|
      modifies data
      ensures ok <==> InBox(bounds, idx)
      ensures forall i: Index :: InBox(bounds, i) ==> At(i) == if i == idx then value else old(At(i))
    {
      var o;
      ok, o := CalculateOffset(bounds, strides, idx);
      if ok {
        data[o] := value;
        forall i: Index | InBox(bounds, i) ensures At(i) == if i == idx then value else old(At(i)) {
          if Offset(bounds, i) == o { SameOffset(bounds, i, idx); }
        }
      }
    }

    /** array_get_*. */
    method Get(idx: Index) returns (ok: bool, value: T)
      requires Valid() && |idx| == |bounds|
      ensures ok <==> InBox(bounds, idx)
      ensures ok ==> value == At(idx)
    {
      var o;
      ok, o := CalculateOffset(bounds, strides, idx);
      value := if ok then data[o] else zero;
    }

    /**
     * array_redim: the array gets new bounds; with preserve, the elements whose index is in both boxes are kept, and
     * all others are zero. An empty dimension ends the program.
     */
    method Redim(newBounds: Box, preserve: bool) returns (ok: bool)
      requires Valid() && |newBounds| == |bounds| && Fits(newBounds)
      requires preserve && |bounds| > 1 && Nonempty(newBounds) ==> Nonempty(Overlap(bounds, newBounds))
      requires preserve ==> Incrementable(Overlap(bounds, newBounds))
      modifies this
      ensures ok <==> Nonempty(newBounds)
      ensures bounds == newBounds
      ensures ok ==> Valid() && fresh(data)
      ensures ok ==> forall idx: Index :: InBox(newBounds, idx) ==>
        At(idx) == if preserve && InBox(old(bounds), idx) then old(At(idx)) else zero
    {
      var oldBounds, oldStrides, oldData := bounds, strides, data;
      bounds := newBounds;
      var total;
      ok, strides, total := Layout(newBounds);
      if !ok {
        return;
      }
      var newData := new T[total](i => zero);
      if preserve {
        if |bounds| == 1 {
          CopyLine(oldData, newData, oldBounds, oldStrides, bounds, strides, zero);
        } else {
          ghost var visited := CopyBox(oldData, newData, oldBounds, oldStrides, bounds, strides, zero);
        }
      }
      data := newData;
    }
  }

  /** array_new: refuses a bad number of dimensions or an empty one. */
  method ArrayNew<T>(zero: T, bounds: Box) returns (a: BasicArray?<T>)
    requires Fits(bounds)
    ensures a != null <==> 0 < |bounds| <= 8 && Nonempty(bounds)
    ensures a != null ==> fresh(a) && fresh(a.data) && a.Valid() && a.bounds == bounds && a.zero == zero
    ensures a != null ==> forall idx: Index :: InBox(bounds, idx) ==> a.At(idx) == zero
  {
    a := null;
    if |bounds| == 0 || |bounds| > 8 {
      return;
    }
    var ok, strides, total := Layout(bounds);
    if ok {
      a := new BasicArray(zero, bounds, strides, total);
    }
  }
}
