/**
 * Strided walking of a tensor's flat, row-major buffer: the pitch vector,
 * the odometer over the outer axes, the per-axis skip vector of a slice and
 * the slice iterator that walks a rectangular sub-region of the buffer.
 *
 * The iterator's data pointer is an integer offset into the tensor's
 * `data`.  Index tuples, pitches and positions are the pure functions of
 * module Indexing.
 */
module TensorUtils {
  import opened Indexing
  import opened Common

  /** A tensor: its shape and its row-major element buffer. */
  datatype Tensor<T> = Tensor(shape: seq<int>, data: seq<T>)

  /** Every axis but the innermost one. */
  function OuterDims(shape: seq<int>): seq<int>
    requires |shape| >= 1
  {
    shape[..|shape| - 1]
  }

  // ---------------------------------------------------------------------------
  // Pitches

  /**
   * The pitch vector of a shape, filled from the innermost axis outwards:
   * the innermost pitch is one and every other pitch is the next inner pitch
   * times the next inner size.
   */
  method TensorPitches(dims: seq<int>) returns (pitches: seq<int>)
    requires |dims| >= 1
    ensures |pitches| == |dims|
    ensures pitches[|dims| - 1] == 1
    ensures forall i :: 0 <= i < |dims| - 1 ==> pitches[i] == pitches[i + 1] * dims[i + 1]
    ensures pitches == Pitches(dims)
  {
    var n := |dims|;
    var p := new int[n];
    p[n - 1] := 1;
    var i := n - 1;
    while i > 0
      invariant 0 <= i <= n - 1
      invariant forall j :: i <= j < n ==> p[j] == Stride(dims, j + 1)
    {
      i := i - 1;
      p[i] := p[i + 1] * dims[i + 1];
    }
    pitches := p[..];
  }

  // ---------------------------------------------------------------------------
  // Slice skips

  /**
   * The number of buffer elements to skip on each axis once that axis's
   * extent is used up.  A rank mismatch between the shape and the extents is
   * an enforcement failure.
   */
  method SliceSkips(dims: seq<int>, extents: seq<int>) returns (r: Result<seq<int>>)
    requires |dims| >= 1
    ensures r.Failure? <==> |extents| != |dims|
    ensures r.Success? ==> |r.value| == |dims|
    ensures r.Success? ==> r.value[|dims| - 1] == dims[|dims| - 1] - extents[|dims| - 1]
    ensures r.Success? ==> forall i :: 0 <= i < |dims| ==> r.value[i] == Skip(dims, extents, i)
  {
    if |extents| != |dims| {
      return Failure(Fail("dims.size() == extents.size()"));
    }
    var n := |dims|;
    var skips := new int[n];
    var pitch := dims[n - 1];
    assert Stride(dims, n) == 1;
    skips[n - 1] := pitch - extents[n - 1];
    var i := n - 1;
    while i > 0
      invariant 0 <= i <= n - 1
      invariant pitch == Stride(dims, i)
      invariant forall j :: i <= j < n ==> skips[j] == Skip(dims, extents, j)
    {
      i := i - 1;
      var prevPitch := pitch;
      pitch := pitch * dims[i];
      skips[i] := pitch - prevPitch * extents[i];
      SkipIdentity(dims[i], extents[i], prevPitch);
      assert skips[i] == Skip(dims, extents, i);
    }
    return Success(skips[..]);
  }

  /**
   * The distance from the end of one run along axis i to the start of the
   * next: the part of the axis outside the extent, times the axis's pitch.
   */
  function Skip(dims: seq<int>, extents: seq<int>, i: int): int
    requires |extents| == |dims| && 0 <= i < |dims|
  {
    (dims[i] - extents[i]) * Stride(dims, i + 1)
  }

  lemma {:induction false} SkipIdentity(d: int, e: int, p: int)
    ensures p * d - p * e == (d - e) * p
  {
  }

  // ---------------------------------------------------------------------------
  // Axis counters

  /**
   * An odometer over every axis except the innermost one.  `indices` holds
   * one counter per outer axis; `axis` is where the next increment goes
   * (one past the innermost counter at the start of a row, or the axis of
   * the counter that just carried); `running` turns false once the outermost
   * counter carries, or at once when the tensor has no elements.
   */
  class TensorAxisCounters {
    const dims: seq<int>
    const indices: array<int>
    var axis: int
    var running: bool

    /** The sizes of the axes that have counters. */
    ghost function Outer(): seq<int>
      requires |dims| >= 1
    {
      OuterDims(dims)
    }

    ghost predicate Valid()
      reads this, indices
    {
      |dims| >= 1 && IsShape(dims) &&
      indices.Length == |dims| - 1 &&
      0 <= axis <= indices.Length &&
      (forall k :: 0 <= k < indices.Length ==> indices[k] >= 0) &&
      (forall k :: axis <= k < indices.Length ==> indices[k] == 0) &&
      (running ==> Positive(dims) && Bounded(indices[..], Outer()))
    }

    constructor (shape: seq<int>)
      requires |shape| >= 1 && IsShape(shape)
      ensures Valid() && fresh(indices)
      ensures dims == shape && indices[..] == Zeros(|shape| - 1) && axis == |shape| - 1
      ensures running <==> Product(shape) != 0
    {
      dims := shape;
      indices := new int[|shape| - 1](_ => 0);
      axis := |shape| - 1;
      running := true;
      new;
      if Product(shape) == 0 {
        running := false;
      }
      ProductNonZero(shape);
      assert indices[..] == Zeros(|shape| - 1);
    }

    /**
     * Advances the counter at `axis - 1`.  Returns true when that counter
     * reached its size and was reset to zero (a carry is pending into the
     * next outer counter); at axis zero the iteration ends instead.
     */
    method Increment() returns (carry: bool)
      requires Valid()
      modifies this, indices
      ensures Valid()
      ensures old(axis) == 0 ==>
        !carry && !running && axis == 0 && indices[..] == old(indices[..])
      ensures old(axis) > 0 ==> running == old(running)
      ensures old(axis) > 0 && old(indices[axis - 1]) + 1 != dims[old(axis) - 1] ==>
        !carry && axis == indices.Length &&
        indices[..] == old(indices[..])[old(axis) - 1 := old(indices[axis - 1]) + 1]
      ensures old(axis) > 0 && old(indices[axis - 1]) + 1 == dims[old(axis) - 1] ==>
        carry && axis == old(axis) - 1 && indices[..] == old(indices[..])[old(axis) - 1 := 0]
    {
      if axis == 0 {
        running := false;
        return false;
      }
      axis := axis - 1;
      indices[axis] := indices[axis] + 1;
      if indices[axis] != dims[axis] {
        axis := indices.Length;
        return false;
      }
      indices[axis] := 0;
      return true;
    }

    /** Where the next increment goes: one past the innermost counter, or the axis that just carried. */
    function Axis(): (r: int)
      reads this, indices
      ensures r == axis
      ensures Valid() ==> 0 <= r <= indices.Length
    {
      axis
    }

    /** Whether there are outer index tuples left to visit; while there are, the counters hold one. */
    function IsRunning(): (r: bool)
      reads this, indices
      ensures r == running
      ensures Valid() && r ==> Positive(dims) && Bounded(indices[..], Outer())
    {
      running
    }
  }

  /**
   * One increment of the counters `x` while a carry travels outwards from
   * `a` through the old tuple `outer`: at axis zero the tuple was the last
   * one; otherwise the counter at `a - 1` either takes the bump, and the
   * counters then hold the successor tuple, or carries on.
   */
  lemma {:induction false} RowStep(x: seq<int>, outer: seq<int>, radix: seq<int>, a: int)
    requires |x| == |outer| == |radix| && 0 <= a <= |x|
    requires x[..a] == outer[..a]
    requires forall k :: a <= k < |x| ==> outer[k] == radix[k] - 1 && x[k] == 0
    ensures a == 0 ==> x == Succ(outer, radix) && AllMax(outer, radix)
    ensures a > 0 && x[a - 1] + 1 != radix[a - 1] ==>
      x[a - 1 := x[a - 1] + 1] == Succ(outer, radix) && !AllMax(outer, radix)
    ensures a > 0 && x[a - 1] + 1 == radix[a - 1] ==>
      x[a - 1 := 0][..a - 1] == outer[..a - 1] && outer[a - 1] == radix[a - 1] - 1
  {
    if a == 0 {
      SuccMaxSuffix(outer, radix, 0);
      assert Succ(outer[..0], radix[..0]) == [];
      assert x == Zeros(|x|);
    } else {
      assert x[a - 1] == x[..a][a - 1] == outer[a - 1];
      if x[a - 1] + 1 != radix[a - 1] {
        SuccAt(outer, radix, a - 1);
        assert x[a - 1 := x[a - 1] + 1] == outer[..a - 1] + [outer[a - 1] + 1] + Zeros(|x| - a) by {
          assert x[..a - 1] == x[..a][..a - 1];
          assert outer[..a - 1] == outer[..a][..a - 1];
        }
      } else {
        assert x[a - 1 := 0][..a - 1] == x[..a][..a - 1] == outer[..a][..a - 1] == outer[..a - 1];
      }
    }
  }

  /**
   * Moves the counters from the start of one row to the start of the next:
   * increments, then keeps incrementing while a carry is pending.  This is
   * the step of the row loop the counters are built for.
   */
  method NextRow(c: TensorAxisCounters)
    requires c.Valid() && c.running && c.axis == c.indices.Length
    modifies c, c.indices
    ensures c.Valid()
    ensures c.indices[..] == Succ(old(c.indices[..]), c.Outer())
    ensures c.running <==> !AllMax(old(c.indices[..]), c.Outer())
    ensures c.running ==> c.axis == c.indices.Length
  {
    ghost var O := c.indices[..];
    ghost var radix := c.Outer();
    assert O[..c.axis] == O;
    var carry := true;
    while carry
      invariant RowCarry(c, O, radix, carry)
      decreases if carry then c.axis + 1 else 0
    {
      carry := CarryOnce(c, O, radix);
    }
  }

  /**
   * The row loop's state for the row that started at `O`: while a carry is
   * pending, the counters below `axis` are untouched and every one from
   * `axis` on was at its largest value; once it is settled, the counters
   * hold the successor of `O` and `running` says whether there was one.
   */
  ghost predicate RowCarry(c: TensorAxisCounters, O: seq<int>, radix: seq<int>, carry: bool)
    reads c, c.indices
  {
    c.Valid() && |O| == |radix| == c.indices.Length &&
    (carry ==>
      c.running && c.indices[..c.axis] == O[..c.axis] &&
      forall k :: c.axis <= k < |O| ==> O[k] == radix[k] - 1) &&
    (!carry ==>
      c.indices[..] == Succ(O, radix) && (c.running <==> !AllMax(O, radix)) &&
      (c.running ==> c.axis == |O|))
  }

  /** One turn of the row loop: one increment, with the pending carry moving one axis out. */
  method CarryOnce(c: TensorAxisCounters, ghost O: seq<int>, ghost radix: seq<int>) returns (carry: bool)
    requires RowCarry(c, O, radix, true) && radix == c.Outer()
    modifies c, c.indices
    ensures RowCarry(c, O, radix, carry) && radix == c.Outer()
    ensures carry ==> c.axis < old(c.axis)
  {
    if c.axis == 0 {
      carry := CarryPastFirst(c, O, radix);
    } else if c.indices[c.axis - 1] + 1 != c.dims[c.axis - 1] {
      carry := CarryTaken(c, O, radix);
    } else {
      carry := CarryPassed(c, O, radix);
    }
  }

  /** The carry ran past the first axis: every row has been visited. */
  method CarryPastFirst(c: TensorAxisCounters, ghost O: seq<int>, ghost radix: seq<int>) returns (carry: bool)
    requires RowCarry(c, O, radix, true) && radix == c.Outer() && c.axis == 0
    modifies c, c.indices
    ensures RowCarry(c, O, radix, carry) && radix == c.Outer() && !carry
  {
    RowStep(c.indices[..], O, radix, c.axis);
    carry := c.Increment();
  }

  /** The counter below the carry has room: it takes the increment and the row is settled. */
  method CarryTaken(c: TensorAxisCounters, ghost O: seq<int>, ghost radix: seq<int>) returns (carry: bool)
    requires RowCarry(c, O, radix, true) && radix == c.Outer()
    requires c.axis > 0 && c.indices[c.axis - 1] + 1 != c.dims[c.axis - 1]
    modifies c, c.indices
    ensures RowCarry(c, O, radix, carry) && radix == c.Outer() && !carry
  {
    RowStep(c.indices[..], O, radix, c.axis);
    carry := c.Increment();
  }

  /** The counter below the carry wraps to zero and passes the carry on. */
  method CarryPassed(c: TensorAxisCounters, ghost O: seq<int>, ghost radix: seq<int>) returns (carry: bool)
    requires RowCarry(c, O, radix, true) && radix == c.Outer()
    requires c.axis > 0 && c.indices[c.axis - 1] + 1 == c.dims[c.axis - 1]
    modifies c, c.indices
    ensures RowCarry(c, O, radix, carry) && radix == c.Outer() && carry && c.axis < old(c.axis)
  {
    RowStep(c.indices[..], O, radix, c.axis);
    carry := c.Increment();
  }

  /** Where the row loop's next tuple sits: one position on, or past the end after the last. */
  lemma {:induction false} RowRank(k: seq<int>, radix: seq<int>)
    requires Bounded(k, radix)
    ensures !AllMax(k, radix) ==>
      Bounded(Succ(k, radix), radix) && Rank(Succ(k, radix), radix) == Rank(k, radix) + 1 < Product(radix)
    ensures AllMax(k, radix) ==> Rank(k, radix) + 1 == Product(radix)
  {
    AllMaxRank(k, radix);
    if !AllMax(k, radix) {
      SuccRank(k, radix);
      RankBound(Succ(k, radix), radix);
    }
  }

  /** The n-th row is the valid outer tuple at position n. */
  ghost predicate RowsSoFar(rows: seq<seq<int>>, radix: seq<int>)
  {
    forall n :: 0 <= n < |rows| ==> Bounded(rows[n], radix) && Rank(rows[n], radix) == n
  }

  lemma {:induction false} RowsSnoc(rows: seq<seq<int>>, k: seq<int>, radix: seq<int>)
    requires RowsSoFar(rows, radix) && Bounded(k, radix) && Rank(k, radix) == |rows|
    ensures RowsSoFar(rows + [k], radix)
  {
    var r := rows + [k];
    forall n | 0 <= n < |r| ensures Bounded(r[n], radix) && Rank(r[n], radix) == n {
      if n < |rows| {
        assert r[n] == rows[n];
      }
    }
  }

  /** Rows for every position of the box list every valid tuple, at its own position. */
  lemma {:induction false} RowsCover(rows: seq<seq<int>>, radix: seq<int>)
    requires RowsSoFar(rows, radix) && |rows| == Product(radix)
    ensures forall k :: Bounded(k, radix) ==> 0 <= Rank(k, radix) < |rows| && rows[Rank(k, radix)] == k
  {
    forall k | Bounded(k, radix)
      ensures 0 <= Rank(k, radix) < |rows| && rows[Rank(k, radix)] == k
    {
      RankBound(k, radix);
      RankInjective(k, rows[Rank(k, radix)], radix);
    }
  }

  /**
   * The row loop over a tensor: visits one outer index tuple per row while
   * the counters run.  The n-th visited tuple is the one at row-major
   * position n, every tuple of the outer box is visited, and a tensor with
   * no elements yields no rows.
   */
  method OuterRows(shape: seq<int>) returns (rows: seq<seq<int>>)
    requires |shape| >= 1 && IsShape(shape)
    ensures |rows| == if Product(shape) == 0 then 0 else Product(OuterDims(shape))
    ensures forall n :: 0 <= n < |rows| ==>
      Bounded(rows[n], OuterDims(shape)) && Rank(rows[n], OuterDims(shape)) == n
    ensures Product(shape) != 0 ==> forall k :: Bounded(k, OuterDims(shape)) ==>
      0 <= Rank(k, OuterDims(shape)) < |rows| && rows[Rank(k, OuterDims(shape))] == k
  {
    var c := new TensorAxisCounters(shape);
    ghost var radix := OuterDims(shape);
    ghost var total := Product(radix);
    ghost var empty := Product(shape) == 0;
    rows := [];
    ghost var n := 0;
    RankZeros(radix);
    if c.IsRunning() {
      RankBound(c.indices[..], radix);
    }
    while c.IsRunning()
      invariant c.Valid() && fresh(c.indices) && c.dims == shape && |rows| == n
      invariant c.running ==> c.axis == c.indices.Length && !empty
      invariant c.running ==> Rank(c.indices[..], radix) == n < total
      invariant !c.running ==> n == if empty then 0 else total
      invariant RowsSoFar(rows, radix)
      decreases c.running, total - n
    {
      var O := c.indices[..];
      RowsSnoc(rows, O, radix);
      rows := rows + [O];
      n := n + 1;
      NextRow(c);
      RowRank(O, radix);
    }
    if !empty {
      RowsCover(rows, radix);
    }
  }

  /**
   * The flat offset of the element at `starts`, accumulated from the
   * innermost axis outwards with a running pitch.
   */
  method StartOffset(starts: seq<int>, dims: seq<int>) returns (offset: int)
    requires |starts| == |dims|
    ensures offset == Rank(starts, dims)
  {
    var n := |dims|;
    offset := 0;
    var pitch := 1;
    var i := n;
    ghost var k := Zeros(n);
    RankZeros(dims);
    while i > 0
      invariant 0 <= i <= n && |k| == n
      invariant pitch == Stride(dims, i)
      invariant forall j :: 0 <= j < i ==> k[j] == 0
      invariant forall j :: i <= j < n ==> k[j] == starts[j]
      invariant offset == Rank(k, dims)
    {
      i := i - 1;
      RankUpdate(k, i, starts[i], dims);
      k := k[i := starts[i]];
      offset := offset + pitch * starts[i];
      pitch := pitch * dims[i];
    }
    assert k == starts;
  }

  /**
   * The index tuple held by the iterator's counters `idx`, whose innermost
   * entry is unused, when the innermost run is at `inner`.
   */
  ghost function At(idx: seq<int>, inner: int): seq<int>
    requires |idx| >= 1
  {
    idx[..|idx| - 1] + [inner]
  }

  /** Moving the innermost run position changes only the last entry of the tuple. */
  lemma {:induction false} AtInner(idx: seq<int>, a: int, b: int)
    requires |idx| >= 1
    ensures At(idx, a)[|idx| - 1] == a
    ensures At(idx, b) == At(idx, a)[..|idx| - 1] + [b]
  {
    assert At(idx, a)[..|idx| - 1] == idx[..|idx| - 1];
  }

  /** The counters address a run inside the slice: outer counters in range, innermost unused. */
  ghost predicate Framed(idx: seq<int>, extents: seq<int>)
  {
    |idx| == |extents| >= 1 && idx[|idx| - 1] == 0 &&
    Bounded(idx[..|idx| - 1], extents[..|idx| - 1])
  }

  /**
   * The state of the outer counters while a carry is travelling outwards
   * through axis `axis`: the counters before it still hold the old tuple
   * `outer`, the ones from it on have been reset, and the old tuple was at
   * its maximum on every axis the carry has passed.
   */
  ghost predicate Carrying(x: seq<int>, outer: seq<int>, extents: seq<int>, axis: int)
  {
    |x| == |extents| == |outer| + 1 && 0 <= axis <= |outer| &&
    x[..axis] == outer[..axis] &&
    (forall k :: axis <= k < |x| ==> x[k] == 0) &&
    (forall k :: axis <= k < |outer| ==> outer[k] == extents[k] - 1)
  }

  /** The carry stops at `axis`: the counters now hold the successor tuple. */
  lemma {:induction false} StepNoCarry(x: seq<int>, outer: seq<int>, extents: seq<int>, dims: seq<int>, axis: int)
    requires |dims| == |x| && 0 <= axis < |outer|
    requires Carrying(x, outer, extents, axis + 1)
    requires outer[axis] + 1 != extents[axis]
    ensures x[axis] == outer[axis]
    ensures x[axis := x[axis] + 1][..|outer|] == Succ(outer, extents[..|outer|])
    ensures !AllMax(outer, extents[..|outer|])
    ensures Rank(x[axis := x[axis] + 1], dims) == Rank(x, dims) + Stride(dims, axis + 1)
  {
    CarryStops(x, outer, extents, axis);
    RankBump(x, axis, dims);
  }

  lemma {:induction false} CarryStops(x: seq<int>, outer: seq<int>, extents: seq<int>, axis: int)
    requires 0 <= axis < |outer|
    requires Carrying(x, outer, extents, axis + 1)
    requires outer[axis] + 1 != extents[axis]
    ensures x[axis] == outer[axis]
    ensures x[axis := x[axis] + 1][..|outer|] == Succ(outer, extents[..|outer|])
    ensures !AllMax(outer, extents[..|outer|])
  {
    assert x[..axis + 1][axis] == outer[..axis + 1][axis];
    SuccAt(outer, extents[..|outer|], axis);
    var y := x[axis := x[axis] + 1];
    assert y[..axis] == x[..axis];
  }

  /** Bumping one counter moves the rank by that axis's stride. */
  lemma {:induction false} RankBump(x: seq<int>, j: int, dims: seq<int>)
    requires |x| == |dims| && 0 <= j < |x|
    ensures Rank(x[j := x[j] + 1], dims) == Rank(x, dims) + Stride(dims, j + 1)
  {
    RankUpdate(x, j, x[j] + 1, dims);
    assert x[j] + 1 - x[j] == 1;
  }

  /**
   * The carry passes through `axis`: the counter is reset, and the pending
   * distance grows from one pitch of the next axis to one pitch of this one.
   */
  lemma {:induction false} StepCarry(x: seq<int>, outer: seq<int>, extents: seq<int>, dims: seq<int>, axis: int)
    requires |dims| == |x| && 0 <= axis < |outer|
    requires Carrying(x, outer, extents, axis + 1)
    requires x[axis] + 1 == extents[axis]
    ensures Carrying(x[axis := 0], outer, extents, axis)
    ensures Rank(x, dims) + Stride(dims, axis + 1) + Skip(dims, extents, axis) ==
            Rank(x[axis := 0], dims) + Stride(dims, axis)
  {
    assert x[..axis + 1][axis] == outer[..axis + 1][axis];
    var y := x[axis := 0];
    assert y[..axis] == x[..axis];
    assert y[..axis] == outer[..axis] by {
      assert x[..axis] == x[..axis + 1][..axis];
      assert outer[..axis] == outer[..axis + 1][..axis];
    }
    RankUpdate(x, axis, 0, dims);
    var P := Stride(dims, axis + 1);
    SkipIdentity(dims[axis], extents[axis], P);
    assert extents[axis] * P + (dims[axis] - extents[axis]) * P == dims[axis] * P;
  }

  /** A carry out of the outermost counter: the whole tuple was the last one. */
  lemma {:induction false} CarryOut(x: seq<int>, outer: seq<int>, extents: seq<int>, dims: seq<int>)
    requires |dims| == |x| && Carrying(x, outer, extents, 0)
    ensures x == Zeros(|x|) && x[..|outer|] == Zeros(|outer|)
    ensures AllMax(outer, extents[..|outer|])
    ensures Succ(outer, extents[..|outer|]) == Zeros(|outer|)
    ensures Rank(x, dims) == 0
  {
    SuccAllMax(outer, extents[..|outer|]);
    RankZeros(dims);
  }

  /**
   * The state of the carry loop over the outer counters `x`, which started
   * from `outer`: while `carry` holds the carry is pending at `axis` and
   * `pending` (the distance `input` has moved past the start of the
   * current tuple's row) still includes the pitch of the axis it is waiting
   * to reach; once it has stopped, `x` is the successor tuple and `pending`
   * is exactly its offset.
   */
  ghost predicate Advancing(x: seq<int>, outer: seq<int>, extents: seq<int>, dims: seq<int>,
                            axis: int, carry: bool, pending: int)
  {
    |dims| == |x| == |extents| == |outer| + 1 && 0 <= axis <= |outer| &&
    (carry ==> Carrying(x, outer, extents, axis) && pending == Rank(x, dims) + Stride(dims, axis)) &&
    (!carry ==> x[..|outer|] == Succ(outer, extents[..|outer|]) && !AllMax(outer, extents[..|outer|]) &&
                x[|outer|] == 0 && pending == Rank(x, dims))
  }

  /** One trip round the carry loop keeps `Advancing`. */
  lemma {:induction false} AdvanceStep(x: seq<int>, outer: seq<int>, extents: seq<int>, dims: seq<int>, axis: int, pending: int)
    requires 0 <= axis && Advancing(x, outer, extents, dims, axis + 1, true, pending)
    ensures x[axis] + 1 != extents[axis] ==>
      Advancing(x[axis := x[axis] + 1], outer, extents, dims, axis, false, pending)
    ensures x[axis] + 1 == extents[axis] ==>
      Advancing(x[axis := 0], outer, extents, dims, axis, true, pending + Skip(dims, extents, axis))
  {
    if x[axis] + 1 != extents[axis] {
      assert x[..axis + 1][axis] == outer[..axis + 1][axis];
      StepNoCarry(x, outer, extents, dims, axis);
      var y := x[axis := x[axis] + 1];
      assert y[|outer|] == 0;
    } else {
      StepCarry(x, outer, extents, dims, axis);
    }
  }

  /**
   * The carry loop's exit: either the carry stopped at some axis, or it ran
   * out of the outermost one, the tuple was the last and the counters are
   * back at zero with a whole tensor pending.
   */
  lemma {:induction false} AdvanceDone(x: seq<int>, outer: seq<int>, extents: seq<int>, dims: seq<int>,
                    axis: int, carry: bool, pending: int)
    requires Advancing(x, outer, extents, dims, axis, carry, pending)
    requires carry ==> axis == 0
    requires Bounded(outer, extents[..|outer|])
    ensures x == At(x, 0) && Framed(x, extents)
    ensures x[..|outer|] == Succ(outer, extents[..|outer|])
    ensures Bounded(x[..|outer|], extents[..|outer|])
    ensures carry <==> AllMax(outer, extents[..|outer|])
    ensures carry ==> x[..|outer|] == Zeros(|outer|) && pending == Rank(x, dims) + Stride(dims, 0)
    ensures !carry ==> pending == Rank(x, dims)
  {
    if carry {
      CarryOut(x, outer, extents, dims);
    } else {
      SuccRank(outer, extents[..|outer|]);
    }
    Reframed(x, extents);
  }

  /** Counters with a valid outer part and an unused innermost entry frame a run. */
  lemma {:induction false} Reframed(x: seq<int>, extents: seq<int>)
    requires |x| == |extents| >= 1 && x[|x| - 1] == 0
    requires Bounded(x[..|x| - 1], extents[..|x| - 1])
    ensures x == At(x, 0) && Framed(x, extents)
  {
    assert x == x[..|x| - 1] + [x[|x| - 1]];
  }

  /** A step inside the innermost run: only the innermost counter moves, by one. */
  lemma {:induction false} ElementNext(x: seq<int>, c: int, extents: seq<int>, dims: seq<int>)
    requires |x| == |extents| == |dims| >= 1 && c + 1 != extents[|x| - 1]
    ensures Succ(At(x, c), extents) == At(x, c + 1) && !AllMax(At(x, c), extents)
    ensures Rank(At(x, c + 1), dims) == Rank(At(x, c), dims) + 1
  {
    var K := At(x, c);
    assert K[..|x| - 1] == x[..|x| - 1];
    SuccInner(K, extents);
    RankInner(K, dims, c + 1);
  }

  /** The step that finishes an innermost run: the outer counters move on and the run restarts. */
  lemma {:induction false} ElementWrap(x: seq<int>, c: int, extents: seq<int>, dims: seq<int>)
    requires |x| == |extents| == |dims| >= 1 && c + 1 == extents[|x| - 1]
    ensures Succ(At(x, c), extents) == Succ(x[..|x| - 1], extents[..|x| - 1]) + [0]
    ensures AllMax(At(x, c), extents) <==> AllMax(x[..|x| - 1], extents[..|x| - 1])
    ensures Rank(At(x, 0), dims) + extents[|x| - 1] == Rank(At(x, c), dims) + 1
  {
    var K := At(x, c);
    assert K[..|x| - 1] == x[..|x| - 1];
    SuccInner(K, extents);
    RankInner(K, dims, 0);
  }

  /** One step of the element walk, split into the innermost counter and the rest. */
  lemma {:induction false} SuccInner(k: seq<int>, radix: seq<int>)
    requires |k| == |radix| >= 1
    ensures k[|k| - 1] + 1 == radix[|k| - 1] ==>
      Succ(k, radix) == Succ(k[..|k| - 1], radix[..|k| - 1]) + [0] &&
      (AllMax(k, radix) <==> AllMax(k[..|k| - 1], radix[..|k| - 1]))
    ensures k[|k| - 1] + 1 != radix[|k| - 1] ==>
      Succ(k, radix) == k[..|k| - 1] + [k[|k| - 1] + 1] && !AllMax(k, radix)
  {
  }

  /** Changing the innermost counter moves the rank by the same amount. */
  lemma {:induction false} RankInner(k: seq<int>, radix: seq<int>, v: int)
    requires |k| == |radix| >= 1
    ensures Rank(k[..|k| - 1] + [v], radix) == Rank(k, radix) + v - k[|k| - 1]
  {
    var j := k[..|k| - 1] + [v];
    assert j[..|j| - 1] == k[..|k| - 1];
  }

  lemma {:induction false} LapStep(laps: nat, total: int)
    ensures (laps + 1) * total == laps * total + total
  {
  }

  /** Copies `count` consecutive elements of `data` from `src` into `output` from `out`. */
  method CopyRun<T>(data: seq<T>, src: int, output: array<T>, out: int, count: int)
    requires 0 <= src && 0 <= count && src + count <= |data|
    requires 0 <= out && out + count <= output.Length
    modifies output
    ensures forall k :: 0 <= k < output.Length ==>
      output[k] == if out <= k < out + count then data[src + k - out] else old(output[k])
    ensures output[..out] == old(output[..out]) && output[out + count..] == old(output[out + count..])
    ensures output[out..out + count] == data[src..src + count]
  {
    var i := 0;
    while i < count
      invariant 0 <= i <= count
      invariant forall k :: 0 <= k < output.Length ==>
        output[k] == if out <= k < out + i then data[src + k - out] else old(output[k])
    {
      output[out + i] := data[src + i];
      i := i + 1;
    }
    assert output[..out] == old(output[..out]);
    assert output[out + count..] == old(output[out + count..]);
    assert output[out..out + count] == data[src..src + count] by {
      var got, want := output[out..out + count], data[src..src + count];
      forall k | 0 <= k < |got| ensures got[k] == want[k] {
        assert got[k] == output[out + k];
      }
    }
  }

  // ---------------------------------------------------------------------------
  // Slice iterator

  /**
   * Walks the sub-region of a tensor that starts at `starts` and spans
   * `extents`, one element at a time or one innermost run at a time.
   * `input` is the offset of the current element in `data`; `indices` holds
   * one counter per outer axis (the innermost entry stays zero) and
   * `innerCounter` the position within the current innermost run.  `laps`
   * counts how often the walk has wrapped past the last element of the
   * slice: each wrap moves `input` one whole tensor further on.
   */
  class SliceIterator<T> {
    const data: seq<T>
    const dims: seq<int>
    ghost const starts: seq<int>
    const extents: seq<int>
    const skips: seq<int>
    const innerExtent: int
    const indices: array<int>
    ghost const size: int
    var input: int
    var innerCounter: int
    ghost var laps: nat

    /** The current element's index tuple relative to the start of the slice. */
    ghost function Position(): seq<int>
      reads this, indices
      requires 1 <= indices.Length
    {
      At(indices[..], innerCounter)
    }

    /** The fixed layout of the walk, decided once by the constructor. */
    ghost predicate Geometry()
    {
      |dims| >= 1 && |starts| == |dims| && |extents| == |dims| && Positive(extents) &&
      |skips| == |dims| &&
      (forall i :: 0 <= i < |dims| ==> skips[i] == Skip(dims, extents, i)) &&
      innerExtent == extents[|dims| - 1] && indices.Length == |dims| &&
      size == Stride(dims, 0)
    }

    /** Everything but the current offset and run position. */
    ghost predicate Shaped()
      reads this, indices
    {
      Geometry() && Framed(indices[..], extents)
    }

    /**
     * `input` is the flat offset of the element at starts + Position(),
     * moved on by one tensor per completed lap.
     */
    ghost predicate Valid()
      reads this, indices
    {
      Shaped() && 0 <= innerCounter < innerExtent &&
      input == Rank(starts, dims) + Rank(Position(), dims) + laps * size
    }

    constructor (tensor: Tensor<T>, starts: seq<int>, extents: seq<int>)
      requires |tensor.shape| >= 1
      requires |starts| == |tensor.shape| && |extents| == |tensor.shape|
      requires Positive(extents)
      ensures Valid() && fresh(indices)
      ensures data == tensor.data && dims == tensor.shape
      ensures this.starts == starts && this.extents == extents
      ensures Position() == Zeros(|dims|) && laps == 0
      ensures input == Dot(starts, Pitches(dims))
      ensures innerExtent == extents[|dims| - 1]
    {
      var n := |tensor.shape|;
      var dims := tensor.shape;
      var sk := SliceSkips(dims, extents);
      var offset := StartOffset(starts, dims);
      this.data := tensor.data;
      this.dims := dims;
      this.starts := starts;
      this.extents := extents;
      this.skips := sk.value;
      this.indices := new int[n](_ => 0);
      this.input := offset;
      this.innerCounter := 0;
      this.innerExtent := extents[n - 1];
      this.laps := 0;
      this.size := Stride(dims, 0);
      new;
      assert indices[..n - 1] == Zeros(n - 1);
      assert Position() == Zeros(n);
      assert Bounded(indices[..n - 1], extents[..n - 1]);
      RankZeros(dims);
      RankIsPitchSum(starts, dims);
    }

    /**
     * The carry loop of the run advance: with `offset0` just past the end of
     * the current run, bumps the outer counters odometer-fashion and adds the
     * skip of every axis the carry passes.  `carry` reports a carry out of the
     * outermost counter, which means the run was the last of the slice.
     */
    method CarryOuter(offset0: int) returns (offset: int, carry: bool)
      requires Geometry() && Framed(indices[..], extents)
      modifies indices
      ensures Framed(indices[..], extents) && indices[..] == At(indices[..], 0)
      ensures indices[..|dims| - 1] == Succ(old(indices[..|dims| - 1]), extents[..|dims| - 1])
      ensures carry <==> AllMax(old(indices[..|dims| - 1]), extents[..|dims| - 1])
      ensures offset == offset0 - Rank(old(indices[..]), dims) - innerExtent + Rank(indices[..], dims) +
                        (if carry then size else 0)
    {
      ghost var n := |dims|;
      ghost var O := indices[..n - 1];
      ghost var x0 := indices[..];
      ghost var origin := offset0 - Rank(x0, dims) - innerExtent;
      assert Stride(dims, n) == 1;
      assert x0 == At(x0, 0) by {
        assert x0 == x0[..n - 1] + [x0[n - 1]];
      }
      assert Advancing(x0, O, extents, dims, n - 1, true, offset0 + skips[n - 1] - origin);
      ghost var axis;
      offset, carry, axis := CarryAxes(O, origin, offset0 + skips[|skips| - 1]);
      AdvanceDone(indices[..], O, extents, dims, axis, carry, offset - origin);
    }

    /**
     * The loop of `CarryOuter`, from the innermost outer axis outwards while
     * the carry lasts.
     */
    method CarryAxes(ghost outer: seq<int>, ghost origin: int, offset0: int)
      returns (offset: int, carry: bool, ghost axis: int)
      requires Geometry()
      requires Advancing(indices[..], outer, extents, dims, |dims| - 1, true, offset0 - origin)
      modifies indices
      ensures Advancing(indices[..], outer, extents, dims, axis, carry, offset - origin)
      ensures carry ==> axis == 0
    {
      var a := |skips| - 1;
      offset := offset0;
      carry := true;
      while carry && a > 0
        invariant Advancing(indices[..], outer, extents, dims, a, carry, offset - origin)
      {
        a := a - 1;
        ghost var x := indices[..];
        AdvanceStep(x, outer, extents, dims, a, offset - origin);
        if indices[a] + 1 != extents[a] {
          indices[a] := indices[a] + 1;
          assert indices[..] == x[a := x[a] + 1];
          carry := false;
        } else {
          indices[a] := 0;
          assert indices[..] == x[a := 0];
          offset := offset + skips[a];
        }
      }
      axis := a;
    }

    /**
     * Called with `input` just past the end of an innermost run: skips to the
     * start of the next run, carrying through the outer counters (and past
     * the end of the slice into the next lap after the last run).
     */
    method AdvanceOverInnerExtent()
      requires Shaped() && innerCounter == 0
      requires input == Rank(starts, dims) + Rank(Position(), dims) + innerExtent + laps * size
      modifies this, indices
      ensures Valid() && innerCounter == 0
      ensures indices[..|dims| - 1] == Succ(old(indices[..|dims| - 1]), extents[..|dims| - 1])
      ensures laps == old(laps) + if AllMax(old(indices[..|dims| - 1]), extents[..|dims| - 1]) then 1 else 0
    {
      ghost var x0 := indices[..];
      assert Position() == x0 by {
        assert x0 == x0[..|dims| - 1] + [x0[|dims| - 1]];
      }
      var offset, carry := CarryOuter(input);
      input := offset;
      if carry {
        LapStep(laps, size);
        laps := laps + 1;
      }
    }

    /**
     * Returns the offset of the current element and steps to the next one,
     * skipping to the next run when the innermost run is used up.
     */
    method PostIncrement() returns (r: int)
      requires Valid()
      modifies this, indices
      ensures Valid()
      ensures r == old(input)
      ensures r == Rank(Plus(starts, old(Position())), dims) + old(laps) * size
      ensures Position() == Succ(old(Position()), extents)
      ensures laps == old(laps) + if AllMax(old(Position()), extents) then 1 else 0
    {
      RankPlus(starts, Position(), dims);
      r := input;
      if innerCounter + 1 != innerExtent {
        StepWithinRun();
      } else {
        StepToNextRun();
      }
    }

    /** The increment when the innermost run goes on: one element further, same lap. */
    method StepWithinRun()
      requires Valid() && innerCounter + 1 != innerExtent
      modifies this
      ensures Valid() && input == old(input) + 1
      ensures Position() == Succ(old(Position()), extents) && !AllMax(old(Position()), extents)
      ensures laps == old(laps)
    {
      ElementNext(indices[..], innerCounter, extents, dims);
      input := input + 1;
      innerCounter := innerCounter + 1;
    }

    /** The increment that ends the innermost run: the counter restarts and the outer axes advance. */
    method StepToNextRun()
      requires Valid() && innerCounter + 1 == innerExtent
      modifies this, indices
      ensures Valid()
      ensures Position() == Succ(old(Position()), extents)
      ensures laps == old(laps) + if AllMax(old(Position()), extents) then 1 else 0
    {
      ghost var x := indices[..];
      ElementWrap(x, innerCounter, extents, dims);
      input := input + 1;
      innerCounter := 0;
      AdvanceOverInnerExtent();
      assert Position() == indices[..|dims| - 1] + [0];
    }

    /**
     * Copies the current innermost run into `output` starting at `out`,
     * then skips to the next run; returns the position after the copied run.
     */
    method CopyInnermostAxis(output: array<T>, out: int) returns (next: int)
      requires Valid() && innerCounter == 0
      requires output as object != indices as object
      requires 0 <= input && input + innerExtent <= |data|
      requires 0 <= out && out + innerExtent <= output.Length
      modifies this, indices, output
      ensures Valid() && innerCounter == 0
      ensures next == out + innerExtent
      ensures output[..out] == old(output[..out]) && output[next..] == old(output[next..])
      ensures output[out..next] == data[old(input)..old(input) + innerExtent]
      ensures indices[..|dims| - 1] == Succ(old(indices[..|dims| - 1]), extents[..|dims| - 1])
      ensures laps == old(laps) + if AllMax(old(indices[..|dims| - 1]), extents[..|dims| - 1]) then 1 else 0
    {
      var src := input;
      CopyRun(data, src, output, out, innerExtent);
      ghost var copied := output[..];
      SkipRun();
      assert output[..] == copied;
      next := out + innerExtent;
    }

    /** Skips the whole current innermost run, from its first element to the start of the next run. */
    method SkipRun()
      requires Valid() && innerCounter == 0
      modifies this, indices
      ensures Valid() && innerCounter == 0
      ensures indices[..|dims| - 1] == Succ(old(indices[..|dims| - 1]), extents[..|dims| - 1])
      ensures laps == old(laps) + if AllMax(old(indices[..|dims| - 1]), extents[..|dims| - 1]) then 1 else 0
    {
      ghost var p := Position();
      input := input + innerExtent;
      assert Shaped() && Position() == p;
      AdvanceOverInnerExtent();
    }
  }

  /** Every offset so far is that of the slice element with the same lexicographic number. */
  ghost predicate SliceOffsetsSoFar(offsets: seq<int>, starts: seq<int>, extents: seq<int>, shape: seq<int>)
    requires |starts| == |shape| == |extents| && Positive(extents)
  {
    forall n :: 0 <= n < |offsets| ==> offsets[n] == Dot(Plus(starts, Decode(n, extents)), Pitches(shape))
  }

  lemma {:induction false} SliceOffsetsSnoc(offsets: seq<int>, r: int, starts: seq<int>, extents: seq<int>, shape: seq<int>)
    requires |starts| == |shape| == |extents| && Positive(extents)
    requires SliceOffsetsSoFar(offsets, starts, extents, shape)
    requires r == Dot(Plus(starts, Decode(|offsets|, extents)), Pitches(shape))
    ensures SliceOffsetsSoFar(offsets + [r], starts, extents, shape)
  {
    var o := offsets + [r];
    forall n | 0 <= n < |o| ensures o[n] == Dot(Plus(starts, Decode(n, extents)), Pitches(shape)) {
      if n < |offsets| {
        assert o[n] == offsets[n];
      }
    }
  }

  /**
   * One step of the element loop: at the n-th element of the slice, in the
   * first lap, returns that element's offset and moves to the (n+1)-th.
   */
  method SliceStep<T>(it: SliceIterator<T>, ghost n: nat) returns (r: int)
    requires it.Valid() && n < Product(it.extents)
    requires it.Position() == Decode(n, it.extents) && it.laps == 0
    modifies it, it.indices
    ensures it.Valid()
    ensures r == Dot(Plus(it.starts, Decode(n, it.extents)), Pitches(it.dims))
    ensures n + 1 < Product(it.extents) ==> it.Position() == Decode(n + 1, it.extents) && it.laps == 0
  {
    SuccDecode(n, it.extents);
    RankIsPitchSum(Plus(it.starts, Decode(n, it.extents)), it.dims);
    r := it.PostIncrement();
  }

  /**
   * The element loop over a slice: steps the iterator once per element of
   * the slice.  The n-th offset returned is that of the slice element whose
   * index tuple is the n-th in lexicographic order (so a slice from the
   * origin spanning the whole tensor returns 0, 1, 2, ... by
   * FullSliceIsIdentity).
   */
  method SliceOffsets<T>(tensor: Tensor<T>, starts: seq<int>, extents: seq<int>) returns (offsets: seq<int>)
    requires |tensor.shape| >= 1
    requires |starts| == |tensor.shape| && |extents| == |tensor.shape|
    requires Positive(extents)
    ensures |offsets| == Product(extents)
    ensures forall n :: 0 <= n < |offsets| ==>
      offsets[n] == Dot(Plus(starts, Decode(n, extents)), Pitches(tensor.shape))
  {
    var it := new SliceIterator(tensor, starts, extents);
    var count := Product(extents);
    ProductPositive(extents);
    DecodeZero(extents);
    offsets := [];
    var n := 0;
    while n < count
      invariant it.Valid() && fresh(it.indices)
      invariant it.dims == tensor.shape && it.starts == starts && it.extents == extents
      invariant n <= count && |offsets| == n
      invariant n < count ==> it.Position() == Decode(n, extents) && it.laps == 0
      invariant SliceOffsetsSoFar(offsets, starts, extents, tensor.shape)
    {
      var r := SliceStep(it, n);
      SliceOffsetsSnoc(offsets, r, starts, extents, tensor.shape);
      n := n + 1;
      offsets := offsets + [r];
    }
  }

  /**
   * Where the walk stands after j steps of a run that started at counters
   * `x`, in lap `laps0`, at offset `start`: inside the run, j elements on;
   * after the whole run, at the start of the next one.
   */
  ghost predicate InRun<T>(it: SliceIterator<T>, x: seq<int>, laps0: nat, j: int, start: int)
    reads it, it.indices
  {
    it.Valid() && |x| == |it.dims| && 0 <= j <= it.innerExtent &&
    (j < it.innerExtent ==> it.Position() == At(x, j) && it.laps == laps0 && it.input == start + j) &&
    (j == it.innerExtent ==>
      it.Position() == Succ(x[..|x| - 1], it.extents[..|x| - 1]) + [0] &&
      it.laps == laps0 + if AllMax(x[..|x| - 1], it.extents[..|x| - 1]) then 1 else 0)
  }

  /** One step of the run loop: returns the j-th offset of the run and moves one element on. */
  method RunStep<T>(it: SliceIterator<T>, ghost x: seq<int>, ghost laps0: nat, j: int, ghost start: int) returns (r: int)
    requires InRun(it, x, laps0, j, start) && j < it.innerExtent
    modifies it, it.indices
    ensures InRun(it, x, laps0, j + 1, start) && r == start + j
  {
    if j + 1 < it.innerExtent {
      ElementNext(x, j, it.extents, it.dims);
    } else {
      ElementWrap(x, j, it.extents, it.dims);
    }
    r := it.PostIncrement();
  }

  /**
   * Steps the iterator once per element of the current innermost run.  The
   * offsets returned are consecutive from the run's first offset, and the
   * iterator ends in the state CopyInnermostAxis leaves it in: the same
   * counters and the same lap, and so (by Valid) the same offset.
   */
  method StepOverRun<T>(it: SliceIterator<T>) returns (offsets: seq<int>)
    requires it.Valid() && it.innerCounter == 0
    modifies it, it.indices
    ensures it.Valid() && it.innerCounter == 0
    ensures |offsets| == it.innerExtent
    ensures forall j :: 0 <= j < |offsets| ==> offsets[j] == old(it.input) + j
    ensures it.indices[..|it.dims| - 1] == Succ(old(it.indices[..|it.dims| - 1]), it.extents[..|it.dims| - 1])
    ensures it.laps == old(it.laps) + if AllMax(old(it.indices[..|it.dims| - 1]), it.extents[..|it.dims| - 1]) then 1 else 0
  {
    ghost var x := it.indices[..];
    ghost var n := |it.dims|;
    offsets := RunLoop(it, x, it.laps, it.input);
    RunEnd(it.indices[..], it.innerCounter, Succ(x[..n - 1], it.extents[..n - 1]));
    assert x[..n - 1] == old(it.indices[..n - 1]);
  }

  /**
   * Two iterators in the same state, one stepped through the current run
   * element by element and the other copying the run in one go, end in the
   * same state; the copy wrote, in order, the elements the steps visited.
   */
  method RunMatchesCopy<T>(stepped: SliceIterator<T>, copier: SliceIterator<T>, output: array<T>, out: int)
    returns (offsets: seq<int>, next: int)
    requires stepped.Valid() && copier.Valid() && stepped.innerCounter == 0 && copier.innerCounter == 0
    requires stepped != copier && stepped.indices != copier.indices
    requires output as object != stepped.indices && output as object != copier.indices
    requires stepped.data == copier.data && stepped.dims == copier.dims
    requires stepped.starts == copier.starts && stepped.extents == copier.extents
    requires stepped.indices[..] == copier.indices[..] && stepped.laps == copier.laps
    requires stepped.input == copier.input
    requires 0 <= copier.input && copier.input + copier.innerExtent <= |copier.data|
    requires 0 <= out && out + copier.innerExtent <= output.Length
    modifies stepped, stepped.indices, copier, copier.indices, output
    ensures stepped.indices[..] == copier.indices[..] && stepped.laps == copier.laps
    ensures stepped.innerCounter == copier.innerCounter && stepped.input == copier.input
    ensures |offsets| == copier.innerExtent && next == out + |offsets|
    ensures forall j :: 0 <= j < |offsets| ==>
      0 <= offsets[j] < |stepped.data| && output[out + j] == stepped.data[offsets[j]]
  {
    ghost var n := |copier.dims|;
    ghost var outer := copier.indices[..n - 1];
    ghost var lap := copier.laps + if AllMax(outer, copier.extents[..n - 1]) then 1 else 0;
    assert stepped.indices[..n - 1] == outer;
    offsets := StepOverRun(stepped);
    ghost var sx, sin := stepped.indices[..], stepped.input;
    assert sx[..n - 1] == Succ(outer, copier.extents[..n - 1]) && sx[n - 1] == 0 && stepped.laps == lap;
    assert sin == Rank(copier.starts, copier.dims) + Rank(At(sx, 0), copier.dims) + lap * Stride(copier.dims, 0);
    next := CopyToState(copier, output, out, sx, sin, lap, offsets);
  }

  /**
   * The copying half of RunMatchesCopy: copies the current run and ends in
   * the state (`x`, `input`, `lap`) given as the result of stepping, and
   * writes the elements at `offsets`.
   */
  method CopyToState<T>(it: SliceIterator<T>, output: array<T>, out: int,
                        ghost x: seq<int>, ghost input: int, ghost lap: nat, ghost offsets: seq<int>)
    returns (next: int)
    requires it.Valid() && it.innerCounter == 0 && output as object != it.indices
    requires 0 <= it.input && it.input + it.innerExtent <= |it.data|
    requires 0 <= out && out + it.innerExtent <= output.Length
    requires |x| == |it.dims| && x[|x| - 1] == 0
    requires x[..|x| - 1] == Succ(it.indices[..|x| - 1], it.extents[..|x| - 1])
    requires lap == it.laps + if AllMax(it.indices[..|x| - 1], it.extents[..|x| - 1]) then 1 else 0
    requires input == Rank(it.starts, it.dims) + Rank(At(x, 0), it.dims) + lap * Stride(it.dims, 0)
    requires |offsets| == it.innerExtent && forall j :: 0 <= j < |offsets| ==> offsets[j] == it.input + j
    modifies it, it.indices, output
    ensures it.indices[..] == x && it.input == input && it.laps == lap && it.innerCounter == 0
    ensures next == out + |offsets|
    ensures forall j :: 0 <= j < |offsets| ==> 0 <= offsets[j] < |it.data| && output[out + j] == it.data[offsets[j]]
  {
    ghost var src := it.input;
    next := it.CopyInnermostAxis(output, out);
    ghost var y := it.indices[..];
    assert y[..|x| - 1] == x[..|x| - 1] && y[|x| - 1] == 0;
    SameTuple(x, y);
    assert it.Position() == At(x, 0) && it.size == Stride(it.dims, 0);
    ReadsInOrder(it.data, src, offsets, output, out);
  }

  /** Two tuples that agree on every outer entry and both end in zero are equal. */
  lemma {:induction false} SameTuple(x: seq<int>, y: seq<int>)
    requires |x| == |y| >= 1 && x[..|x| - 1] == y[..|y| - 1] && x[|x| - 1] == 0 && y[|y| - 1] == 0
    ensures x == y
  {
    assert x == x[..|x| - 1] + [0] && y == y[..|y| - 1] + [0];
  }

  /** A block copy of a run writes, in order, the elements at the run's consecutive offsets. */
  lemma {:induction false} ReadsInOrder<T>(data: seq<T>, src: int, offsets: seq<int>, output: array<T>, out: int)
    requires 0 <= src && src + |offsets| <= |data| && 0 <= out && out + |offsets| <= output.Length
    requires output[out..out + |offsets|] == data[src..src + |offsets|]
    requires forall j :: 0 <= j < |offsets| ==> offsets[j] == src + j
    ensures forall j :: 0 <= j < |offsets| ==> 0 <= offsets[j] < |data| && output[out + j] == data[offsets[j]]
  {
    forall j | 0 <= j < |offsets| ensures output[out + j] == data[offsets[j]] {
      assert output[out + j] == output[out..out + |offsets|][j];
    }
  }

  /** The loop of StepOverRun, for the run that starts at counters `x`, in lap `laps0`, at offset `start`. */
  method RunLoop<T>(it: SliceIterator<T>, ghost x: seq<int>, ghost laps0: nat, start: int) returns (offsets: seq<int>)
    requires it.Valid() && |x| == |it.dims|
    requires it.Position() == At(x, 0) && it.laps == laps0 && it.input == start
    modifies it, it.indices
    ensures it.Valid() && |offsets| == it.innerExtent
    ensures forall j :: 0 <= j < |offsets| ==> offsets[j] == start + j
    ensures it.Position() == Succ(x[..|x| - 1], it.extents[..|x| - 1]) + [0]
    ensures it.laps == laps0 + if AllMax(x[..|x| - 1], it.extents[..|x| - 1]) then 1 else 0
  {
    offsets := [];
    var j := 0;
    while j < it.innerExtent
      invariant InRun(it, x, laps0, j, start) && |offsets| == j
      invariant forall k :: 0 <= k < j ==> offsets[k] == start + k
    {
      var r := RunStep(it, x, laps0, j, start);
      offsets := offsets + [r];
      j := j + 1;
    }
  }

  /** Counters whose position reads as `outer` followed by a zero hold `outer`, and the run counter is zero. */
  lemma {:induction false} RunEnd(idx: seq<int>, c: int, outer: seq<int>)
    requires |idx| >= 1 && At(idx, c) == outer + [0]
    ensures idx[..|idx| - 1] == outer && c == 0
  {
    var p := At(idx, c);
    assert p[..|idx| - 1] == idx[..|idx| - 1] && p[|idx| - 1] == c;
    assert p[..|outer|] == outer;
  }
}
