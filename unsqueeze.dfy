/**
 * The Unsqueeze kernel: inserts size-one axes into a tensor's shape at the
 * positions listed in `axes`.  The output shape has one entry per input
 * dimension plus one per listed axis; the listed positions hold 1 and the
 * remaining positions hold the input dimensions in their original order.
 * The element buffer is copied unchanged.
 *
 * Axes are signed 64-bit values that the kernel reads as unsigned sizes, so
 * a negative axis is as out of range as one past the output rank.
 */
module Unsqueeze {
  import opened Common
  import opened Indexing
  import opened TensorUtils
  import opened OpKernel

  const OutOfRangeMessage := "'axes' has an out of range axis"
  const DuplicateMessage := "'axes' has a duplicate axis"

  /** The registration of the CPU kernel: opset 1, output 0 may reuse input 0, any tensor type. */
  const Registration := KernelDef("Unsqueeze", 1, [(0, 0)], true)

  /**
   * The registration names the operator and its first opset, admits every
   * tensor type, and lets output 0 share input 0's buffer and nothing else
   * (Compute's output carries the input's elements unchanged).
   */
  lemma {:induction false} RegistrationAliasesOnlyInput()
    ensures Registration.opName == "Unsqueeze" && Registration.sinceVersion == 1
    ensures Registration.allTensorTypes
    ensures forall a :: a in Registration.aliases <==> a == (0, 0)
  {
  }

  /** What PrepareCompute hands to Compute: the input tensor and the output shape requested. */
  datatype Prepare<T> = Prepare(input: Tensor<T>, outputShape: seq<int>)

  // ---------------------------------------------------------------------------
  // Specification

  /**
   * The error the axis loop stops at, if any: axes are examined in order,
   * and the first one that is out of range, or that repeats an earlier
   * axis, decides the error.
   */
  function AxesError(axes: seq<int>, rank: int): (r: Option<Status>)
    ensures r.Some? ==> r.value.InvalidArgument?
  {
    if axes == [] then None
    else
      var a := axes[|axes| - 1];
      var prefix := axes[..|axes| - 1];
      if AxesError(prefix, rank).Some? then AxesError(prefix, rank)
      else if a < 0 || a >= rank then Some(InvalidArgument(OutOfRangeMessage))
      else if a in prefix then Some(InvalidArgument(DuplicateMessage))
      else None
  }

  /** Every axis addresses an output position and no position is listed twice. */
  predicate Acceptable(axes: seq<int>, rank: int)
  {
    (forall i :: 0 <= i < |axes| ==> 0 <= axes[i] < rank) &&
    (forall i, j :: 0 <= i < j < |axes| ==> axes[i] != axes[j])
  }

  /** Which output positions are listed in `axes`. */
  function Marked(axes: seq<int>, rank: nat): (m: seq<bool>)
    ensures |m| == rank && forall j :: 0 <= j < rank ==> (m[j] <==> j in axes)
  {
    seq(rank, j => j in axes)
  }

  /** The entries of `s` at the unmarked positions, in order. */
  function Squeeze(s: seq<int>, m: seq<bool>): seq<int>
    requires |s| == |m|
  {
    if s == [] then []
    else Squeeze(s[..|s| - 1], m[..|s| - 1]) + (if m[|s| - 1] then [] else [s[|s| - 1]])
  }

  /** The number of unmarked positions. */
  function Holes(m: seq<bool>): nat
  {
    if m == [] then 0 else Holes(m[..|m| - 1]) + (if m[|m| - 1] then 0 else 1)
  }

  /**
   * `out` is `dims` with a size-one axis inserted at every listed position:
   * it has the combined rank, 1 at every listed axis, and the input
   * dimensions in order everywhere else.
   */
  ghost predicate IsUnsqueezed(out: seq<int>, dims: seq<int>, axes: seq<int>)
  {
    |out| == |dims| + |axes| &&
    (forall i :: 0 <= i < |axes| ==> 0 <= axes[i] < |out| && out[axes[i]] == 1) &&
    Squeeze(out, Marked(axes, |out|)) == dims
  }

  // ---------------------------------------------------------------------------
  // The kernel

  /**
   * Builds the output shape: marks every axis with 1 (rejecting axes out of
   * range and repeated axes, in order), then fills the unmarked positions
   * with the input dimensions, consuming them all.
   */
  method PrepareCompute<T>(input: Tensor<T>, axes: seq<int>) returns (r: Result<Prepare<T>>)
    ensures r.Failure? <==> AxesError(axes, |axes| + |input.shape|).Some?
    ensures r.Failure? ==> r.error == AxesError(axes, |axes| + |input.shape|).value
    ensures r.Success? ==> r.value.input == input && IsUnsqueezed(r.value.outputShape, input.shape, axes)
  {
    var n := |axes| + |input.shape|;
    var outputDims := new int[n](_ => 0);
    var error := MarkAxes(outputDims, axes);
    if error.Some? {
      return Failure(error.value);
    }
    AcceptableIffNoError(axes, n);
    HolesOfMarked(axes, n);
    FillDims(outputDims, input.shape, Marked(axes, n));
    return Success(Prepare(input, outputDims[..]));
  }

  /**
   * The axis loop of PrepareCompute: sets each listed position of the
   * zeroed output dimensions to 1, stopping at the first axis that is out of
   * range or already set.
   */
  method MarkAxes(outputDims: array<int>, axes: seq<int>) returns (error: Option<Status>)
    requires forall j :: 0 <= j < outputDims.Length ==> outputDims[j] == 0
    modifies outputDims
    ensures error == AxesError(axes, outputDims.Length)
    ensures error.None? ==> forall j :: 0 <= j < outputDims.Length ==>
      outputDims[j] == if Marked(axes, outputDims.Length)[j] then 1 else 0
  {
    var n := outputDims.Length;
    var i := 0;
    while i < |axes|
      invariant 0 <= i <= |axes|
      invariant AxesError(axes[..i], n).None?
      invariant forall j :: 0 <= j < n ==> outputDims[j] == if j in axes[..i] then 1 else 0
    {
      var axis := axes[i];
      assert axes[..i + 1][..i] == axes[..i];
      if axis < 0 || axis >= n {
        AxesErrorExtends(axes, i + 1, n);
        return Some(InvalidArgument(OutOfRangeMessage));
      }
      if outputDims[axis] != 0 {
        AxesErrorExtends(axes, i + 1, n);
        return Some(InvalidArgument(DuplicateMessage));
      }
      outputDims[axis] := 1;
      i := i + 1;
    }
    assert axes[..|axes|] == axes;
    return None;
  }

  /**
   * The fill loop of PrepareCompute: walks the output positions in order and
   * gives each position still at 0 the next input dimension.
   */
  method FillDims(outputDims: array<int>, dims: seq<int>, ghost m: seq<bool>)
    requires |m| == outputDims.Length && Holes(m) == |dims|
    requires forall j :: 0 <= j < outputDims.Length ==> outputDims[j] == if m[j] then 1 else 0
    modifies outputDims
    ensures Squeeze(outputDims[..], m) == dims
    ensures forall j :: 0 <= j < outputDims.Length && m[j] ==> outputDims[j] == 1
  {
    var n := outputDims.Length;
    var begin := 0;
    var j := 0;
    assert outputDims[..0] == [] && m[..0] == [];
    while j < n
      invariant 0 <= j <= n && Filled(outputDims, dims, m, j, begin)
    {
      begin := FillOne(outputDims, dims, m, j, begin);
      j := j + 1;
    }
    assert m[..n] == m && outputDims[..n] == outputDims[..];
    assert dims[..begin] == dims;
  }

  /**
   * The fill loop's state after `j` positions: they hold the first `begin`
   * input dimensions at the unmarked places and 1 at the marked ones, and the
   * positions from `j` on still hold the 1/0 pattern of the marks.
   */
  ghost predicate Filled(outputDims: array<int>, dims: seq<int>, m: seq<bool>, j: int, begin: int)
    reads outputDims
  {
    |m| == outputDims.Length && Holes(m) == |dims| && 0 <= j <= |m| &&
    begin == Holes(m[..j]) <= |dims| &&
    Squeeze(outputDims[..j], m[..j]) == dims[..begin] &&
    (forall k :: 0 <= k < j && m[k] ==> outputDims[k] == 1) &&
    (forall k :: j <= k < |m| ==> outputDims[k] == if m[k] then 1 else 0)
  }

  /** One turn of the fill loop: position `j` gets the next input dimension if it is not marked. */
  method FillOne(outputDims: array<int>, dims: seq<int>, ghost m: seq<bool>, j: int, begin: int) returns (next: int)
    requires Filled(outputDims, dims, m, j, begin) && j < outputDims.Length
    modifies outputDims
    ensures Filled(outputDims, dims, m, j + 1, next)
  {
    ghost var before := outputDims[..j];
    assert m[..j + 1][..j] == m[..j];
    HolesPrefix(m, j + 1);
    next := begin;
    if outputDims[j] == 0 {
      outputDims[j] := dims[begin];
      next := begin + 1;
    }
    assert outputDims[..j + 1] == before + [outputDims[j]];
    assert dims[..next] == dims[..begin] + (if m[j] then [] else [dims[begin]]);
  }

  /**
   * Runs PrepareCompute and, on success, copies the input buffer into an
   * output tensor of the new shape; an error is returned unchanged and
   * nothing is produced.
   */
  method Compute<T>(input: Tensor<T>, axes: seq<int>) returns (status: Status, output: Option<Tensor<T>>)
    ensures status == OK <==> output.Some?
    ensures status == OK <==> AxesError(axes, |axes| + |input.shape|).None?
    ensures status != OK ==> status == AxesError(axes, |axes| + |input.shape|).value
    ensures output.Some? ==>
      output.value.data == input.data && IsUnsqueezed(output.value.shape, input.shape, axes)
  {
    var p := PrepareCompute(input, axes);
    if p.Failure? {
      return p.error, None;
    }
    output := Some(Tensor(p.value.outputShape, p.value.input.data));
    status := OK;
  }

  // ---------------------------------------------------------------------------
  // Properties

  /** The axis loop accepts exactly the in-range, repetition-free axis lists. */
  lemma {:induction false} AcceptableIffNoError(axes: seq<int>, rank: int)
    ensures AxesError(axes, rank).None? <==> Acceptable(axes, rank)
  {
    if axes != [] {
      var l := |axes| - 1;
      var prefix := axes[..l];
      AcceptableIffNoError(prefix, rank);
      if Acceptable(axes, rank) {
        assert Acceptable(prefix, rank) by {
          forall i | 0 <= i < l ensures 0 <= prefix[i] < rank { assert prefix[i] == axes[i]; }
          forall i, j | 0 <= i < j < l ensures prefix[i] != prefix[j] {
            assert prefix[i] == axes[i] && prefix[j] == axes[j];
          }
        }
        assert axes[l] !in prefix by {
          forall i | 0 <= i < l ensures prefix[i] != axes[l] { assert prefix[i] == axes[i]; }
        }
      }
      if AxesError(axes, rank).None? {
        assert AxesError(prefix, rank).None?;
        forall i | 0 <= i < |axes| ensures 0 <= axes[i] < rank {
          if i < l { assert axes[i] == prefix[i]; }
        }
        forall i, j | 0 <= i < j < |axes| ensures axes[i] != axes[j] {
          assert axes[i] == prefix[i];
          if j < l { assert axes[j] == prefix[j]; } else { assert axes[i] in prefix; }
        }
      }
    }
  }

  /** An error found in a prefix of the axes is the error of the whole list. */
  lemma {:induction false} AxesErrorExtends(axes: seq<int>, i: int, rank: int)
    requires 0 <= i <= |axes|
    ensures AxesError(axes[..i], rank).Some? ==> AxesError(axes, rank) == AxesError(axes[..i], rank)
    decreases |axes| - i
  {
    if i < |axes| {
      AxesErrorExtends(axes, i + 1, rank);
      assert axes[..i + 1][..i] == axes[..i];
    } else {
      assert axes[..i] == axes;
    }
  }

  /** Holes of a prefix grow by one per unmarked position. */
  lemma {:induction false} HolesPrefix(m: seq<bool>, j: int)
    requires 0 < j <= |m|
    ensures Holes(m[..j]) == Holes(m[..j - 1]) + (if m[j - 1] then 0 else 1)
    ensures Holes(m[..j]) <= Holes(m)
    decreases |m| - j
  {
    assert m[..j][..j - 1] == m[..j - 1];
    if j < |m| {
      HolesPrefix(m, j + 1);
    } else {
      assert m[..j] == m;
    }
  }

  /** Marking one more unmarked position removes one hole. */
  lemma {:induction false} HolesMark(m: seq<bool>, k: int)
    requires 0 <= k < |m| && !m[k]
    ensures Holes(m[k := true]) + 1 == Holes(m)
  {
    var l := |m| - 1;
    if k < l {
      assert m[k := true][..l] == m[..l][k := true];
      HolesMark(m[..l], k);
    } else {
      assert m[k := true][..l] == m[..l];
    }
  }

  /** With acceptable axes, exactly |axes| output positions are marked. */
  lemma {:induction false} HolesOfMarked(axes: seq<int>, rank: nat)
    requires Acceptable(axes, rank)
    ensures Holes(Marked(axes, rank)) + |axes| == rank
  {
    if axes == [] {
      assert Marked(axes, rank) == seq(rank, j => false);
      HolesAll(rank);
    } else {
      var l := |axes| - 1;
      var prefix := axes[..l];
      assert Acceptable(prefix, rank) by {
        forall i | 0 <= i < l ensures 0 <= prefix[i] < rank { assert prefix[i] == axes[i]; }
        forall i, j | 0 <= i < j < l ensures prefix[i] != prefix[j] {
          assert prefix[i] == axes[i] && prefix[j] == axes[j];
        }
      }
      HolesOfMarked(prefix, rank);
      var a := axes[l];
      assert a !in prefix by {
        forall i | 0 <= i < l ensures prefix[i] != a { assert prefix[i] == axes[i]; }
      }
      assert Marked(axes, rank) == Marked(prefix, rank)[a := true] by {
        forall j | 0 <= j < rank ensures (j in axes) <==> (j in prefix || j == a) {
          assert axes == prefix + [a];
        }
      }
      HolesMark(Marked(prefix, rank), a);
    }
  }

  lemma {:induction false} HolesAll(n: nat)
    ensures Holes(seq(n, j => false)) == n
  {
    if n > 0 {
      assert seq(n, j => false)[..n - 1] == seq(n - 1, j => false);
      HolesAll(n - 1);
    }
  }

  /** Squeezing leaves the product of the unmarked entries; marked entries of 1 do not count. */
  lemma {:induction false} SqueezeProduct(s: seq<int>, m: seq<bool>)
    requires |s| == |m| && forall j :: 0 <= j < |s| && m[j] ==> s[j] == 1
    ensures Product(Squeeze(s, m)) == Product(s)
  {
    if s != [] {
      var l := |s| - 1;
      SqueezeProduct(s[..l], m[..l]);
      assert Product(s) == Product(s[..l]) * s[l];
      assert Squeeze(s, m) == Squeeze(s[..l], m[..l]) + (if m[l] then [] else [s[l]]);
      assert Squeeze(s[..l], m[..l]) + [] == Squeeze(s[..l], m[..l]);
      if !m[l] {
        ProductSnoc(Squeeze(s[..l], m[..l]), s[l]);
      }
    }
  }

  /** Unsqueezing does not change the element count. */
  lemma {:induction false} UnsqueezeKeepsSize(out: seq<int>, dims: seq<int>, axes: seq<int>)
    requires IsUnsqueezed(out, dims, axes)
    ensures Product(out) == Product(dims)
  {
    var m := Marked(axes, |out|);
    forall j | 0 <= j < |out| && m[j] ensures out[j] == 1 {
      var i :| 0 <= i < |axes| && axes[i] == j;
    }
    SqueezeProduct(out, m);
  }

  /** The output shape is unique: two shapes unsqueezing the same input at the same axes are equal. */
  lemma {:induction false} UnsqueezedUnique(a: seq<int>, b: seq<int>, dims: seq<int>, axes: seq<int>)
    requires IsUnsqueezed(a, dims, axes) && IsUnsqueezed(b, dims, axes)
    ensures a == b
  {
    var m := Marked(axes, |a|);
    forall j | 0 <= j < |a| && m[j] ensures a[j] == b[j] {
      var i :| 0 <= i < |axes| && axes[i] == j;
    }
    SqueezeEqual(a, b, m);
  }

  /** Sequences that agree on the marked positions and squeeze to the same entries are equal. */
  lemma {:induction false} SqueezeEqual(a: seq<int>, b: seq<int>, m: seq<bool>)
    requires |a| == |b| == |m| && Squeeze(a, m) == Squeeze(b, m)
    requires forall j :: 0 <= j < |a| && m[j] ==> a[j] == b[j]
    ensures a == b
  {
    if a != [] {
      var l := |a| - 1;
      var sa, sb := Squeeze(a[..l], m[..l]), Squeeze(b[..l], m[..l]);
      SqueezeLength(a[..l], m[..l]);
      SqueezeLength(b[..l], m[..l]);
      assert Squeeze(a, m) == sa + (if m[l] then [] else [a[l]]);
      assert Squeeze(b, m) == sb + (if m[l] then [] else [b[l]]);
      assert sa + [] == sa && sb + [] == sb;
      if !m[l] {
        assert sa + [a[l]] == sb + [b[l]];
        assert sa == (sa + [a[l]])[..|sa|];
        assert sb == (sb + [b[l]])[..|sb|];
      }
      SqueezeEqual(a[..l], b[..l], m[..l]);
      assert a == a[..l] + [a[l]] && b == b[..l] + [b[l]];
    }
  }

  lemma {:induction false} SqueezeLength(s: seq<int>, m: seq<bool>)
    requires |s| == |m|
    ensures |Squeeze(s, m)| == Holes(m)
  {
    if s != [] {
      SqueezeLength(s[..|s| - 1], m[..|s| - 1]);
    }
  }
}
