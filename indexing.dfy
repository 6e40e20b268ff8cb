/**
 * Row-major addressing of N-dimensional tensors, as pure functions.
 *
 * A shape (or a vector of extents) is a `seq<int>`; an index tuple is a
 * `seq<int>` of the same length.  `Rank(k, radix)` is the row-major flat
 * position of `k` in a box of sizes `radix` (the mixed-radix value of `k`),
 * `Pitches(dims)` is the per-axis stride vector and `Dot(k, Pitches(dims))`
 * is the same position written as a sum of index times pitch.  `Succ` is the
 * odometer step (the next tuple in lexicographic order, wrapping to all
 * zeros), and `Decode(n, radix)` is the n-th tuple in that order.
 */
module Indexing {

  /** Product of all entries: the element count of a shape. */
  function Product(s: seq<int>): int
  {
    if s == [] then 1 else Product(s[..|s| - 1]) * s[|s| - 1]
  }

  /**
   * The pitch (stride) of every axis: the product of all inner sizes
   * (PitchIsInnerProduct); the innermost pitch is one.
   */
  function Pitches(dims: seq<int>): (p: seq<int>)
    ensures |p| == |dims|
    ensures forall i :: 0 <= i < |dims| ==> p[i] == Stride(dims, i + 1)
  {
    seq(|dims|, i requires 0 <= i < |dims| => Stride(dims, i + 1))
  }

  /** Sum of x[i] * p[i]. */
  function Dot(x: seq<int>, p: seq<int>): int
    requires |x| == |p|
  {
    if x == [] then 0 else Dot(x[..|x| - 1], p[..|x| - 1]) + x[|x| - 1] * p[|x| - 1]
  }

  /** Mixed-radix (row-major) value of the index tuple k in a box of sizes radix. */
  function Rank(k: seq<int>, radix: seq<int>): int
    requires |k| == |radix|
  {
    if k == [] then 0 else Rank(k[..|k| - 1], radix[..|k| - 1]) * radix[|k| - 1] + k[|k| - 1]
  }

  /**
   * The product of the sizes from axis i inwards, walked by index: the
   * pitch of axis i - 1.  It equals Product(dims[i..]) (StrideIsProduct).
   */
  function Stride(dims: seq<int>, i: int): int
    requires 0 <= i <= |dims|
    decreases |dims| - i
  {
    if i == |dims| then 1 else dims[i] * Stride(dims, i + 1)
  }

  /** Element-wise sum of two index vectors (start plus offset). */
  function Plus(a: seq<int>, b: seq<int>): (c: seq<int>)
    requires |a| == |b|
    ensures |c| == |a|
    ensures forall i :: 0 <= i < |a| ==> c[i] == a[i] + b[i]
  {
    seq(|a|, i requires 0 <= i < |a| => a[i] + b[i])
  }

  function Zeros(n: nat): (z: seq<int>)
    ensures |z| == n
    ensures forall i :: 0 <= i < n ==> z[i] == 0
  {
    seq(n, _ => 0)
  }

  /** Every entry of the box is at least one, so the box is not empty. */
  predicate Positive(radix: seq<int>)
  {
    forall i :: 0 <= i < |radix| ==> radix[i] >= 1
  }

  /** k is a valid index tuple of the box radix. */
  predicate Bounded(k: seq<int>, radix: seq<int>)
  {
    |k| == |radix| && forall i :: 0 <= i < |k| ==> 0 <= k[i] < radix[i]
  }

  /** k is the last tuple of the box: every counter is at its maximum. */
  predicate AllMax(k: seq<int>, radix: seq<int>)
  {
    |k| == |radix| && forall i :: 0 <= i < |k| ==> k[i] == radix[i] - 1
  }

  /**
   * One odometer step: bump the innermost counter; when it reaches its size,
   * reset it to zero and carry into the next outer counter.  A carry out of the
   * outermost counter leaves every counter at zero.
   */
  function Succ(k: seq<int>, radix: seq<int>): (r: seq<int>)
    requires |k| == |radix|
    ensures |r| == |k|
  {
    if k == [] then []
    else if k[|k| - 1] + 1 == radix[|k| - 1] then Succ(k[..|k| - 1], radix[..|k| - 1]) + [0]
    else k[..|k| - 1] + [k[|k| - 1] + 1]
  }

  /** The n-th index tuple of the box in row-major (lexicographic) order. */
  function Decode(n: nat, radix: seq<int>): (k: seq<int>)
    requires Positive(radix)
    ensures |k| == |radix|
  {
    if radix == [] then []
    else Decode(n / radix[|radix| - 1], radix[..|radix| - 1]) + [n % radix[|radix| - 1]]
  }

  /** Strict lexicographic order on index tuples of equal length. */
  predicate LexLess(a: seq<int>, b: seq<int>)
    requires |a| == |b|
  {
    exists j :: 0 <= j < |a| && a[..j] == b[..j] && a[j] < b[j]
  }

  // ---------------------------------------------------------------------------
  // Products

  lemma {:induction false} ProductSnoc(s: seq<int>, x: int)
    ensures Product(s + [x]) == Product(s) * x
  {
    assert (s + [x])[..|s|] == s;
  }

  /** Peeling the outermost size off a shape. */
  lemma {:induction false} ProductCons(x: int, s: seq<int>)
    ensures Product([x] + s) == x * Product(s)
    decreases |s|
  {
    if s == [] {
      assert [x] + s == [] + [x];
      ProductSnoc([], x);
    } else {
      var l := |s| - 1;
      var inner, last := Product(s[..l]), s[l];
      assert Product([x] + s) == Product([x] + s[..l]) * last by {
        assert [x] + s == ([x] + s[..l]) + [last];
        ProductSnoc([x] + s[..l], last);
      }
      ProductCons(x, s[..l]);
      assert Product(s) == inner * last;
      MulAssoc(x, inner, last);
    }
  }

  /** Every size of the shape is non-negative. */
  predicate IsShape(dims: seq<int>)
  {
    forall i :: 0 <= i < |dims| ==> dims[i] >= 0
  }

  /** A shape of non-negative sizes has a non-zero element count iff no size is zero. */
  lemma {:induction false} ProductNonZero(s: seq<int>)
    requires IsShape(s)
    ensures Product(s) >= 0
    ensures Product(s) != 0 <==> Positive(s)
  {
    if s != [] {
      var l := |s| - 1;
      ProductNonZero(s[..l]);
      assert Positive(s[..l]) && s[l] != 0 ==> Positive(s) by {
        if Positive(s[..l]) && s[l] != 0 {
          forall i | 0 <= i < |s| ensures s[i] >= 1 {
            if i < l { assert s[i] == s[..l][i]; }
          }
        }
      }
      if Positive(s) {
        assert Positive(s[..l]) by {
          forall i | 0 <= i < l ensures s[..l][i] >= 1 { assert s[..l][i] == s[i]; }
        }
      }
      MulNonNeg(Product(s[..l]), s[l]);
    }
  }

  lemma {:induction false} ProductPositive(s: seq<int>)
    requires Positive(s)
    ensures Product(s) >= 1
  {
    if s != [] {
      var l := |s| - 1;
      assert Positive(s[..l]) by {
        forall i | 0 <= i < l ensures s[..l][i] >= 1 { assert s[..l][i] == s[i]; }
      }
      ProductPositive(s[..l]);
      MulAtLeastOne(Product(s[..l]), s[l]);
    }
  }

  lemma {:induction false} MulAtLeastOne(a: int, b: int)
    requires a >= 1 && b >= 1
    ensures a * b >= 1
  {
  }

  // ---------------------------------------------------------------------------
  // Pitches and ranks

  /** Scaling every pitch scales the weighted sum. */
  lemma {:induction false} DotScaled(x: seq<int>, p: seq<int>, q: seq<int>, c: int)
    requires |x| == |p| == |q|
    requires forall i :: 0 <= i < |p| ==> q[i] == p[i] * c
    ensures Dot(x, q) == Dot(x, p) * c
  {
    if x != [] {
      var l := |x| - 1;
      DotScaled(x[..l], p[..l], q[..l], c);
      calc {
        Dot(x, q);
        Dot(x[..l], q[..l]) + x[l] * q[l];
        Dot(x[..l], p[..l]) * c + x[l] * (p[l] * c);
        (Dot(x[..l], p[..l]) + x[l] * p[l]) * c;
      }
    }
  }

  /**
   * The row-major flat position of an index tuple is the sum of index times
   * pitch over all axes.
   */
  lemma {:induction false} RankIsPitchSum(k: seq<int>, dims: seq<int>)
    requires |k| == |dims|
    ensures Rank(k, dims) == Dot(k, Pitches(dims))
  {
    if k != [] {
      var l := |k| - 1;
      var p, q := Pitches(dims[..l]), Pitches(dims)[..l];
      forall i | 0 <= i < l ensures q[i] == p[i] * dims[l] {
        StrideSnoc(dims, i + 1);
      }
      DotScaled(k[..l], p, q, dims[l]);
      RankIsPitchSum(k[..l], dims[..l]);
      assert Pitches(dims)[l] == 1;
    }
  }

  /** Rank is additive: the position of start + offset. */
  lemma {:induction false} RankPlus(a: seq<int>, b: seq<int>, radix: seq<int>)
    requires |a| == |b| == |radix|
    ensures Rank(Plus(a, b), radix) == Rank(a, radix) + Rank(b, radix)
  {
    if a != [] {
      var l := |a| - 1;
      assert Plus(a, b)[..l] == Plus(a[..l], b[..l]);
      RankPlus(a[..l], b[..l], radix[..l]);
      calc {
        Rank(Plus(a, b), radix);
        Rank(Plus(a[..l], b[..l]), radix[..l]) * radix[l] + (a[l] + b[l]);
        (Rank(a[..l], radix[..l]) + Rank(b[..l], radix[..l])) * radix[l] + (a[l] + b[l]);
        (Rank(a[..l], radix[..l]) * radix[l] + a[l]) + (Rank(b[..l], radix[..l]) * radix[l] + b[l]);
      }
    }
  }

  lemma {:induction false} RankZeros(radix: seq<int>)
    ensures Rank(Zeros(|radix|), radix) == 0
  {
    if radix != [] {
      var l := |radix| - 1;
      assert Zeros(|radix|)[..l] == Zeros(l);
      RankZeros(radix[..l]);
    }
  }

  /** Changing one counter moves the flat position by the change times that axis's pitch. */
  lemma {:induction false} RankUpdate(x: seq<int>, j: int, v: int, radix: seq<int>)
    requires |x| == |radix| && 0 <= j < |x|
    ensures Rank(x[j := v], radix) == Rank(x, radix) + (v - x[j]) * Stride(radix, j + 1)
  {
    var l := |x| - 1;
    if j == l {
      assert x[j := v][..l] == x[..l];
    } else {
      var y := x[j := v];
      assert y[..l] == x[..l][j := v] && y[l] == x[l] && x[..l][j] == x[j];
      RankUpdate(x[..l], j, v, radix[..l]);
      StrideSnoc(radix, j + 1);
      assert Rank(y, radix) == Rank(y[..l], radix[..l]) * radix[l] + y[l];
      assert Rank(x, radix) == Rank(x[..l], radix[..l]) * radix[l] + x[l];
      ScaledShift(Rank(x[..l], radix[..l]), v - x[j], Stride(radix[..l], j + 1), radix[l], x[l]);
    }
  }

  lemma {:induction false} MulAssoc(a: int, b: int, c: int)
    ensures (a * b) * c == a * (b * c)
  {
  }

  lemma {:induction false} ScaledShift(r: int, d: int, p: int, m: int, c: int)
    ensures (r + d * p) * m + c == r * m + c + d * (p * m)
  {
  }

  /** Every valid tuple has a position inside the box. */
  lemma {:induction false} RankBound(k: seq<int>, radix: seq<int>)
    requires Bounded(k, radix)
    ensures 0 <= Rank(k, radix) < Product(radix)
  {
    if k != [] {
      var l := |k| - 1;
      RankBound(k[..l], radix[..l]);
      ProductSnoc(radix[..l], radix[l]);
      assert radix[..l] + [radix[l]] == radix;
      var r, P := Rank(k[..l], radix[..l]), Product(radix[..l]);
      MulMonotone(r, P - 1, radix[l]);
      MulNonNeg(r, radix[l]);
    }
  }

  lemma {:induction false} MulMonotone(a: int, b: int, c: int)
    requires a <= b && c >= 0
    ensures a * c <= b * c
  {
    assert (b - a) * c >= 0;
  }

  lemma {:induction false} MulNonNeg(a: int, c: int)
    requires a >= 0 && c >= 0
    ensures a * c >= 0
  {
  }

  /** Euclidean division is determined by quotient and remainder. */
  lemma {:induction false} DivModUnique(n: int, d: int, q: int, r: int)
    requires d >= 1 && 0 <= r < d && n == q * d + r
    ensures n / d == q && n % d == r
  {
    var q', r' := n / d, n % d;
    assert n == q' * d + r';
    if q' > q {
      MulMonotone(q + 1, q', d);
    } else if q' < q {
      MulMonotone(q' + 1, q, d);
    }
  }

  /** Two valid tuples with the same position are equal. */
  lemma {:induction false} RankInjective(a: seq<int>, b: seq<int>, radix: seq<int>)
    requires Bounded(a, radix) && Bounded(b, radix)
    requires Rank(a, radix) == Rank(b, radix)
    ensures a == b
  {
    if a != [] {
      var l := |a| - 1;
      var n := Rank(a, radix);
      DivModUnique(n, radix[l], Rank(a[..l], radix[..l]), a[l]);
      DivModUnique(n, radix[l], Rank(b[..l], radix[..l]), b[l]);
      RankInjective(a[..l], b[..l], radix[..l]);
      assert a == a[..l] + [a[l]] && b == b[..l] + [b[l]];
    }
  }

  /** Decode enumerates the valid tuples: the n-th one has position n. */
  lemma {:induction false} RankDecode(n: nat, radix: seq<int>)
    requires Positive(radix) && n < Product(radix)
    ensures Bounded(Decode(n, radix), radix)
    ensures Rank(Decode(n, radix), radix) == n
  {
    if radix != [] {
      var l := |radix| - 1;
      var d := radix[l];
      var q, r := n / d, n % d;
      DivMod(n, d);
      assert q < Product(radix[..l]) by {
        ProductSnoc(radix[..l], d);
        assert radix[..l] + [d] == radix;
        if q >= Product(radix[..l]) {
          MulMonotone(Product(radix[..l]), q, d);
        }
      }
      RankDecode(q, radix[..l]);
      var k := Decode(n, radix);
      assert k == Decode(q, radix[..l]) + [r];
      assert k[..l] == Decode(q, radix[..l]);
      assert Rank(k, radix) == Rank(Decode(q, radix[..l]), radix[..l]) * d + r;
    }
  }

  lemma {:induction false} DivMod(n: nat, d: int)
    requires d >= 1
    ensures n == (n / d) * d + n % d && 0 <= n % d < d && n / d >= 0
  {
  }

  /** Every valid tuple is decoded from its own position. */
  lemma {:induction false} DecodeRank(k: seq<int>, radix: seq<int>)
    requires Bounded(k, radix) && Positive(radix)
    ensures Rank(k, radix) >= 0 && Decode(Rank(k, radix), radix) == k
  {
    RankBound(k, radix);
    RankDecode(Rank(k, radix), radix);
    RankInjective(Decode(Rank(k, radix), radix), k, radix);
  }

  // ---------------------------------------------------------------------------
  // The odometer step

  /** A run of maximal inner counters carries into the prefix and resets to zeros. */
  lemma {:induction false} SuccMaxSuffix(k: seq<int>, radix: seq<int>, a: int)
    requires |k| == |radix| && 0 <= a <= |k|
    requires forall i :: a <= i < |k| ==> k[i] == radix[i] - 1
    ensures Succ(k, radix) == Succ(k[..a], radix[..a]) + Zeros(|k| - a)
  {
    if a < |k| {
      var l := |k| - 1;
      SuccMaxSuffix(k[..l], radix[..l], a);
      assert k[..l][..a] == k[..a] && radix[..l][..a] == radix[..a];
      assert Zeros(l - a) + [0] == Zeros(|k| - a);
    } else {
      assert k[..a] == k && radix[..a] == radix;
      assert Succ(k, radix) + Zeros(0) == Succ(k, radix);
    }
  }

  /** The step from the last tuple wraps to the first. */
  lemma {:induction false} SuccAllMax(k: seq<int>, radix: seq<int>)
    requires AllMax(k, radix)
    ensures Succ(k, radix) == Zeros(|k|)
  {
    SuccMaxSuffix(k, radix, 0);
  }

  /** Any other step moves to the next position and stays in the box. */
  lemma {:induction false} SuccRank(k: seq<int>, radix: seq<int>)
    requires Bounded(k, radix) && !AllMax(k, radix)
    ensures Bounded(Succ(k, radix), radix)
    ensures Rank(Succ(k, radix), radix) == Rank(k, radix) + 1
    decreases |k|
  {
    var l := |k| - 1;
    if k[l] + 1 == radix[l] {
      var pre, rpre := k[..l], radix[..l];
      assert !AllMax(pre, rpre) by {
        var i :| 0 <= i < |k| && k[i] != radix[i] - 1;
        assert i < l && pre[i] == k[i];
      }
      SuccRank(pre, rpre);
      SuccRankCarry(k, radix);
    } else {
      SuccRankNoCarry(k, radix);
    }
  }

  /** A step that carries out of the innermost counter, given the step of the outer ones. */
  lemma {:induction false} SuccRankCarry(k: seq<int>, radix: seq<int>)
    requires Bounded(k, radix) && k != [] && k[|k| - 1] + 1 == radix[|k| - 1]
    requires Bounded(Succ(k[..|k| - 1], radix[..|k| - 1]), radix[..|k| - 1])
    requires Rank(Succ(k[..|k| - 1], radix[..|k| - 1]), radix[..|k| - 1]) == Rank(k[..|k| - 1], radix[..|k| - 1]) + 1
    ensures Bounded(Succ(k, radix), radix)
    ensures Rank(Succ(k, radix), radix) == Rank(k, radix) + 1
  {
    var l := |k| - 1;
    var pre, rpre := k[..l], radix[..l];
    var s := Succ(k, radix);
    assert s == Succ(pre, rpre) + [0];
    assert s[..l] == Succ(pre, rpre);
    assert Rank(s, radix) == Rank(Succ(pre, rpre), rpre) * radix[l] + 0;
    MulSucc(Rank(pre, rpre), radix[l]);
  }

  lemma MulSucc(r: int, m: int)
    ensures (r + 1) * m == r * m + m
  {
  }

  lemma {:induction false} SuccRankNoCarry(k: seq<int>, radix: seq<int>)
    requires Bounded(k, radix) && k != [] && k[|k| - 1] + 1 != radix[|k| - 1]
    ensures Bounded(Succ(k, radix), radix)
    ensures Rank(Succ(k, radix), radix) == Rank(k, radix) + 1
  {
    var l := |k| - 1;
    var s := Succ(k, radix);
    assert s == k[..l] + [k[l] + 1];
    assert s[..l] == k[..l];
  }

  /** The last tuple is exactly the one at the last position. */
  lemma {:induction false} AllMaxRank(k: seq<int>, radix: seq<int>)
    requires Bounded(k, radix)
    ensures AllMax(k, radix) <==> Rank(k, radix) == Product(radix) - 1
  {
    RankBound(k, radix);
    if AllMax(k, radix) {
      AllMaxRankLast(k, radix);
    } else {
      SuccRank(k, radix);
      RankBound(Succ(k, radix), radix);
    }
  }

  lemma {:induction false} AllMaxRankLast(k: seq<int>, radix: seq<int>)
    requires AllMax(k, radix)
    ensures Rank(k, radix) == Product(radix) - 1
  {
    if k != [] {
      var l := |k| - 1;
      AllMaxRankLast(k[..l], radix[..l]);
      ProductSnoc(radix[..l], radix[l]);
      assert radix[..l] + [radix[l]] == radix;
    }
  }

  /**
   * The odometer walks the tuples in the order Decode lists them: from the
   * n-th tuple it reaches the (n+1)-th, and from the last it returns to the first.
   */
  lemma {:induction false} SuccDecode(n: nat, radix: seq<int>)
    requires Positive(radix) && n < Product(radix)
    ensures n + 1 < Product(radix) ==> Succ(Decode(n, radix), radix) == Decode(n + 1, radix)
    ensures AllMax(Decode(n, radix), radix) <==> n + 1 == Product(radix)
    ensures n + 1 == Product(radix) ==> Succ(Decode(n, radix), radix) == Decode(0, radix) == Zeros(|radix|)
  {
    var k := Decode(n, radix);
    RankDecode(n, radix);
    AllMaxRank(k, radix);
    if n + 1 < Product(radix) {
      SuccDecodeNext(k, radix);
    } else {
      SuccDecodeLast(k, radix);
    }
  }

  lemma {:induction false} SuccDecodeLast(k: seq<int>, radix: seq<int>)
    requires Positive(radix) && AllMax(k, radix)
    ensures Succ(k, radix) == Decode(0, radix) == Zeros(|radix|)
  {
    SuccAllMax(k, radix);
    DecodeZero(radix);
  }

  lemma {:induction false} SuccDecodeNext(k: seq<int>, radix: seq<int>)
    requires Positive(radix) && Bounded(k, radix) && !AllMax(k, radix)
    ensures Rank(k, radix) + 1 >= 0 && Succ(k, radix) == Decode(Rank(k, radix) + 1, radix)
  {
    SuccRank(k, radix);
    DecodeRank(Succ(k, radix), radix);
  }

  /** Splitting off the innermost axis: the tuple at r * e + j is (tuple r of the outer box, j). */
  lemma {:induction false} DecodeInner(r: nat, j: int, outer: seq<int>, e: int)
    requires Positive(outer) && e >= 1 && 0 <= j < e
    ensures Positive(outer + [e])
    ensures Decode(r * e + j, outer + [e]) == Decode(r, outer) + [j]
  {
    var radix := outer + [e];
    assert radix[..|outer|] == outer;
    DivModUnique(r * e + j, e, r, j);
  }

  /** Lexicographic order, split at the innermost axis. */
  lemma {:induction false} LexLessSnoc(a: seq<int>, b: seq<int>)
    requires |a| == |b| > 0
    ensures LexLess(a, b) <==>
      LexLess(a[..|a| - 1], b[..|a| - 1]) || (a[..|a| - 1] == b[..|a| - 1] && a[|a| - 1] < b[|a| - 1])
  {
    var l := |a| - 1;
    if LexLess(a, b) {
      var j :| 0 <= j < |a| && a[..j] == b[..j] && a[j] < b[j];
      if j < l {
        assert a[..l][..j] == a[..j] && b[..l][..j] == b[..j];
      } else {
        assert a[..l] == a[..j];
      }
    }
    if LexLess(a[..l], b[..l]) {
      var j :| 0 <= j < l && a[..l][..j] == b[..l][..j] && a[..l][j] < b[..l][j];
      assert a[..j] == a[..l][..j] && b[..j] == b[..l][..j];
    }
    if a[..l] == b[..l] && a[l] < b[l] {
      assert a[..l] == b[..l] && a[l] < b[l];
    }
  }

  /** Comparing two-digit mixed-radix numbers digit by digit. */
  lemma {:induction false} MixedLess(x: int, y: int, u: int, v: int, r: int)
    requires 0 <= u < r && 0 <= v < r
    ensures x * r + u < y * r + v <==> x < y || (x == y && u < v)
  {
    if x < y {
      MulMonotone(x + 1, y, r);
    } else if y < x {
      MulMonotone(y + 1, x, r);
    }
  }

  /** Rank order on valid tuples is lexicographic order. */
  lemma {:induction false} RankLexOrder(a: seq<int>, b: seq<int>, radix: seq<int>)
    requires Bounded(a, radix) && Bounded(b, radix)
    ensures LexLess(a, b) <==> Rank(a, radix) < Rank(b, radix)
  {
    if a != [] {
      var l := |a| - 1;
      assert Bounded(a[..l], radix[..l]) && Bounded(b[..l], radix[..l]);
      RankLexOrder(a[..l], b[..l], radix[..l]);
      LexLessSnoc(a, b);
      var ra, rb := Rank(a[..l], radix[..l]), Rank(b[..l], radix[..l]);
      MixedLess(ra, rb, a[l], b[l], radix[l]);
      if ra == rb {
        RankInjective(a[..l], b[..l], radix[..l]);
      }
    }
  }

  /** Decode starts at the all-zero tuple. */
  lemma {:induction false} DecodeZero(radix: seq<int>)
    requires Positive(radix)
    ensures Decode(0, radix) == Zeros(|radix|)
  {
    if radix != [] {
      var l := |radix| - 1;
      DecodeZero(radix[..l]);
      assert Zeros(l) + [0] == Zeros(|radix|);
    }
  }

  /**
   * The step from a tuple whose counters after axis a are all at their
   * maximum, and whose counter a is not, bumps counter a and zeroes the rest.
   */
  lemma {:induction false} SuccAt(k: seq<int>, radix: seq<int>, a: int)
    requires |k| == |radix| && 0 <= a < |k|
    requires forall i :: a < i < |k| ==> k[i] == radix[i] - 1
    requires k[a] + 1 != radix[a]
    ensures Succ(k, radix) == k[..a] + [k[a] + 1] + Zeros(|k| - a - 1)
    ensures !AllMax(k, radix)
  {
    SuccMaxSuffix(k, radix, a + 1);
    assert k[..a + 1][..a] == k[..a];
  }

  /**
   * A slice that starts at the origin and spans the whole box visits the
   * flat positions 0, 1, 2, ... in order: the n-th visited tuple is at
   * position n.
   */
  lemma {:induction false} FullSliceIsIdentity(n: nat, dims: seq<int>)
    requires Positive(dims) && n < Product(dims)
    ensures Dot(Plus(Zeros(|dims|), Decode(n, dims)), Pitches(dims)) == n
  {
    var k := Decode(n, dims);
    assert Plus(Zeros(|dims|), k) == k;
    RankIsPitchSum(k, dims);
    RankDecode(n, dims);
  }

  /** Dropping the innermost size divides every stride outside it by that size. */
  lemma {:induction false} StrideSnoc(dims: seq<int>, i: int)
    requires 0 <= i < |dims|
    ensures Stride(dims, i) == Stride(dims[..|dims| - 1], i) * dims[|dims| - 1]
    decreases |dims| - i
  {
    if i < |dims| - 1 {
      StrideSnoc(dims, i + 1);
      assert dims[..|dims| - 1][i] == dims[i];
    }
  }

  /** The stride from the outermost axis is the element count. */
  lemma {:induction false} StrideProduct(dims: seq<int>)
    ensures Stride(dims, 0) == Product(dims)
  {
    if dims != [] {
      var l := |dims| - 1;
      StrideSnoc(dims, 0);
      StrideProduct(dims[..l]);
    }
  }

  /** The stride from axis i is the product of the sizes from axis i inwards. */
  lemma {:induction false} StrideIsProduct(dims: seq<int>, i: int)
    requires 0 <= i <= |dims|
    ensures Stride(dims, i) == Product(dims[i..])
    decreases |dims| - i
  {
    if i < |dims| {
      StrideIsProduct(dims, i + 1);
      assert dims[i..] == [dims[i]] + dims[i + 1..];
      ProductCons(dims[i], dims[i + 1..]);
    } else {
      assert dims[i..] == [];
    }
  }

  /** Each pitch is the product of all sizes inside its axis. */
  lemma {:induction false} PitchIsInnerProduct(dims: seq<int>, i: int)
    requires 0 <= i < |dims|
    ensures Pitches(dims)[i] == Product(dims[i + 1..])
  {
    StrideIsProduct(dims, i + 1);
  }
}
