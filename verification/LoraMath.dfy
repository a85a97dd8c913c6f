/** The adapter's vector and matrix code over the reals; matrices are flat and row-major. */
module LoraMath {

  type Vec = seq<real>

  function Dot(a: Vec, b: Vec): real
    requires |a| == |b|
  {
    if a == [] then 0.0
    else
      var k := |a| - 1;
      Dot(a[..k], b[..k]) + a[k] * b[k]
  }

  /** One component of base + scale * residual. */
  function Axpy(x: real, scale: real, y: real): real {
    x + scale * y
  }

  function Times(x: real, c: real): real {
    x * c
  }

  /** base + scale * residual, component by component. */
  function AddScaled(base: Vec, residual: Vec, scale: real): Vec
    requires |base| == |residual|
  {
    seq(|base|, i requires 0 <= i < |base| => Axpy(base[i], scale, residual[i]))
  }

  lemma Distribute(x: real, c: real, y: real, h: real)
    ensures (x + c * y) * h == x * h + c * (y * h)
  {
    assert (x + c * y) * h == x * h + (c * y) * h;
    assert (c * y) * h == c * (y * h);
  }

  lemma DistributeSum(c: real, s: real, t: real)
    ensures c * (s + t) == c * s + c * t
  {
  }

  lemma {:induction false} DotIsLinear(a: Vec, b: Vec, c: real, h: Vec)
    requires |a| == |b| == |h|
    ensures Dot(AddScaled(a, b, c), h) == Axpy(Dot(a, h), c, Dot(b, h))
  {
    if a != [] {
      var k := |a| - 1;
      DotIsLinear(a[..k], b[..k], c, h[..k]);
      assert AddScaled(a, b, c)[..k] == AddScaled(a[..k], b[..k], c) by { hide Axpy; }
      Distribute(a[k], c, b[k], h[k]);
      DistributeSum(c, Dot(b[..k], h[..k]), b[k] * h[k]);
    }
  }

  /** The k-th unit vector of n dimensions. */
  function Unit(n: nat, k: nat): (e: Vec)
    ensures |e| == n
  {
    seq(n, i => if i == k then 1.0 else 0.0)
  }

  lemma {:induction false} DotIsSymmetric(a: Vec, b: Vec)
    requires |a| == |b|
    ensures Dot(a, b) == Dot(b, a)
  {
    if a != [] {
      DotIsSymmetric(a[..|a| - 1], b[..|b| - 1]);
    }
  }

  /** Together with linearity this determines the product: each component counts, with weight one. */
  lemma {:induction false} DotOfUnit(v: Vec, k: nat)
    requires k < |v|
    ensures Dot(v, Unit(|v|, k)) == v[k] == Dot(Unit(|v|, k), v)
  {
    var m := |v| - 1;
    var e := Unit(|v|, k);
    if k == m {
      DotOfZeros(v[..m], e[..m]);
    } else {
      assert e[..m] == Unit(m, k);
      DotOfUnit(v[..m], k);
    }
    DotIsSymmetric(v, e);
  }

  lemma {:induction false} DotOfZeros(v: Vec, z: Vec)
    requires |v| == |z| && forall i | 0 <= i < |z| :: z[i] == 0.0
    ensures Dot(v, z) == 0.0
  {
    if v != [] {
      DotOfZeros(v[..|v| - 1], z[..|z| - 1]);
    }
  }

  // ---------------------------------------------------------------- rows of a flat matrix

  lemma RowFits(i: nat, rows: nat, cols: nat)
    requires i < rows
    ensures 0 <= i * cols <= i * cols + cols <= rows * cols
  {
    assert (rows - i - 1) * cols >= 0;
    assert rows * cols == (rows - i - 1) * cols + i * cols + cols;
  }

  lemma RowsAreApart(k: nat, i: nat, cols: nat)
    requires k < i
    ensures k * cols + cols <= i * cols
  {
    RowFits(k, i, cols);
  }

  function Row(m: Vec, i: nat, rows: nat, cols: nat): (r: Vec)
    requires |m| == rows * cols && i < rows
    ensures |r| == cols
  {
    RowFits(i, rows, cols);
    m[i * cols..i * cols + cols]
  }

  /** The product of a matrix and a vector. */
  function Product(m: Vec, v: Vec, rows: nat, cols: nat): (r: Vec)
    requires |m| == rows * cols && |v| == cols
    ensures |r| == rows
  {
    seq(rows, i requires 0 <= i < rows => Dot(Row(m, i, rows, cols), v))
  }

  /** Entry (i, k) of a flat matrix is at i * cols + k: the matrix takes the k-th unit vector to its k-th column. */
  lemma ProductOfUnit(m: Vec, i: nat, k: nat, rows: nat, cols: nat)
    requires |m| == rows * cols && i < rows && k < cols
    ensures 0 <= i * cols + k < |m| && Product(m, Unit(cols, k), rows, cols)[i] == m[i * cols + k]
  {
    RowFits(i, rows, cols);
    DotOfUnit(Row(m, i, rows, cols), k);
  }

  /** An identity matrix leaves every vector as it is. */
  lemma IdentityKeeps(m: Vec, v: Vec, n: nat)
    requires |m| == n * n && |v| == n
    requires forall i | 0 <= i < n :: Row(m, i, n, n) == Unit(n, i)
    ensures Product(m, v, n, n) == v
  {
    forall i | 0 <= i < n ensures Product(m, v, n, n)[i] == v[i] {
      DotOfUnit(v, i);
    }
    hide Dot, Unit, Row;
  }

  method DotLoop(m: Vec, start: nat, v: Vec) returns (acc: real)
    requires start + |v| <= |m|
    ensures acc == Dot(m[start..start + |v|], v)
  {
    acc := 0.0;
    for j := 0 to |v|
      invariant acc == Dot(m[start..start + j], v[..j])
    {
      assert m[start..start + j + 1][..j] == m[start..start + j] && v[..j + 1][..j] == v[..j];
      acc := acc + m[start + j] * v[j];
    }
    assert v[..|v|] == v;
  }

  /** Both `mat_vec` functions: one accumulator per row. */
  method MatVec(m: Vec, v: Vec, rows: nat, cols: nat) returns (u: Vec)
    requires |m| == rows * cols && |v| == cols
    ensures u == Product(m, v, rows, cols)
  {
    u := [];
    for i := 0 to rows
      invariant |u| == i
      invariant forall k | 0 <= k < i :: u[k] == Dot(Row(m, k, rows, cols), v)
    {
      RowFits(i, rows, cols);
      var acc := DotLoop(m, i * cols, v);
      u := u + [acc];
    }
  }

  /** v + scale * B * (A * v), with A of shape r x d and B of shape d x r. */
  function Adapted(a: Vec, b: Vec, v: Vec, scale: real, d: nat, r: nat): (w: Vec)
    requires |a| == r * d && |b| == d * r && |v| == d
    ensures |w| == d
  {
    AddScaled(v, Product(b, Product(a, v, r, d), d, r), scale)
  }

  // ---------------------------------------------------------------- updates in place

  /** after = before + lr * outer(u, v), row by row. */
  ghost predicate IsOuterAdded(before: Vec, after: Vec, u: Vec, v: Vec, lr: real, rows: nat, cols: nat)
    requires |before| == rows * cols && |u| == rows && |v| == cols
  {
    && |after| == |before|
    && (forall i | 0 <= i < rows ::
          Row(after, i, rows, cols) == AddScaled(Row(before, i, rows, cols), v, Times(lr, u[i])))
  }

  /** Entry by entry. */
  lemma OuterAddedAt(before: Vec, after: Vec, u: Vec, v: Vec, lr: real, rows: nat, cols: nat, i: nat, k: nat)
    requires |before| == rows * cols && |u| == rows && |v| == cols && i < rows && k < cols
    requires IsOuterAdded(before, after, u, v, lr, rows, cols)
    ensures 0 <= i * cols + k < |before| == |after|
    ensures after[i * cols + k] == Axpy(before[i * cols + k], Times(lr, u[i]), v[k])
  {
    hide Times, Axpy;
    RowFits(i, rows, cols);
    assert Row(after, i, rows, cols)[k] == AddScaled(Row(before, i, rows, cols), v, Times(lr, u[i]))[k];
  }

  method AddToRow(m: array<real>, start: nat, v: Vec, c: real)
    requires start + |v| <= m.Length
    modifies m
    ensures m[..start] == old(m[..start]) && m[start + |v|..] == old(m[start + |v|..])
    ensures m[start..start + |v|] == AddScaled(old(m[start..start + |v|]), v, c)
  {
    for j := 0 to |v|
      invariant forall k | 0 <= k < m.Length ::
                  m[k] == if start <= k < start + j then Axpy(old(m[k]), c, v[k - start]) else old(m[k])
    {
      m[start + j] := Axpy(m[start + j], c, v[j]);
    }
    hide Axpy;
  }

  method OuterAdd(m: array<real>, u: Vec, v: Vec, lr: real, rows: nat, cols: nat)
    requires m.Length == rows * cols && |u| == rows && |v| == cols
    modifies m
    ensures IsOuterAdded(old(m[..]), m[..], u, v, lr, rows, cols)
  {
    ghost var start := m[..];
    for i := 0 to rows
      invariant IsOuterAddedUpTo(start, m[..], u, v, lr, rows, cols, i)
    {
      RowFits(i, rows, cols);
      ghost var before := m[..];
      AddToRow(m, i * cols, v, Times(lr, u[i]));
      NextRowAdded(start, before, m[..], u, v, lr, rows, cols, i);
    }
  }

  /** The first i rows have been added to, the others not yet. */
  ghost predicate IsOuterAddedUpTo(start: Vec, m: Vec, u: Vec, v: Vec, lr: real, rows: nat, cols: nat, i: nat)
    requires |start| == rows * cols && |u| == rows && |v| == cols
  {
    && |m| == |start|
    && (forall k | 0 <= k < rows ::
          Row(m, k, rows, cols) ==
          if k < i then AddScaled(Row(start, k, rows, cols), v, Times(lr, u[k])) else Row(start, k, rows, cols))
  }

  lemma NextRowAdded(start: Vec, before: Vec, after: Vec, u: Vec, v: Vec, lr: real, rows: nat, cols: nat, i: nat)
    requires |start| == |before| == |after| == rows * cols && |u| == rows && |v| == cols && i < rows
    requires IsOuterAddedUpTo(start, before, u, v, lr, rows, cols, i)
    requires 0 <= i * cols && i * cols + cols <= |before|
    requires before[..i * cols] == after[..i * cols] && before[i * cols + cols..] == after[i * cols + cols..]
    requires after[i * cols..i * cols + cols] == AddScaled(before[i * cols..i * cols + cols], v, Times(lr, u[i]))
    ensures IsOuterAddedUpTo(start, after, u, v, lr, rows, cols, i + 1)
  {
    hide Times, AddScaled;
    assert Row(after, i, rows, cols) == AddScaled(Row(before, i, rows, cols), v, Times(lr, u[i]));
    hide Row;
    forall k | 0 <= k < rows && k != i ensures Row(after, k, rows, cols) == Row(before, k, rows, cols) {
      OtherRowsStay(before, after, i, k, rows, cols);
    }
  }

  lemma OtherRowsStay(before: Vec, after: Vec, i: nat, k: nat, rows: nat, cols: nat)
    requires |before| == |after| == rows * cols && i < rows && k < rows && i != k
    requires 0 <= i * cols && i * cols + cols <= |before|
    requires before[..i * cols] == after[..i * cols] && before[i * cols + cols..] == after[i * cols + cols..]
    ensures Row(after, k, rows, cols) == Row(before, k, rows, cols)
  {
    RowFits(k, rows, cols);
    var s, t := i * cols, k * cols;
    if k < i {
      RowsAreApart(k, i, cols);
      assert after[..s][t..t + cols] == before[..s][t..t + cols];
    } else {
      RowsAreApart(i, k, cols);
      assert after[s + cols..][t - s - cols..t - s] == before[s + cols..][t - s - cols..t - s];
    }
  }

  // ---------------------------------------------------------------- the norm

  function SumSquares(v: Vec): real {
    if v == [] then 0.0
    else
      var k := |v| - 1;
      SumSquares(v[..k]) + v[k] * v[k]
  }

  lemma {:induction false} SumSquaresIsDot(v: Vec)
    ensures SumSquares(v) == Dot(v, v)
  {
    if v != [] {
      SumSquaresIsDot(v[..|v| - 1]);
    }
  }

  lemma SumSquaresOfUnit(n: nat, k: nat)
    requires k < n
    ensures SumSquares(Unit(n, k)) == 1.0
  {
    SumSquaresIsDot(Unit(n, k));
    DotOfUnit(Unit(n, k), k);
  }

  /** A square root, by its defining equation. */
  ghost predicate IsSqrt(sqrt: real -> real) {
    forall x | x >= 0.0 :: sqrt(x) >= 0.0 && sqrt(x) * sqrt(x) == x
  }

  lemma {:induction false} SumSquaresIsNonNegative(v: Vec)
    ensures SumSquares(v) >= 0.0
  {
    if v != [] {
      SumSquaresIsNonNegative(v[..|v| - 1]);
      assert v[|v| - 1] * v[|v| - 1] >= 0.0;
    }
  }

  function Scaled(v: Vec, c: real): Vec {
    seq(|v|, i requires 0 <= i < |v| => Times(v[i], c))
  }

  lemma SquareOfProduct(x: real, c: real)
    ensures (x * c) * (x * c) == (x * x) * (c * c)
  {
    assert (x * c) * (x * c) == x * (c * (x * c));
    assert c * (x * c) == x * (c * c);
    assert x * (x * (c * c)) == (x * x) * (c * c);
  }

  lemma {:induction false} SumSquaresOfScaled(v: Vec, c: real)
    ensures SumSquares(Scaled(v, c)) == SumSquares(v) * (c * c)
  {
    if v != [] {
      var k := |v| - 1;
      SumSquaresOfScaled(v[..k], c);
      assert Scaled(v, c)[..k] == Scaled(v[..k], c) by { hide Times; }
      SquareOfProduct(v[k], c);
      DistributeSum(c * c, SumSquares(v[..k]), v[k] * v[k]);
    }
  }

  /** Norm at most maxNorm stays; a larger one is scaled down to exactly maxNorm. */
  function Clamped(b: Vec, maxNorm: real, sqrt: real -> real): Vec {
    var norm := sqrt(SumSquares(b));
    if norm > maxNorm && norm != 0.0 then Scaled(b, maxNorm / norm) else b
  }

  lemma ClampBoundsTheNorm(b: Vec, maxNorm: real, sqrt: real -> real)
    requires IsSqrt(sqrt) && maxNorm > 0.0
    ensures SumSquares(Clamped(b, maxNorm, sqrt)) <= maxNorm * maxNorm
    ensures sqrt(SumSquares(b)) > maxNorm ==> SumSquares(Clamped(b, maxNorm, sqrt)) == maxNorm * maxNorm
    ensures sqrt(SumSquares(b)) <= maxNorm ==> Clamped(b, maxNorm, sqrt) == b
  {
    SumSquaresIsNonNegative(b);
    var total := SumSquares(b);
    var norm := sqrt(total);
    assert total == norm * norm && norm >= 0.0;
    hide SumSquares, Scaled, IsSqrt;
    if norm > maxNorm {
      SumSquaresOfScaled(b, maxNorm / norm);
      ScaledNormIsExact(total, norm, maxNorm, SumSquares(Scaled(b, maxNorm / norm)));
    } else {
      SquareIsMonotone(norm, maxNorm);
    }
  }

  /** Every entry is scaled by the same factor: one, or what the bound is of the norm. */
  lemma ClampScalesUniformly(b: Vec, maxNorm: real, sqrt: real -> real, i: nat)
    requires maxNorm > 0.0 && i < |b|
    ensures |Clamped(b, maxNorm, sqrt)| == |b|
    ensures var norm := sqrt(SumSquares(b));
            Clamped(b, maxNorm, sqrt)[i] == if norm > maxNorm then b[i] * (maxNorm / norm) else b[i]
  {
  }

  lemma ScaledNormIsExact(total: real, norm: real, maxNorm: real, scaled: real)
    requires norm > 0.0 && total == norm * norm && scaled == total * ((maxNorm / norm) * (maxNorm / norm))
    ensures scaled == maxNorm * maxNorm
  {
    var c := maxNorm / norm;
    assert norm * c == maxNorm;
    SquareOfProduct(norm, c);
  }

  lemma SquareIsMonotone(x: real, y: real)
    requires 0.0 <= x <= y
    ensures x * x <= y * y
  {
    assert x * x <= x * y <= y * y;
  }

  method FrobeniusNorm(b: Vec, sqrt: real -> real) returns (norm: real)
    ensures norm == sqrt(SumSquares(b))
  {
    var total := 0.0;
    for i := 0 to |b|
      invariant total == SumSquares(b[..i])
    {
      assert b[..i + 1][..i] == b[..i];
      total := total + b[i] * b[i];
    }
    assert b[..|b|] == b;
    norm := sqrt(total);
  }

  method ClampFrobenius(b: array<real>, maxNorm: real, sqrt: real -> real)
    requires IsSqrt(sqrt) && maxNorm > 0.0
    modifies b
    ensures b[..] == Clamped(old(b[..]), maxNorm, sqrt)
  {
    var norm := FrobeniusNorm(b[..], sqrt);
    if norm > maxNorm {
      var scale := maxNorm / norm;
      for i := 0 to b.Length
        invariant forall k | 0 <= k < b.Length :: b[k] == if k < i then Times(old(b[k]), scale) else old(b[k])
      {
        b[i] := Times(b[i], scale);
      }
      assert b[..] == Scaled(old(b[..]), scale) by { hide Times; }
    }
  }
}
