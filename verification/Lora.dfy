/** The per-agent adapter: how one rating changes it exactly, and what holds after any number of ratings. */
module Lora {
  import opened LoraMath

  const DEFAULT_RANK: nat := 8
  const DEFAULT_SCALE := 1.0 / 8.0
  const B_MAX_NORM := 10.0
  const LORA_LR := 0.005

  function Abs(x: real): real {
    if x < 0.0 then -x else x
  }

  function Sign(x: real): real {
    if x < 0.0 then -1.0 else 1.0
  }

  /** The effective learning rate. */
  function Rate(rating: real): real {
    Abs(rating) * LORA_LR
  }

  /** How far the adapted item is from the query, component i. */
  function Residual(a: Vec, b: Vec, query: Vec, item: Vec, scale: real, d: nat, r: nat, i: nat): real
    requires |a| == r * d && |b| == d * r && |item| == d <= |query| && i < d
  {
    query[i] - Adapted(a, b, item, scale, d, r)[i]
  }

  function SignedGap(query: Vec, adapted: Vec, sign: real, d: nat): (r: Vec)
    requires |adapted| == d <= |query|
    ensures |r| == d
  {
    seq(d, i requires 0 <= i < d => Times(sign, query[i] - adapted[i]))
  }

  /** The direction of an update: the signed residual. */
  function Delta(a: Vec, b: Vec, query: Vec, item: Vec, rating: real, scale: real, d: nat, r: nat): (delta: Vec)
    requires |a| == r * d && |b| == d * r && |item| == d <= |query|
    ensures |delta| == d
  {
    SignedGap(query, Adapted(a, b, item, scale, d, r), Sign(rating), d)
  }

  /** B after one update, before the norm is clamped. */
  ghost predicate IsNudged(a: Vec, b: Vec, nudged: Vec, query: Vec, item: Vec, rating: real, scale: real, d: nat, r: nat)
    requires |a| == r * d && |b| == d * r && |item| == d <= |query|
  {
    IsOuterAdded(b, nudged, Delta(a, b, query, item, rating, scale, d, r), Product(a, item, r, d), Rate(rating), d, r)
  }

  lemma Algebra(q: real, v: real, scale: real, dot: real, lr: real, sign: real, res: real, hh: real)
    requires res == q - Axpy(v, scale, dot)
    ensures q - Axpy(v, scale, Axpy(dot, Times(lr, Times(sign, res)), hh)) ==
            Times(1.0 - Times(sign, Times(Times(lr, scale), hh)), res)
  {
    var step := (lr * (sign * res)) * hh;
    assert scale * (dot + step) == scale * dot + scale * step;
    assert scale * step == (sign * ((lr * scale) * hh)) * res by {
      assert lr * (sign * res) == (lr * sign) * res;
      assert ((lr * sign) * res) * hh == ((lr * sign) * hh) * res;
      assert scale * (((lr * sign) * hh) * res) == (scale * ((lr * sign) * hh)) * res;
      assert scale * ((lr * sign) * hh) == sign * ((lr * scale) * hh) by {
        assert (lr * sign) * hh == sign * (lr * hh);
        assert scale * (sign * (lr * hh)) == sign * (scale * (lr * hh));
        assert scale * (lr * hh) == (lr * scale) * hh;
      }
    }
    assert (1.0 - sign * ((lr * scale) * hh)) * res == res - (sign * ((lr * scale) * hh)) * res;
  }

  lemma AdaptedAt(a: Vec, b: Vec, v: Vec, scale: real, d: nat, r: nat, i: nat)
    requires |a| == r * d && |b| == d * r && |v| == d && i < d
    ensures Adapted(a, b, v, scale, d, r)[i] == Axpy(v[i], scale, Dot(Row(b, i, d, r), Product(a, v, r, d)))
  {
    hide Dot, Row, Axpy;
    assert Product(b, Product(a, v, r, d), d, r)[i] == Dot(Row(b, i, d, r), Product(a, v, r, d));
  }

  lemma RowOfNudged(a: Vec, b: Vec, nudged: Vec, query: Vec, item: Vec, rating: real, scale: real, d: nat, r: nat, i: nat)
    requires |a| == r * d && |b| == |nudged| == d * r && |item| == d <= |query| && i < d
    requires IsNudged(a, b, nudged, query, item, rating, scale, d, r)
    ensures Row(nudged, i, d, r) ==
            AddScaled(Row(b, i, d, r), Product(a, item, r, d),
                      Times(Rate(rating), Times(Sign(rating), Residual(a, b, query, item, scale, d, r, i))))
  {
    hide AddScaled, Row, Product, Adapted, Times, Rate, Sign;
  }

  /** Component i of an adapted vector: v plus scale times row i of B applied to A times v. */
  lemma AdaptedPlainly(a: Vec, b: Vec, v: Vec, scale: real, d: nat, r: nat, i: nat)
    requires |a| == r * d && |b| == d * r && |v| == d && i < d
    ensures Adapted(a, b, v, scale, d, r)[i] == v[i] + scale * Product(b, Product(a, v, r, d), d, r)[i]
  {
    hide Product;
  }

  /** An update adds rating times learning rate times the residual times A times the item, signs included. */
  lemma NudgedAt(a: Vec, b: Vec, nudged: Vec, query: Vec, item: Vec, rating: real, scale: real, d: nat, r: nat, i: nat, k: nat)
    requires |a| == r * d && |b| == |nudged| == d * r && |item| == d <= |query| && i < d && k < r
    requires IsNudged(a, b, nudged, query, item, rating, scale, d, r)
    ensures 0 <= i * r + k < |b|
    ensures nudged[i * r + k] == b[i * r + k] +
            rating * 0.005 * (query[i] - Adapted(a, b, item, scale, d, r)[i]) * Product(a, item, r, d)[k]
  {
    hide Product, Adapted, Row, AddScaled, Times, Rate, Sign, IsOuterAdded, Axpy;
    var delta, h := Delta(a, b, query, item, rating, scale, d, r), Product(a, item, r, d);
    var res := query[i] - Adapted(a, b, item, scale, d, r)[i];
    assert delta[i] == Times(Sign(rating), res);
    OuterAddedAt(b, nudged, delta, h, Rate(rating), d, r, i, k);
    StepPlainly(b[i * r + k], rating, res, h[k]);
  }

  lemma StepPlainly(x: real, rating: real, res: real, h: real)
    ensures Axpy(x, Times(Rate(rating), Times(Sign(rating), res)), h) == x + rating * 0.005 * res * h
  {
    if rating < 0.0 {
      assert ((-rating) * 0.005) * (-1.0 * res) == rating * 0.005 * res;
    }
  }

  /**
   Before clamping, one update multiplies every component of the residual by the same factor: one minus the rating
   times learning rate times scale times the squared length of A times the item.
   */
  lemma ResidualIsScaled(a: Vec, b: Vec, nudged: Vec, query: Vec, item: Vec, rating: real, scale: real, d: nat, r: nat, i: nat)
    requires |a| == r * d && |b| == |nudged| == d * r && |item| == d <= |query| && i < d
    requires IsNudged(a, b, nudged, query, item, rating, scale, d, r)
    ensures query[i] - Adapted(a, nudged, item, scale, d, r)[i] ==
            (1.0 - rating * 0.005 * scale * SumSquares(Product(a, item, r, d))) * (query[i] - Adapted(a, b, item, scale, d, r)[i])
  {
    hide Axpy, Product, Dot, Row, AddScaled, Adapted, IsNudged, Sign, Rate;
    var h, row := Product(a, item, r, d), Row(b, i, d, r);
    var res := Residual(a, b, query, item, scale, d, r, i);
    AdaptedAt(a, b, item, scale, d, r, i);
    AdaptedAt(a, nudged, item, scale, d, r, i);
    RowOfNudged(a, b, nudged, query, item, rating, scale, d, r, i);
    DotIsLinear(row, h, Times(Rate(rating), Times(Sign(rating), res)), h);
    Algebra(query[i], item[i], scale, Dot(row, h), Rate(rating), Sign(rating), res, Dot(h, h));
    SumSquaresIsDot(h);
    FactorPlainly(rating, scale, SumSquares(h));
    hide Times;
  }

  lemma FactorPlainly(rating: real, scale: real, hh: real)
    ensures 1.0 - Times(Sign(rating), Times(Times(Rate(rating), scale), hh)) == 1.0 - rating * 0.005 * scale * hh
  {
    if rating < 0.0 {
      assert (((-rating) * 0.005) * scale) * hh == -(rating * 0.005 * scale * hh);
    }
  }

  // ---------------------------------------------------------------- the adapter

  ghost predicate Bounded(b: Vec) {
    SumSquares(b) <= B_MAX_NORM * B_MAX_NORM
  }

  /** Said with the norm itself. */
  lemma BoundedIsNormAtMost(b: Vec, sqrt: real -> real)
    requires IsSqrt(sqrt)
    ensures Bounded(b) <==> sqrt(SumSquares(b)) <= B_MAX_NORM
  {
    SumSquaresIsNonNegative(b);
    var norm := sqrt(SumSquares(b));
    if norm <= B_MAX_NORM {
      SquareIsMonotone(norm, B_MAX_NORM);
    } else {
      assert norm * norm > B_MAX_NORM * norm > B_MAX_NORM * B_MAX_NORM;
    }
  }

  lemma {:induction false} ZeroIsBounded(b: Vec)
    requires forall k | 0 <= k < |b| :: b[k] == 0.0
    ensures SumSquares(b) == 0.0
  {
    if b != [] { ZeroIsBounded(b[..|b| - 1]); }
  }

  lemma {:induction false} ZeroDot(a: Vec, h: Vec)
    requires |a| == |h| && forall k | 0 <= k < |a| :: a[k] == 0.0
    ensures Dot(a, h) == 0.0
  {
    if a != [] { ZeroDot(a[..|a| - 1], h[..|h| - 1]); }
  }

  /** An adapter that was never updated leaves every vector as it is. */
  lemma FreshAdapterIsIdentity(a: Vec, b: Vec, v: Vec, scale: real, d: nat, r: nat)
    requires |a| == r * d && |b| == d * r && |v| == d && forall k | 0 <= k < |b| :: b[k] == 0.0
    ensures Adapted(a, b, v, scale, d, r) == v
  {
    var h := Product(a, v, r, d);
    forall i | 0 <= i < d ensures Adapted(a, b, v, scale, d, r)[i] == v[i] {
      RowFits(i, d, r);
      ZeroDot(Row(b, i, d, r), h);
    }
  }

  datatype Feedback = Feedback(query: Vec, item: Vec, rating: real)

  class LoraAdapter {
    const a: Vec
    const b: array<real>
    const dims: nat
    const rank: nat
    const scale: real
    var updateCount: nat

    ghost predicate Valid()
      reads this, b
    {
      |a| == rank * dims && b.Length == dims * rank && Bounded(b[..])
    }

    /** A is any initial projection; B starts at zero. */
    constructor (a: Vec, dims: nat)
      requires |a| == 8 * dims
      ensures Valid() && fresh(b) && updateCount == 0
      ensures this.a == a && this.dims == dims && rank == 8 && scale == 1.0 / 8.0
      ensures forall k | 0 <= k < b.Length :: b[k] == 0.0
    {
      this.a, this.dims, this.rank, this.scale := a, dims, DEFAULT_RANK, DEFAULT_SCALE;
      this.b := new real[dims * DEFAULT_RANK](_ => 0.0);
      updateCount := 0;
      new;
      ZeroIsBounded(b[..]);
    }

    method Apply(v: Vec) returns (w: Vec)
      requires Valid() && |v| == dims
      ensures w == Adapted(a, b[..], v, scale, dims, rank)
    {
      var h := MatVec(a, v, rank, dims);
      var u := MatVec(b[..], h, dims, rank);
      w := AddScaled(v, u, scale);
    }

    /** The update of B before clamping. */
    method Nudge(query: Vec, item: Vec, rating: real)
      requires Valid() && |item| == dims <= |query|
      modifies b
      ensures IsNudged(a, old(b[..]), b[..], query, item, rating, scale, dims, rank)
    {
      var h := MatVec(a, item, rank, dims);
      var u := MatVec(b[..], h, dims, rank);
      var adapted := AddScaled(item, u, scale);
      hide SignedGap, Product, AddScaled, IsOuterAdded, Rate, Bounded, Sign;
      var delta := SignedGap(query, adapted, Sign(rating), dims);
      OuterAdd(b, delta, h, Rate(rating), dims, rank);
    }

    method UpdateWithRating(query: Vec, item: Vec, rating: real, sqrt: real -> real)
      requires Valid() && |item| == dims <= |query| && IsSqrt(sqrt)
      modifies this`updateCount, b
      ensures Valid()
      ensures rating == 0.0 ==> b[..] == old(b[..]) && updateCount == old(updateCount)
      ensures rating != 0.0 ==>
                && updateCount == old(updateCount) + 1
                && exists nudged: Vec ::
                     && IsNudged(a, old(b[..]), nudged, query, item, rating, scale, dims, rank)
                     && b[..] == Clamped(nudged, 10.0, sqrt)
    {
      if rating == 0.0 {
        return;
      }
      hide IsNudged, Clamped, SumSquares, IsSqrt;
      Nudge(query, item, rating);
      ClampBoundsTheNorm(b[..], B_MAX_NORM, sqrt);
      ClampFrobenius(b, B_MAX_NORM, sqrt);
      updateCount := updateCount + 1;
    }

    method UpdateFromAccess(query: Vec, item: Vec, sqrt: real -> real)
      requires Valid() && |item| == dims <= |query| && IsSqrt(sqrt)
      modifies this`updateCount, b
      ensures Valid() && updateCount == old(updateCount) + 1
      ensures exists nudged: Vec ::
                IsNudged(a, old(b[..]), nudged, query, item, 1.0, scale, dims, rank) && b[..] == Clamped(nudged, 10.0, sqrt)
    {
      UpdateWithRating(query, item, 1.0, sqrt);
    }

    /** Any run of ratings keeps B within the norm bound. */
    method Train(feedback: seq<Feedback>, sqrt: real -> real)
      requires Valid() && IsSqrt(sqrt)
      requires forall k | 0 <= k < |feedback| :: |feedback[k].item| == dims <= |feedback[k].query|
      modifies this`updateCount, b
      ensures Valid() && sqrt(SumSquares(b[..])) <= 10.0
    {
      for k := 0 to |feedback|
        invariant Valid()
      {
        UpdateWithRating(feedback[k].query, feedback[k].item, feedback[k].rating, sqrt);
      }
      BoundedIsNormAtMost(b[..], sqrt);
    }
  }
}
