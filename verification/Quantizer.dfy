/** Int8 scalar quantization over the reals: 256 evenly spaced levels between the least and the greatest component. */
module Quantizer {

  /** The distance from 1.0 to the next 32-bit float. */
  const EPSILON: real := 1.0 / 8388608.0

  function Least(v: seq<real>): (m: real)
    requires v != []
    ensures m in v && forall k | 0 <= k < |v| :: m <= v[k]
  {
    if |v| == 1 then v[0]
    else
      var m := Least(v[..|v| - 1]);
      if v[|v| - 1] < m then v[|v| - 1] else m
  }

  function Greatest(v: seq<real>): (m: real)
    requires v != []
    ensures m in v && forall k | 0 <= k < |v| :: v[k] <= m
  {
    if |v| == 1 then v[0]
    else
      var m := Greatest(v[..|v| - 1]);
      if v[|v| - 1] > m then v[|v| - 1] else m
  }

  function Range(v: seq<real>): (r: real)
    requires v != []
    ensures r >= EPSILON && r >= Greatest(v) - Least(v)
  {
    if Greatest(v) - Least(v) > EPSILON then Greatest(v) - Least(v) else EPSILON
  }

  /** Round half away from zero; only used on values that are not negative. */
  function Round(x: real): int {
    if x >= 0.0 then (x + 0.5).Floor else -((0.5 - x).Floor)
  }

  /** Where x lies on the scale from 0 to 255. */
  function Position(x: real, min: real, range: real): real
    requires range > 0.0
  {
    (x - min) * (255.0 / range)
  }

  function Level(x: real, min: real, range: real): (k: int)
    requires range > 0.0
    ensures 0 <= k <= 255
  {
    var k := Round(Position(x, min, range));
    if k < 0 then 0 else if k > 255 then 255 else k
  }

  function Value(k: int, min: real, range: real): real {
    min + (k as real) * (range / 255.0)
  }

  function Quantized(v: seq<real>): (q: seq<real>)
    ensures |q| == |v|
  {
    if v == [] then []
    else seq(|v|, i requires 0 <= i < |v| => Value(Level(v[i], Least(v), Range(v)), Least(v), Range(v)))
  }

  // ---------------------------------------------------------------- positions

  lemma PositionFits(x: real, min: real, range: real)
    requires range > 0.0 && min <= x <= min + range
    ensures 0.0 <= Position(x, min, range) <= 255.0
    ensures min + Position(x, min, range) * (range / 255.0) == x
  {
    var s, i := 255.0 / range, range / 255.0;
    assert range * s == 255.0;
    Scaling(x - min, range, s);
    assert s * i == 1.0 by { Inverse(range); }
    assert ((x - min) * s) * i == (x - min) * (s * i);
  }

  lemma Scaling(a: real, b: real, s: real)
    requires 0.0 <= a <= b && s >= 0.0
    ensures 0.0 <= a * s <= b * s
  {
  }

  lemma Inverse(range: real)
    requires range > 0.0
    ensures (255.0 / range) * (range / 255.0) == 1.0
  {
    var s := 255.0 / range;
    assert s * range == 255.0;
    assert s * (range / 255.0) == (s * range) / 255.0;
  }

  lemma PositionIsMonotone(x: real, y: real, min: real, range: real)
    requires range > 0.0 && x <= y
    ensures Position(x, min, range) <= Position(y, min, range)
  {
    var s := 255.0 / range;
    assert s > 0.0;
    assert (y - min) * s == (x - min) * s + (y - x) * s;
    Scaling(y - x, y - x, s);
  }

  /** A level's own value sits exactly on that level. */
  lemma PositionOfLevel(k: int, min: real, range: real)
    requires range > 0.0
    ensures Position(Value(k, min, range), min, range) == k as real
  {
    var s, i := 255.0 / range, range / 255.0;
    Inverse(range);
    assert ((k as real) * i) * s == (k as real) * (i * s);
  }

  lemma LevelOfLevel(k: int, min: real, range: real)
    requires range > 0.0 && 0 <= k <= 255
    ensures Level(Value(k, min, range), min, range) == k
  {
    PositionOfLevel(k, min, range);
  }

  lemma RoundIsNear(x: real)
    requires x >= 0.0
    ensures -0.5 <= (Round(x) as real) - x <= 0.5
  {
  }

  lemma ValueIsMonotone(j: int, k: int, min: real, range: real)
    requires range > 0.0 && j <= k
    ensures Value(j, min, range) <= Value(k, min, range)
  {
    Scaling((k - j) as real, (k - j) as real, range / 255.0);
    assert (k as real) * (range / 255.0) == (j as real) * (range / 255.0) + ((k - j) as real) * (range / 255.0);
  }

  lemma HalfStep(d: real, range: real)
    requires -0.5 <= d <= 0.5 && range > 0.0
    ensures -(range / 510.0) <= d * (range / 255.0) <= range / 510.0
  {
    var i := range / 255.0;
    Scaling(d + 0.5, 1.0, i);
    assert (d + 0.5) * i == d * i + 0.5 * i;
    assert 0.5 * i == range / 510.0;
  }

  // ---------------------------------------------------------------- the theorems

  /** The nearest level is at most half a step away. */
  lemma LevelIsNear(x: real, min: real, range: real)
    requires range > 0.0 && min <= x <= min + range
    ensures -(range / 510.0) <= Value(Level(x, min, range), min, range) - x <= range / 510.0
  {
    PositionFits(x, min, range);
    var p, k := Position(x, min, range), Level(x, min, range);
    hide Position;
    RoundIsNear(p);
    assert k == Round(p);
    HalfStep((k as real) - p, range);
    DistributeStep(k as real, p, range / 255.0);
  }

  lemma DistributeStep(k: real, p: real, i: real)
    ensures (k - p) * i == k * i - p * i
  {
  }

  /** No component moves by more than a 510th of the range. */
  lemma ErrorIsBounded(v: seq<real>, i: nat)
    requires i < |v|
    ensures -(Range(v) / 510.0) <= Quantized(v)[i] - v[i] <= Range(v) / 510.0
  {
    LevelIsNear(v[i], Least(v), Range(v));
    hide Value, Level, Range, Least;
  }

  /** Said with the greatest and the least component: at most a 510th of their distance, unless that is tiny. */
  lemma ErrorIsBoundedPlainly(v: seq<real>, i: nat, lo: real, hi: real)
    requires i < |v| && lo in v && hi in v && forall k | 0 <= k < |v| :: lo <= v[k] <= hi
    ensures hi - lo >= 1.0 / 8388608.0 ==> -((hi - lo) / 510.0) <= Quantized(v)[i] - v[i] <= (hi - lo) / 510.0
    ensures hi - lo <= 1.0 / 8388608.0 ==> -(1.0 / 8388608.0 / 510.0) <= Quantized(v)[i] - v[i] <= 1.0 / 8388608.0 / 510.0
  {
    ErrorIsBounded(v, i);
    assert Least(v) == lo && Greatest(v) == hi;
    hide Quantized;
  }

  /** Every value lies on one of 256 evenly spaced levels from the least to the greatest component. */
  lemma ValuesAreLevels(v: seq<real>, i: nat, lo: real, hi: real) returns (k: nat)
    requires i < |v| && lo in v && hi in v && forall k | 0 <= k < |v| :: lo <= v[k] <= hi
    requires hi - lo >= 1.0 / 8388608.0
    ensures k <= 255 && Quantized(v)[i] == lo + (k as real) * ((hi - lo) / 255.0)
  {
    k := LevelOf(v, i, lo, hi);
    hide Value, Quantized;
    ValuePlainly(k, lo, hi - lo);
  }

  lemma LevelOf(v: seq<real>, i: nat, lo: real, hi: real) returns (k: nat)
    requires i < |v| && lo in v && hi in v && forall k | 0 <= k < |v| :: lo <= v[k] <= hi
    requires hi - lo >= 1.0 / 8388608.0
    ensures k <= 255 && Quantized(v)[i] == Value(k, lo, hi - lo)
  {
    hide Level, Value;
    k := Level(v[i], Least(v), Range(v));
    assert Least(v) == lo && Greatest(v) == hi;
  }

  lemma ValuePlainly(k: int, min: real, range: real)
    ensures Value(k, min, range) == min + (k as real) * (range / 255.0)
  {
  }

  /** The order of components is kept. */
  lemma OrderIsKept(v: seq<real>, i: nat, j: nat)
    requires i < |v| && j < |v| && v[i] <= v[j]
    ensures Quantized(v)[i] <= Quantized(v)[j]
  {
    var min, range := Least(v), Range(v);
    PositionIsMonotone(v[i], v[j], min, range);
    ValueIsMonotone(Level(v[i], min, range), Level(v[j], min, range), min, range);
  }

  /** The values of the first n levels. */
  function Grid(n: nat, min: real, range: real): set<real> {
    if n == 0 then {} else Grid(n - 1, min, range) + {Value(n - 1, min, range)}
  }

  lemma {:induction false} GridHolds(n: nat, k: nat, min: real, range: real)
    requires k < n
    ensures Value(k, min, range) in Grid(n, min, range)
  {
    if k < n - 1 { GridHolds(n - 1, k, min, range); }
  }

  lemma {:induction false} GridIsSmall(n: nat, min: real, range: real)
    ensures |Grid(n, min, range)| <= n
  {
    if n > 0 { GridIsSmall(n - 1, min, range); }
  }

  /** All values lie on a grid of at most 256. */
  lemma FewDistinctValues(v: seq<real>)
    requires v != []
    ensures |Grid(256, Least(v), Range(v))| <= 256
    ensures forall i | 0 <= i < |v| :: Quantized(v)[i] in Grid(256, Least(v), Range(v))
  {
    var min, range := Least(v), Range(v);
    forall i | 0 <= i < |v| ensures Quantized(v)[i] in Grid(256, min, range) {
      GridHolds(256, Level(v[i], min, range), min, range);
    }
    GridIsSmall(256, min, range);
  }

  lemma LeastStays(v: seq<real>)
    requires v != []
    ensures Least(Quantized(v)) == Least(v)
  {
    hide Value, Level, Position;
    var q, min, range := Quantized(v), Least(v), Range(v);
    BottomLevel(min, range);
    forall i | 0 <= i < |v| ensures min <= q[i] {
      ValueIsMonotone(0, Level(v[i], min, range), min, range);
    }
    var i :| 0 <= i < |v| && v[i] == min;
    assert q[i] == min;
  }

  /** The bottom of the scale is the bottom level. */
  lemma BottomLevel(min: real, range: real)
    requires range > 0.0
    ensures Value(0, min, range) == min
    ensures Level(min, min, range) == 0
  {
    assert Position(min, min, range) == 0.0;
  }

  /** The top of the scale is the top level. */
  lemma TopLevel(min: real, range: real)
    requires range > 0.0
    ensures Value(255, min, range) == min + range
    ensures Level(min + range, min, range) == 255
  {
    assert range * (255.0 / range) == 255.0;
  }

  lemma RangeStays(v: seq<real>)
    requires v != []
    ensures Range(Quantized(v)) == Range(v)
  {
    LeastStays(v);
    var q, min, range := Quantized(v), Least(v), Range(v);
    TopLevel(min, range);
    forall i | 0 <= i < |v| ensures q[i] <= min + range {
      ValueIsMonotone(Level(v[i], min, range), 255, min, range);
      hide Value, Level;
    }
    if range > EPSILON {
      var i :| 0 <= i < |v| && v[i] == Greatest(v);
      assert q[i] == min + range by { hide Value, Level; }
    }
    hide Value, Level, Quantized;
  }

  /** Quantizing twice is the same as quantizing once. */
  lemma QuantizingTwice(v: seq<real>)
    ensures Quantized(Quantized(v)) == Quantized(v)
  {
    if v != [] {
      LeastStays(v);
      RangeStays(v);
      forall i | 0 <= i < |v| ensures Quantized(Quantized(v))[i] == Quantized(v)[i] {
        LevelOfLevel(Level(v[i], Least(v), Range(v)), Least(v), Range(v));
      }
    }
  }
}
