/** Column layout of the rows boosted tree training works on: the extra
    columns it appends (prediction, loss gradient, loss curvature, example
    weight, then the split indices), the reads that view them, and the
    routines that zero them in place. */
module BoostedTreeUtils {
  /** The extra columns, in the order their offsets are stored. */
  datatype ExtraColumn = Prediction | Gradient | Curvature | Weight | BeginSplits

  function ColumnIndex(c: ExtraColumn): nat {
    match c
      case Prediction => 0
      case Gradient => 1
      case Curvature => 2
      case Weight => 3
      case BeginSplits => 4
  }

  datatype Hyperparameter =
    | DownsampleFactor | Alpha | Lambda | Gamma | SoftTreeDepthLimit
    | SoftTreeDepthTolerance | Eta | EtaGrowthRatePerTree | MaximumNumberTrees
    | FeatureBagFraction

  function Ordinal(h: Hyperparameter): nat {
    match h
      case DownsampleFactor => 0
      case Alpha => 1
      case Lambda => 2
      case Gamma => 3
      case SoftTreeDepthLimit => 4
      case SoftTreeDepthTolerance => 5
      case Eta => 6
      case EtaGrowthRatePerTree => 7
      case MaximumNumberTrees => 8
      case FeatureBagFraction => 9
  }

  /** One more than the last hyperparameter. */
  const NUMBER_HYPERPARAMETERS: nat := Ordinal(FeatureBagFraction) + 1

  const ALL_HYPERPARAMETERS: seq<Hyperparameter> :=
    [DownsampleFactor, Alpha, Lambda, Gamma, SoftTreeDepthLimit, SoftTreeDepthTolerance,
     Eta, EtaGrowthRatePerTree, MaximumNumberTrees, FeatureBagFraction]

  /** The count is ten, and the ordinals number the hyperparameters
      0 .. count - 1 without gaps or repeats. */
  lemma HyperparameterCount()
    ensures NUMBER_HYPERPARAMETERS == 10 == |ALL_HYPERPARAMETERS|
    ensures forall h :: Ordinal(h) < NUMBER_HYPERPARAMETERS
    ensures forall h, k :: Ordinal(h) == Ordinal(k) ==> h == k
    ensures forall i :: 0 <= i < |ALL_HYPERPARAMETERS| ==> Ordinal(ALL_HYPERPARAMETERS[i]) == i
  {
  }

  /** The split index used for missing values: past every candidate split's
      interval 0 .. |splits|. */
  function MissingSplit(candidateSplits: seq<real>): (r: nat)
    ensures r > |candidateSplits|
  {
    |candidateSplits| + 1
  }

  /** C++ unsigned division, which truncates. */
  function TriangleSize(n: nat): nat {
    n * (n + 1) / 2
  }

  /** Independent definition: 1 + 2 + ... + n. */
  function TriangleSum(n: nat): nat {
    if n == 0 then 0 else n + TriangleSum(n - 1)
  }

  /** The division is exact, and the size is the number of entries on and
      above the diagonal of an n by n matrix. */
  lemma {:induction false} TriangleSizeIsSum(n: nat)
    ensures TriangleSize(n) * 2 == n * (n + 1)
    ensures TriangleSize(n) == TriangleSum(n)
  {
    if n > 0 {
      TriangleSizeIsSum(n - 1);
      assert n * (n + 1) == (n - 1) * n + 2 * n;
    }
  }

  /** The curvature read never runs past the n * n columns allocated. */
  lemma {:induction false} TriangleFitsSquare(n: nat)
    ensures TriangleSize(n) <= n * n
  {
    TriangleSizeIsSum(n);
    if n > 0 {
      TriangleFitsSquare(n - 1);
      assert n * n == (n - 1) * (n - 1) + 2 * n - 1;
    }
  }

  datatype Alignment = Unaligned | Aligned16

  /** The columns training asks the data frame for, in ExtraColumn order. */
  function ExtraColumns(n: nat): seq<(nat, Alignment)> {
    [(n, Unaligned), (n, Aligned16), (n * n, Unaligned), (1, Unaligned)]
  }

  /** One request per column before the splits; only the gradient is
      aligned, and the curvature gets the full square. */
  lemma ExtraColumnsShape(n: nat)
    ensures |ExtraColumns(n)| == ColumnIndex(BeginSplits)
    ensures ExtraColumns(n)[ColumnIndex(Prediction)].0 == n
    ensures ExtraColumns(n)[ColumnIndex(Gradient)] == (n, Aligned16)
    ensures ExtraColumns(n)[ColumnIndex(Curvature)].0 == n * n
    ensures ExtraColumns(n)[ColumnIndex(Weight)].0 == 1
    ensures forall i :: 0 <= i < |ExtraColumns(n)| && i != ColumnIndex(Gradient) ==> ExtraColumns(n)[i].1 == Unaligned
  {
  }

  // ---------------------------------------------------------------------
  // Views of a row; offsets holds the start of each extra column.

  predicate HasOffsets(offsets: seq<nat>) {
    |offsets| > ColumnIndex(BeginSplits)
  }

  function Offset(offsets: seq<nat>, c: ExtraColumn): nat
    requires HasOffsets(offsets)
  {
    offsets[ColumnIndex(c)]
  }

  function ReadPrediction(row: seq<real>, offsets: seq<nat>, n: nat): (r: seq<real>)
    requires HasOffsets(offsets) && Offset(offsets, Prediction) + n <= |row|
    ensures |r| == n && forall i :: 0 <= i < n ==> r[i] == row[Offset(offsets, Prediction) + i]
  {
    row[Offset(offsets, Prediction)..Offset(offsets, Prediction) + n]
  }

  /** The gradient and the curvature's upper triangle, read together. */
  function ReadLossDerivatives(row: seq<real>, offsets: seq<nat>, n: nat): (r: seq<real>)
    requires HasOffsets(offsets) && Offset(offsets, Gradient) + n + TriangleSize(n) <= |row|
    ensures |r| == n + TriangleSize(n)
    ensures forall i :: 0 <= i < |r| ==> r[i] == row[Offset(offsets, Gradient) + i]
  {
    row[Offset(offsets, Gradient)..Offset(offsets, Gradient) + n + TriangleSize(n)]
  }

  function ReadLossCurvature(row: seq<real>, offsets: seq<nat>, n: nat): (r: seq<real>)
    requires HasOffsets(offsets) && Offset(offsets, Curvature) + TriangleSize(n) <= |row|
    ensures |r| == TriangleSize(n)
    ensures forall i :: 0 <= i < |r| ==> r[i] == row[Offset(offsets, Curvature) + i]
  {
    row[Offset(offsets, Curvature)..Offset(offsets, Curvature) + TriangleSize(n)]
  }

  function ReadExampleWeight(row: seq<real>, offsets: seq<nat>): real
    requires HasOffsets(offsets) && Offset(offsets, Weight) < |row|
  {
    row[Offset(offsets, Weight)]
  }

  function ReadActual(row: seq<real>, dependentVariable: nat): real
    requires dependentVariable < |row|
  {
    row[dependentVariable]
  }

  /** When the curvature columns follow the gradient columns, the combined
      derivative read ends inside the curvature's allocation and its tail
      is the curvature read. */
  lemma DerivativesCoverCurvature(row: seq<real>, offsets: seq<nat>, n: nat)
    requires HasOffsets(offsets)
    requires Offset(offsets, Curvature) == Offset(offsets, Gradient) + n
    requires Offset(offsets, Curvature) + n * n <= |row|
    ensures Offset(offsets, Gradient) + n + TriangleSize(n) <= Offset(offsets, Curvature) + n * n
    ensures ReadLossDerivatives(row, offsets, n)[n..] == ReadLossCurvature(row, offsets, n)
    ensures ReadLossDerivatives(row, offsets, n)[..n] ==
      row[Offset(offsets, Gradient)..Offset(offsets, Gradient) + n]
  {
    TriangleFitsSquare(n);
  }

  // ---------------------------------------------------------------------
  // Writing in place.

  function Zeros(n: nat): (r: seq<real>)
    ensures |r| == n && forall i :: 0 <= i < n ==> r[i] == 0.0
  {
    seq(n, _ => 0.0)
  }

  /** The row with len columns from start set to zero. */
  function ZeroRange(s: seq<real>, start: nat, len: nat): (r: seq<real>)
    requires start + len <= |s|
    ensures |r| == |s|
    ensures r[start..start + len] == Zeros(len)
    ensures r[..start] == s[..start] && r[start + len..] == s[start + len..]
  {
    s[..start] + Zeros(len) + s[start + len..]
  }

  /** Zeroing is idempotent, and zeroing disjoint ranges commutes. */
  lemma ZeroRangeIdempotent(s: seq<real>, start: nat, len: nat)
    requires start + len <= |s|
    ensures ZeroRange(ZeroRange(s, start, len), start, len) == ZeroRange(s, start, len)
  {
    var z := ZeroRange(s, start, len);
    assert ZeroRange(z, start, len) == z[..start] + z[start..start + len] + z[start + len..];
    assert z == z[..start] + z[start..start + len] + z[start + len..];
  }

  lemma ZeroRangeCommutes(s: seq<real>, a: nat, m: nat, b: nat, n: nat)
    requires a + m <= b && b + n <= |s|
    ensures ZeroRange(ZeroRange(s, a, m), b, n) == ZeroRange(ZeroRange(s, b, n), a, m)
  {
    var x := ZeroRange(ZeroRange(s, a, m), b, n);
    var y := ZeroRange(ZeroRange(s, b, n), a, m);
    forall i | 0 <= i < |s| ensures x[i] == y[i] {
      if i < a {
        assert x[i] == x[..b][i] && ZeroRange(s, a, m)[i] == ZeroRange(s, a, m)[..a][i];
        assert y[i] == y[..a][i] && ZeroRange(s, b, n)[i] == ZeroRange(s, b, n)[..b][i];
      } else if i < a + m {
        assert x[i] == x[..b][i] && ZeroRange(s, a, m)[i] == ZeroRange(s, a, m)[a..a + m][i - a];
        assert y[i] == y[a..a + m][i - a];
      } else if i < b {
        assert x[i] == x[..b][i] && ZeroRange(s, a, m)[i] == ZeroRange(s, a, m)[a + m..][i - a - m];
        assert y[i] == y[a + m..][i - a - m] && ZeroRange(s, b, n)[i] == ZeroRange(s, b, n)[..b][i];
      } else if i < b + n {
        assert x[i] == x[b..b + n][i - b];
        assert y[i] == y[a + m..][i - a - m] && ZeroRange(s, b, n)[i] == ZeroRange(s, b, n)[b..b + n][i - b];
      } else {
        assert x[i] == x[b + n..][i - b - n] && ZeroRange(s, a, m)[i] == ZeroRange(s, a, m)[a + m..][i - a - m];
        assert y[i] == y[a + m..][i - a - m] && ZeroRange(s, b, n)[i] == ZeroRange(s, b, n)[b + n..][i - b - n];
      }
    }
  }

  /** The loop shared by the three zeroing routines. */
  method ZeroColumns(row: array<real>, start: nat, len: nat)
    requires start + len <= row.Length
    modifies row
    ensures row[..] == ZeroRange(old(row[..]), start, len)
  {
    ghost var s := row[..];
    for i := 0 to len
      invariant row[..] == ZeroRange(s, start, i)
    {
      ZeroRangeStep(s, start, i);
      row[start + i] := 0.0;
    }
  }

  lemma ZeroRangeStep(s: seq<real>, start: nat, i: nat)
    requires start + i < |s|
    ensures ZeroRange(s, start, i + 1) == ZeroRange(s, start, i)[start + i := 0.0]
  {
    var x := ZeroRange(s, start, i + 1);
    var y := ZeroRange(s, start, i)[start + i := 0.0];
    forall k | 0 <= k < |s| ensures x[k] == y[k] {
      if k < start {
        assert x[k] == x[..start][k] && y[k] == ZeroRange(s, start, i)[..start][k];
      } else if k < start + i {
        assert x[k] == x[start..start + i + 1][k - start];
        assert y[k] == ZeroRange(s, start, i)[start..start + i][k - start];
      } else if k == start + i {
        assert x[k] == x[start..start + i + 1][k - start];
      } else {
        assert x[k] == x[start + i + 1..][k - start - i - 1];
        assert y[k] == ZeroRange(s, start, i)[start + i..][k - start - i];
      }
    }
  }

  method ZeroPrediction(row: array<real>, offsets: seq<nat>, n: nat)
    requires HasOffsets(offsets) && Offset(offsets, Prediction) + n <= row.Length
    modifies row
    ensures row[..] == ZeroRange(old(row[..]), Offset(offsets, Prediction), n)
  {
    ZeroColumns(row, offsets[ColumnIndex(Prediction)], n);
  }

  method ZeroLossGradient(row: array<real>, offsets: seq<nat>, n: nat)
    requires HasOffsets(offsets) && Offset(offsets, Gradient) + n <= row.Length
    modifies row
    ensures row[..] == ZeroRange(old(row[..]), Offset(offsets, Gradient), n)
  {
    ZeroColumns(row, offsets[ColumnIndex(Gradient)], n);
  }

  method ZeroLossCurvature(row: array<real>, offsets: seq<nat>, n: nat)
    requires HasOffsets(offsets) && Offset(offsets, Curvature) + TriangleSize(n) <= row.Length
    modifies row
    ensures row[..] == ZeroRange(old(row[..]), Offset(offsets, Curvature), TriangleSize(n))
  {
    var size := n * (n + 1) / 2;
    ZeroColumns(row, offsets[ColumnIndex(Curvature)], size);
  }

  method WriteExampleWeight(row: array<real>, offsets: seq<nat>, weight: real)
    requires HasOffsets(offsets) && Offset(offsets, Weight) < row.Length
    modifies row
    ensures row[..] == old(row[..])[Offset(offsets, Weight) := weight]
  {
    row[offsets[ColumnIndex(Weight)]] := weight;
  }

  /** After zeroing, each view reads back zeros. */
  lemma ZeroedReadsZero(row: seq<real>, offsets: seq<nat>, n: nat)
    requires HasOffsets(offsets)
    requires Offset(offsets, Prediction) + n <= |row|
    requires Offset(offsets, Curvature) + TriangleSize(n) <= |row|
    ensures ReadPrediction(ZeroRange(row, Offset(offsets, Prediction), n), offsets, n) == Zeros(n)
    ensures ReadLossCurvature(ZeroRange(row, Offset(offsets, Curvature), TriangleSize(n)), offsets, n) ==
      Zeros(TriangleSize(n))
  {
  }

  /** The weight reads back what was written, and a write to the weight
      leaves the other views alone when their columns do not overlap it. */
  lemma WeightRoundTrip(row: seq<real>, offsets: seq<nat>, n: nat, weight: real)
    requires HasOffsets(offsets) && Offset(offsets, Weight) < |row|
    requires Offset(offsets, Prediction) + n <= Offset(offsets, Weight)
    ensures ReadExampleWeight(row[Offset(offsets, Weight) := weight], offsets) == weight
    ensures ReadPrediction(row[Offset(offsets, Weight) := weight], offsets, n) == ReadPrediction(row, offsets, n)
  {
  }
}
