/** Quality metrics over exact arithmetic (`preprocess_image`'s size rule,
    `extract_quality_metrics`, `calculate_structural_similarity` and the Sobel part
    of `calculate_edge_preservation`). Pixels are `real`; the gradient magnitude
    (`np.sqrt`) and the Pearson correlation (`np.corrcoef`) are function
    parameters. */
module ImageProcessing {
  import opened Grid

  // ---------------------------------------------------------------- size rule

  /** `preprocess_image`'s target size for an image of `width` by `height`: unchanged
      when the longer side is at most `maxSize`, otherwise both sides scaled by
      `maxSize / longest` and truncated. */
  function ResizeTarget(width: nat, height: nat, maxSize: nat): (size: (nat, nat))
  {
    var longest := if width >= height then width else height;
    if longest > maxSize then (Scaled(width, maxSize, longest), Scaled(height, maxSize, longest))
    else (width, height)
  }

  /** `int(dim * maxSize / longest)` for the non-negative operands of the resize. */
  function Scaled(dim: nat, maxSize: nat, longest: nat): nat
    requires longest > 0
  {
    NatProduct(dim, maxSize);
    dim * maxSize / longest
  }

  lemma NatProduct(a: nat, b: nat)
    ensures a * b >= 0
  {
  }

  /** An image whose longer side is at most `maxSize` keeps its size. */
  lemma ResizeKeepsSmall(width: nat, height: nat, maxSize: nat)
    requires width <= maxSize && height <= maxSize
    ensures ResizeTarget(width, height, maxSize) == (width, height)
  {
  }

  /** Dividing by a positive factor on both sides keeps a non-strict order. */
  lemma LeOfMulLe(a: int, b: int, c: int)
    requires c > 0 && a * c <= b * c
    ensures a <= b
  {
    if a > b {
      MulStrict(a - b, c);
      assert false;
    }
  }

  lemma MulStrict(a: int, c: int)
    requires a > 0 && c > 0
    ensures a * c > 0
  {
  }

  lemma MulMono(a: int, b: int, c: int)
    requires a <= b && c >= 0
    ensures a * c <= b * c
  {
    assert b * c - a * c == (b - a) * c;
  }

  /** Euclidean division of a non-negative number by a positive one. */
  lemma DivBounds(x: nat, d: nat)
    requires d > 0
    ensures (x / d) * d <= x < (x / d) * d + d
  {
  }

  /** A scaled side is `dim * maxSize / longest` rounded down, is at most `maxSize`
      and at most `dim`, and is exactly `maxSize` for the longer side itself. */
  lemma ScaledSide(dim: nat, longest: nat, maxSize: nat)
    requires dim <= longest && longest > maxSize
    ensures var s := Scaled(dim, maxSize, longest);
      s * longest <= dim * maxSize < (s + 1) * longest && s <= maxSize && s <= dim &&
      (dim == longest ==> s == maxSize)
  {
    var s, x := Scaled(dim, maxSize, longest), dim * maxSize;
    NatProduct(dim, maxSize);
    DivBounds(x, longest);
    assert s * longest <= x < s * longest + longest;
    assert (s + 1) * longest == s * longest + longest;
    MulMono(dim, longest, maxSize);
    assert maxSize * longest == longest * maxSize;
    LeOfMulLe(s, maxSize, longest);
    MulMono(maxSize, longest, dim);
    assert dim * longest == longest * dim;
    LeOfMulLe(s, dim, longest);
    if dim == longest {
      assert (maxSize + 1) * longest == maxSize * longest + longest;
      LeOfMulLe(maxSize + 1, s + 1, longest);
    }
  }

  /** An oversized image is scaled so that both sides are at most `maxSize`, the
      longer side becomes exactly `maxSize`, neither side grows, and each side is the
      exact proportional size rounded down. */
  lemma ResizeShrinks(width: nat, height: nat, maxSize: nat)
    requires width > maxSize || height > maxSize
    ensures var longest := if width >= height then width else height;
      var size := ResizeTarget(width, height, maxSize);
      size.0 <= maxSize && size.1 <= maxSize && size.0 <= width && size.1 <= height &&
      size.0 * longest <= width * maxSize < (size.0 + 1) * longest &&
      size.1 * longest <= height * maxSize < (size.1 + 1) * longest &&
      (if width >= height then size.0 else size.1) == maxSize
  {
    var longest := if width >= height then width else height;
    ScaledSide(width, longest, maxSize);
    ScaledSide(height, longest, maxSize);
  }

  // ---------------------------------------------------------------- statistics

  function Sum(v: seq<real>): real
  {
    if v == [] then 0.0 else Sum(v[..|v| - 1]) + v[|v| - 1]
  }

  /** `np.mean` of a non-empty array. */
  function Mean(v: seq<real>): real
    requires |v| > 0
  {
    Sum(v) / |v| as real
  }

  /** Elementwise product of the deviations of `u` and `v` from their means. */
  function DeviationProducts(u: seq<real>, v: seq<real>): (d: seq<real>)
    requires |u| == |v| > 0
    ensures |d| == |u|
  {
    var mu1, mu2 := Mean(u), Mean(v);
    seq(|u|, i requires 0 <= i < |u| => (u[i] - mu1) * (v[i] - mu2))
  }

  /** `np.var`: the population variance. */
  function Variance(v: seq<real>): real
    requires |v| > 0
  {
    var mu := Mean(v);
    Mean(seq(|v|, i requires 0 <= i < |v| => (v[i] - mu) * (v[i] - mu)))
  }

  /** `np.mean((u - mu1) * (v - mu2))`: the population covariance. */
  function Covariance(u: seq<real>, v: seq<real>): real
    requires |u| == |v| > 0
  {
    Mean(DeviationProducts(u, v))
  }

  /** A sum of non-negative terms is non-negative, and zero exactly when every term is. */
  lemma {:induction false} SumNonnegative(v: seq<real>)
    requires forall i :: 0 <= i < |v| ==> v[i] >= 0.0
    ensures Sum(v) >= 0.0
    ensures Sum(v) == 0.0 <==> forall i :: 0 <= i < |v| ==> v[i] == 0.0
  {
    if v != [] {
      var init := v[..|v| - 1];
      SumNonnegative(init);
      if Sum(v) == 0.0 {
        forall i | 0 <= i < |v| ensures v[i] == 0.0 {
          if i < |v| - 1 { assert v[i] == init[i]; }
        }
      }
      if forall i :: 0 <= i < |v| ==> v[i] == 0.0 {
        assert forall i :: 0 <= i < |init| ==> init[i] == 0.0;
      }
    }
  }

  /** Variances are never negative. */
  lemma VarianceNonnegative(v: seq<real>)
    requires |v| > 0
    ensures Variance(v) >= 0.0
  {
    var mu := Mean(v);
    var sq := seq(|v|, i requires 0 <= i < |v| => (v[i] - mu) * (v[i] - mu));
    SumNonnegative(sq);
  }

  /** The covariance of an array with itself is its variance. */
  lemma CovarianceSelf(v: seq<real>)
    requires |v| > 0
    ensures Covariance(v, v) == Variance(v)
  {
    var mu := Mean(v);
    assert DeviationProducts(v, v) == seq(|v|, i requires 0 <= i < |v| => (v[i] - mu) * (v[i] - mu));
  }

  /** Covariance does not depend on the order of its arguments. */
  lemma CovarianceSymmetric(u: seq<real>, v: seq<real>)
    requires |u| == |v| > 0
    ensures Covariance(u, v) == Covariance(v, u)
  {
    var d1, d2 := DeviationProducts(u, v), DeviationProducts(v, u);
    forall i | 0 <= i < |u| ensures d1[i] == d2[i] {
      var a, b := u[i] - Mean(u), v[i] - Mean(v);
      assert d1[i] == a * b && d2[i] == b * a;
    }
    assert d1 == d2;
  }

  // ---------------------------------------------------------------- MSE

  /** Squared differences of two arrays of the same length. */
  function SquaredErrors(x: seq<real>, y: seq<real>): (d: seq<real>)
    requires |x| == |y|
    ensures |d| == |x|
  {
    seq(|x|, i requires 0 <= i < |x| => (x[i] - y[i]) * (x[i] - y[i]))
  }

  /** `np.mean((reconstruction - reference) ** 2)` over two images of shape `(h, w)`. */
  function MeanSquaredError(a: seq<seq<real>>, b: seq<seq<real>>, h: nat, w: nat): real
    requires IsGrid(a, h, w) && IsGrid(b, h, w) && h > 0 && w > 0
  {
    FlattenLength(a, h, w);
    FlattenLength(b, h, w);
    Mean(SquaredErrors(Flatten(a), Flatten(b)))
  }

  /** Squared errors are non-negative, do not depend on the order of the arrays, and
      are all zero exactly when the arrays are equal. */
  lemma SquaredErrorsProperties(x: seq<real>, y: seq<real>)
    requires |x| == |y|
    ensures forall i :: 0 <= i < |x| ==> SquaredErrors(x, y)[i] >= 0.0
    ensures SquaredErrors(x, y) == SquaredErrors(y, x)
    ensures (forall i :: 0 <= i < |x| ==> SquaredErrors(x, y)[i] == 0.0) <==> x == y
  {
    var d := SquaredErrors(x, y);
    forall i | 0 <= i < |x| ensures d[i] == SquaredErrors(y, x)[i] && d[i] >= 0.0 {
      var e := x[i] - y[i];
      assert d[i] == e * e;
      assert e * e == (-e) * (-e);
      NonnegativeSquare(e);
    }
    if forall i :: 0 <= i < |x| ==> d[i] == 0.0 {
      forall i | 0 <= i < |x| ensures x[i] == y[i] {
        var e := x[i] - y[i];
        assert e * e == d[i] == 0.0;
        ZeroProduct(e, e);
      }
    }
  }

  /** A mean is zero exactly when the sum is, and has the sum's sign. */
  lemma MeanSign(v: seq<real>)
    requires |v| > 0
    ensures Mean(v) >= 0.0 <==> Sum(v) >= 0.0
    ensures Mean(v) == 0.0 <==> Sum(v) == 0.0
  {
  }

  /** The mean squared error is non-negative, symmetric, and zero exactly when the two
      images are equal. */
  lemma MeanSquaredErrorProperties(a: seq<seq<real>>, b: seq<seq<real>>, h: nat, w: nat)
    requires IsGrid(a, h, w) && IsGrid(b, h, w) && h > 0 && w > 0
    ensures MeanSquaredError(a, b, h, w) >= 0.0
    ensures MeanSquaredError(a, b, h, w) == MeanSquaredError(b, a, h, w)
    ensures MeanSquaredError(a, b, h, w) == 0.0 <==> a == b
  {
    FlattenLength(a, h, w);
    FlattenLength(b, h, w);
    var x, y := Flatten(a), Flatten(b);
    SquaredErrorsProperties(x, y);
    var d := SquaredErrors(x, y);
    SumNonnegative(d);
    MeanSign(d);
    FlattenInjective(a, b, h, w);
  }

  lemma ZeroProduct(p: real, q: real)
    requires p * q == 0.0
    ensures p == 0.0 || q == 0.0
  {
  }

  lemma NonnegativeSquare(e: real)
    ensures e * e >= 0.0
  {
  }

  // ---------------------------------------------------------------- SSIM

  const K1: real := 0.01
  const K2: real := 0.03
  /** Dynamic range of the pixel values. */
  const L: real := 255.0
  const C1: real := (K1 * L) * (K1 * L)
  const C2: real := (K2 * L) * (K2 * L)

  /** The SSIM denominator is strictly positive whenever the variances are not
      negative, because `C1` and `C2` are positive. */
  lemma SsimDenominatorPositive(mu1: real, mu2: real, var1: real, var2: real)
    requires var1 >= 0.0 && var2 >= 0.0
    ensures C1 > 0.0 && C2 > 0.0
    ensures (mu1 * mu1 + mu2 * mu2 + C1) * (var1 + var2 + C2) > 0.0
  {
    var p, q := mu1 * mu1 + mu2 * mu2 + C1, var1 + var2 + C2;
    assert mu1 * mu1 >= 0.0 && mu2 * mu2 >= 0.0;
    assert p > 0.0 && q > 0.0;
    PositiveProduct(p, q);
  }

  lemma PositiveProduct(p: real, q: real)
    requires p > 0.0 && q > 0.0
    ensures p * q > 0.0
  {
  }

  /** The SSIM formula over the means, variances and covariance of two arrays. */
  function SsimFormula(mu1: real, mu2: real, var1: real, var2: real, cov: real): real
    requires var1 >= 0.0 && var2 >= 0.0
  {
    SsimDenominatorPositive(mu1, mu2, var1, var2);
    ((2.0 * mu1 * mu2 + C1) * (2.0 * cov + C2)) / ((mu1 * mu1 + mu2 * mu2 + C1) * (var1 + var2 + C2))
  }

  /** `calculate_structural_similarity`: the global (single-window) SSIM of two arrays. */
  function Ssim(x: seq<real>, y: seq<real>): real
    requires |x| == |y| > 0
  {
    VarianceNonnegative(x);
    VarianceNonnegative(y);
    SsimFormula(Mean(x), Mean(y), Variance(x), Variance(y), Covariance(x, y))
  }

  /** With equal means, equal variances and a covariance equal to the variance the
      formula is exactly 1. */
  lemma SsimFormulaSelf(mu: real, v: real)
    requires v >= 0.0
    ensures SsimFormula(mu, mu, v, v, v) == 1.0
  {
    SsimDenominatorPositive(mu, mu, v, v);
    var num := (2.0 * mu * mu + C1) * (2.0 * v + C2);
    var den := (mu * mu + mu * mu + C1) * (v + v + C2);
    assert num == den;
    assert SsimFormula(mu, mu, v, v, v) == num / den;
    DivSelf(num, den);
  }

  lemma DivSelf(n: real, d: real)
    requires d > 0.0 && n == d
    ensures n / d == 1.0
  {
  }

  /** Swapping the two arrays' statistics leaves the formula unchanged. */
  lemma SsimFormulaSymmetric(mu1: real, mu2: real, var1: real, var2: real, cov: real)
    requires var1 >= 0.0 && var2 >= 0.0
    ensures SsimFormula(mu1, mu2, var1, var2, cov) == SsimFormula(mu2, mu1, var2, var1, cov)
  {
    assert 2.0 * mu1 * mu2 == 2.0 * mu2 * mu1;
    assert mu1 * mu1 + mu2 * mu2 + C1 == mu2 * mu2 + mu1 * mu1 + C1;
    assert var1 + var2 + C2 == var2 + var1 + C2;
  }

  /** An array is perfectly similar to itself. */
  lemma SsimSelf(x: seq<real>)
    requires |x| > 0
    ensures Ssim(x, x) == 1.0
  {
    CovarianceSelf(x);
    VarianceNonnegative(x);
    SsimFormulaSelf(Mean(x), Variance(x));
  }

  /** SSIM does not depend on the order of its arguments. */
  lemma SsimSymmetric(x: seq<real>, y: seq<real>)
    requires |x| == |y| > 0
    ensures Ssim(x, y) == Ssim(y, x)
  {
    CovarianceSymmetric(x, y);
    VarianceNonnegative(x);
    VarianceNonnegative(y);
    SsimFormulaSymmetric(Mean(x), Mean(y), Variance(x), Variance(y), Covariance(x, y));
  }

  /** SSIM of two images of shape `(h, w)`, over all their pixels. */
  function StructuralSimilarity(a: seq<seq<real>>, b: seq<seq<real>>, h: nat, w: nat): real
    requires IsGrid(a, h, w) && IsGrid(b, h, w) && h > 0 && w > 0
  {
    FlattenLength(a, h, w);
    FlattenLength(b, h, w);
    Ssim(Flatten(a), Flatten(b))
  }

  // ---------------------------------------------------------------- Sobel

  /** A three-tap correlation kernel. */
  datatype Kernel = Kernel(left: real, mid: real, right: real)

  /** `[-1, 0, 1]` along the differentiated axis. */
  const Derivative: Kernel := Kernel(-1.0, 0.0, 1.0)
  /** `[1, 2, 1]` across it. */
  const Smoothing: Kernel := Kernel(1.0, 2.0, 1.0)

  /** scipy's `reflect` boundary for a three-tap filter: index -1 reads 0, index `n`
      reads `n - 1`. */
  function Reflect(i: int, n: nat): (k: nat)
    requires n > 0 && -1 <= i <= n
    ensures k < n
    ensures 0 <= i < n ==> k == i
    ensures i == -1 ==> k == 0
    ensures i == n ==> k == n - 1
  {
    if i < 0 then 0 else if i == n then n - 1 else i
  }

  /** `correlate1d(g, k, axis=0, mode='reflect')`. */
  function CorrelateRows(g: seq<seq<real>>, h: nat, w: nat, k: Kernel): (out: seq<seq<real>>)
    requires IsGrid(g, h, w)
    ensures IsGrid(out, h, w)
  {
    seq(h, r requires 0 <= r < h => seq(w, c requires 0 <= c < w =>
      k.left * g[Reflect(r - 1, h)][c] + k.mid * g[r][c] + k.right * g[Reflect(r + 1, h)][c]))
  }

  /** `correlate1d(g, k, axis=1, mode='reflect')`. */
  function CorrelateCols(g: seq<seq<real>>, h: nat, w: nat, k: Kernel): (out: seq<seq<real>>)
    requires IsGrid(g, h, w)
    ensures IsGrid(out, h, w)
  {
    seq(h, r requires 0 <= r < h => seq(w, c requires 0 <= c < w =>
      k.left * g[r][Reflect(c - 1, w)] + k.mid * g[r][c] + k.right * g[r][Reflect(c + 1, w)]))
  }

  /** `ndimage.sobel(g, axis, mode='reflect')`: the derivative kernel along `axis`,
      then the smoothing kernel along the other axis. */
  function Sobel(g: seq<seq<real>>, h: nat, w: nat, axis: nat): (out: seq<seq<real>>)
    requires IsGrid(g, h, w) && axis < 2
    ensures IsGrid(out, h, w)
  {
    if axis == 0 then CorrelateCols(CorrelateRows(g, h, w, Derivative), h, w, Smoothing)
    else CorrelateRows(CorrelateCols(g, h, w, Derivative), h, w, Smoothing)
  }

  /** Every pixel plus `a`. */
  function Brighten(g: seq<seq<real>>, h: nat, w: nat, a: real): (out: seq<seq<real>>)
    requires IsGrid(g, h, w)
    ensures IsGrid(out, h, w)
  {
    seq(h, r requires 0 <= r < h => seq(w, c requires 0 <= c < w => g[r][c] + a))
  }

  /** The image of shape `(h, w)` whose pixels all equal `v`. */
  function Constant(h: nat, w: nat, v: real): (g: seq<seq<real>>)
    ensures IsGrid(g, h, w)
  {
    seq(h, _ => seq(w, _ => v))
  }

  /** The derivative kernel sums to zero, so adding a constant to every pixel leaves
      both Sobel responses unchanged, borders included. */
  lemma SobelShiftInvariant(g: seq<seq<real>>, h: nat, w: nat, a: real, axis: nat)
    requires IsGrid(g, h, w) && axis < 2
    ensures Sobel(Brighten(g, h, w, a), h, w, axis) == Sobel(g, h, w, axis)
  {
    var b := Brighten(g, h, w, a);
    if axis == 0 {
      var d1, d2 := CorrelateRows(b, h, w, Derivative), CorrelateRows(g, h, w, Derivative);
      forall r | 0 <= r < h ensures d1[r] == d2[r] {
        forall c | 0 <= c < w ensures d1[r][c] == d2[r][c] {
          var up, down := Reflect(r - 1, h), Reflect(r + 1, h);
          assert b[up][c] == g[up][c] + a && b[down][c] == g[down][c] + a;
        }
      }
      assert d1 == d2;
    } else {
      var d1, d2 := CorrelateCols(b, h, w, Derivative), CorrelateCols(g, h, w, Derivative);
      forall r | 0 <= r < h ensures d1[r] == d2[r] {
        forall c | 0 <= c < w ensures d1[r][c] == d2[r][c] {
          var left, right := Reflect(c - 1, w), Reflect(c + 1, w);
          assert b[r][left] == g[r][left] + a && b[r][right] == g[r][right] + a;
        }
      }
      assert d1 == d2;
    }
  }

  /** Correlating the all-zero image gives the all-zero image, along either axis. */
  lemma CorrelateZero(h: nat, w: nat, k: Kernel)
    ensures CorrelateRows(Constant(h, w, 0.0), h, w, k) == Constant(h, w, 0.0)
    ensures CorrelateCols(Constant(h, w, 0.0), h, w, k) == Constant(h, w, 0.0)
  {
    var zero := Constant(h, w, 0.0);
    var a, b := CorrelateRows(zero, h, w, k), CorrelateCols(zero, h, w, k);
    forall r | 0 <= r < h ensures a[r] == zero[r] && b[r] == zero[r] {
      forall c | 0 <= c < w ensures a[r][c] == 0.0 && b[r][c] == 0.0 {
        assert zero[Reflect(r - 1, h)][c] == 0.0 && zero[Reflect(r + 1, h)][c] == 0.0;
        assert zero[r][Reflect(c - 1, w)] == 0.0 && zero[r][Reflect(c + 1, w)] == 0.0;
      }
    }
  }

  /** Both Sobel responses of a constant image are zero everywhere, borders included. */
  lemma SobelConstantZero(h: nat, w: nat, v: real, axis: nat)
    requires axis < 2
    ensures Sobel(Constant(h, w, v), h, w, axis) == Constant(h, w, 0.0)
  {
    var zero := Constant(h, w, 0.0);
    var b := Brighten(zero, h, w, v);
    forall r | 0 <= r < h ensures b[r] == Constant(h, w, v)[r] {
      assert forall c :: 0 <= c < w ==> b[r][c] == v;
    }
    assert b == Constant(h, w, v);
    SobelShiftInvariant(zero, h, w, v, axis);
    CorrelateZero(h, w, Derivative);
    CorrelateZero(h, w, Smoothing);
  }

  /** Per-pixel gradient magnitude of the two Sobel responses, with `magnitude`
      standing for `sqrt(gx**2 + gy**2)`. */
  function EdgeMap(g: seq<seq<real>>, h: nat, w: nat, magnitude: (real, real) -> real): (e: seq<seq<real>>)
    requires IsGrid(g, h, w)
    ensures IsGrid(e, h, w)
  {
    var sx, sy := Sobel(g, h, w, 0), Sobel(g, h, w, 1);
    seq(h, r requires 0 <= r < h => seq(w, c requires 0 <= c < w => magnitude(sx[r][c], sy[r][c])))
  }

  /** `calculate_edge_preservation`: `corrcoef` of the two flattened edge maps, with
      `corrcoef` standing for `np.corrcoef(..)[0, 1]`. */
  function EdgePreservation(a: seq<seq<real>>, b: seq<seq<real>>, h: nat, w: nat,
                            magnitude: (real, real) -> real,
                            corrcoef: (seq<real>, seq<real>) -> real): real
    requires IsGrid(a, h, w) && IsGrid(b, h, w)
  {
    corrcoef(Flatten(EdgeMap(a, h, w, magnitude)), Flatten(EdgeMap(b, h, w, magnitude)))
  }

  /** A constant image has a constant edge map (every pixel `magnitude(0, 0)`), so
      the correlation is then taken against a constant array. */
  lemma EdgeMapOfConstant(h: nat, w: nat, v: real, magnitude: (real, real) -> real)
    ensures EdgeMap(Constant(h, w, v), h, w, magnitude) == Constant(h, w, magnitude(0.0, 0.0))
  {
    SobelConstantZero(h, w, v, 0);
    SobelConstantZero(h, w, v, 1);
    var e := EdgeMap(Constant(h, w, v), h, w, magnitude);
    forall r | 0 <= r < h ensures e[r] == Constant(h, w, magnitude(0.0, 0.0))[r] {
    }
  }

  // ---------------------------------------------------------------- extraction

  /** `extract_quality_metrics`: a fresh three-slot array holding, in order, the mean
      squared error, the structural similarity and the edge correlation. */
  method ExtractQualityMetrics(reconstruction: seq<seq<real>>, reference: seq<seq<real>>, h: nat, w: nat,
                               magnitude: (real, real) -> real,
                               corrcoef: (seq<real>, seq<real>) -> real)
    returns (metrics: array<real>)
    requires IsGrid(reconstruction, h, w) && IsGrid(reference, h, w) && h > 0 && w > 0
    ensures fresh(metrics) && metrics.Length == 3
    ensures metrics[0] == MeanSquaredError(reconstruction, reference, h, w)
    ensures metrics[1] == StructuralSimilarity(reconstruction, reference, h, w)
    ensures metrics[2] == EdgePreservation(reconstruction, reference, h, w, magnitude, corrcoef)
  {
    metrics := new real[3](_ => 0.0);
    metrics[0] := MeanSquaredError(reconstruction, reference, h, w);
    metrics[1] := StructuralSimilarity(reconstruction, reference, h, w);
    metrics[2] := EdgePreservation(reconstruction, reference, h, w, magnitude, corrcoef);
  }

  /** Comparing an image with itself: zero error, similarity 1, and the correlation
      of an edge map with itself. */
  lemma MetricsOfIdenticalImages(img: seq<seq<real>>, h: nat, w: nat,
                                 magnitude: (real, real) -> real,
                                 corrcoef: (seq<real>, seq<real>) -> real)
    requires IsGrid(img, h, w) && h > 0 && w > 0
    ensures MeanSquaredError(img, img, h, w) == 0.0
    ensures StructuralSimilarity(img, img, h, w) == 1.0
    ensures var e := Flatten(EdgeMap(img, h, w, magnitude));
      EdgePreservation(img, img, h, w, magnitude, corrcoef) == corrcoef(e, e)
  {
    MeanSquaredErrorProperties(img, img, h, w);
    FlattenLength(img, h, w);
    SsimSelf(Flatten(img));
  }
}
