/** Operator assembly and image reconstruction (`create_sparse_system_matrix`,
    `reconstruct_image`). The random draws of the operator builder are
    parameters: `indices` is the `(n, 5)` array of drawn column indices and
    `data` the `(n, 5)` array of drawn perturbation values. The LSQR solve is a
    function parameter that returns a solution vector of the system's column
    count together with its diagnostics. */
module Reconstruction {
  import opened Common
  import opened Grid
  import opened Sparse

  /** Candidate perturbation entries drawn per row (`nnz_per_row`). */
  const NnzPerRow: nat := 5

  /** The draws for an operator of order `n`: two `(n, 5)` arrays, every drawn column
      in `[0, n)` (what `np.random.randint(0, n, size=(n, 5))` yields). */
  predicate ValidDraws(n: nat, indices: seq<seq<nat>>, data: seq<seq<real>>)
  {
    IsGrid(indices, n, NnzPerRow) && IsGrid(data, n, NnzPerRow) &&
    forall r, t :: 0 <= r < n && 0 <= t < NnzPerRow ==> indices[r][t] < n
  }

  /** `np.repeat(np.arange(n), nnz_per_row)`: the row of each candidate entry. */
  function RepeatRows(n: nat): (rows: seq<nat>)
    ensures |rows| == n * NnzPerRow
  {
    seq(n * NnzPerRow, j requires 0 <= j < n * NnzPerRow => j / NnzPerRow)
  }

  /** Candidate `j` belongs to row `i` exactly when `5 * i <= j < 5 * i + 5`. */
  lemma RepeatRowsAt(n: nat, j: nat, i: nat)
    requires j < n * NnzPerRow
    ensures RepeatRows(n)[j] < n
    ensures RepeatRows(n)[j] == i <==> i * NnzPerRow <= j < i * NnzPerRow + NnzPerRow
  {
  }

  /** How many of the candidates `5 * i` to `5 * i + 4` come before position `k`. */
  function Taken(i: nat, k: nat): (t: nat)
    ensures t <= NnzPerRow
  {
    if k <= i * NnzPerRow then 0
    else if k >= i * NnzPerRow + NnzPerRow then NnzPerRow
    else k - i * NnzPerRow
  }

  /** Of the candidates before position `k`, `Taken(i, k)` belong to row `i`. */
  lemma {:induction false} CandidatesBefore(n: nat, i: nat, k: nat)
    requires i < n && k <= n * NnzPerRow
    ensures CooCount(i, RepeatRows(n), k) == Taken(i, k)
  {
    if k > 0 {
      CandidatesBefore(n, i, k - 1);
      RepeatRowsAt(n, k - 1, i);
    }
  }

  /** Every row receives exactly `nnz_per_row` candidate entries. */
  lemma CandidatesPerRow(n: nat, i: nat)
    requires i < n
    ensures CooCount(i, RepeatRows(n), n * NnzPerRow) == NnzPerRow
  {
    CandidatesBefore(n, i, n * NnzPerRow);
  }

  /** The sum of the values among one row's candidates whose drawn column is `c`. */
  function CandidateSum(cols: seq<nat>, vals: seq<real>, c: nat): real
    requires |cols| == |vals|
  {
    if cols == [] then 0.0
    else
      var last := |cols| - 1;
      CandidateSum(cols[..last], vals[..last], c) + (if cols[last] == c then vals[last] else 0.0)
  }

  /** The COO sum at `(i, c)` over the first `k` flattened candidates is the sum over
      the candidates of row `i` that precede position `k`. */
  lemma {:induction false} CooSumOfRow(n: nat, indices: seq<seq<nat>>, data: seq<seq<real>>, i: nat, c: nat, k: nat)
    requires ValidDraws(n, indices, data) && i < n && k <= n * NnzPerRow
    ensures |Flatten<nat>(indices)| == |Flatten<real>(data)| == n * NnzPerRow
    ensures CooSum(i, c, RepeatRows(n), Flatten<nat>(indices), Flatten<real>(data), k)
         == CandidateSum(indices[i][..Taken(i, k)], data[i][..Taken(i, k)], c)
  {
    FlattenLength(indices, n, NnzPerRow);
    FlattenLength(data, n, NnzPerRow);
    if k > 0 {
      CooSumOfRow(n, indices, data, i, c, k - 1);
      var j := k - 1;
      RepeatRowsAt(n, j, i);
      if RepeatRows(n)[j] == i {
        var t := j - i * NnzPerRow;
        assert Taken(i, k) == t + 1 && Taken(i, j) == t;
        FlattenCell(indices, n, NnzPerRow, i, t);
        FlattenCell(data, n, NnzPerRow, i, t);
        assert i * NnzPerRow + t == j;
        var cs, vs := indices[i][..t + 1], data[i][..t + 1];
        assert cs[..t] == indices[i][..t] && vs[..t] == data[i][..t];
      }
    }
  }

  /** Every element of a flattened array of draws lies in `[0, n)`. */
  lemma {:induction false} FlattenBelow(g: seq<seq<nat>>, n: nat)
    requires forall r, t :: 0 <= r < |g| && 0 <= t < |g[r]| ==> g[r][t] < n
    ensures forall x :: x in Flatten<nat>(g) ==> x < n
  {
    if g != [] {
      FlattenBelow(g[1..], n);
      assert Flatten<nat>(g) == g[0] + Flatten<nat>(g[1..]);
    }
  }

  /** The flattened draws form a COO triple list of an `n` by `n` matrix in which
      every row receives `nnz_per_row` triples. */
  lemma CooDraws(n: nat, indices: seq<seq<nat>>, data: seq<seq<real>>)
    requires ValidDraws(n, indices, data)
    ensures |Flatten<nat>(indices)| == |Flatten<real>(data)| == n * NnzPerRow
    ensures forall j :: 0 <= j < n * NnzPerRow ==> RepeatRows(n)[j] < n && Flatten<nat>(indices)[j] < n
    ensures forall i :: 0 <= i < n ==> CooCount(i, RepeatRows(n), n * NnzPerRow) == NnzPerRow
  {
    FlattenLength(indices, n, NnzPerRow);
    FlattenLength(data, n, NnzPerRow);
    FlattenBelow(indices, n);
    forall j | 0 <= j < n * NnzPerRow ensures RepeatRows(n)[j] < n && Flatten<nat>(indices)[j] < n {
      RepeatRowsAt(n, j, 0);
      assert Flatten<nat>(indices)[j] in Flatten<nat>(indices);
    }
    forall i | 0 <= i < n ensures CooCount(i, RepeatRows(n), n * NnzPerRow) == NnzPerRow {
      CandidatesPerRow(n, i);
    }
  }

  /** The perturbation `csr_matrix((data, (rows, cols)), shape=(n, n))`. */
  function Perturbation(n: nat, indices: seq<seq<nat>>, data: seq<seq<real>>): (p: Matrix)
    requires ValidDraws(n, indices, data)
    ensures Valid(p) && p.nrows == n && p.ncols == n
    ensures forall i :: 0 <= i < n ==> |p.rows[i]| <= NnzPerRow
  {
    FlattenLength(indices, n, NnzPerRow);
    FlattenLength(data, n, NnzPerRow);
    CooDraws(n, indices, data);
    FromCoo(n, n, RepeatRows(n), Flatten<nat>(indices), Flatten<real>(data))
  }

  /** `create_sparse_system_matrix`: `sparse.eye(n) + perturbation` with
      `n = shape[0] * shape[1]`. */
  function CreateSparseSystemMatrix(h: nat, w: nat, indices: seq<seq<nat>>, data: seq<seq<real>>): (a: Matrix)
    requires ValidDraws(h * w, indices, data)
    ensures Valid(a) && a.nrows == h * w && a.ncols == h * w
    ensures forall i :: 0 <= i < h * w ==> 1 <= |a.rows[i]| <= NnzPerRow + 1
  {
    Add(Identity(h * w), Perturbation(h * w, indices, data))
  }

  /** The entry at `(i, c)` is 1 on the diagonal plus the sum of row `i`'s drawn values
      whose drawn column is `c`: duplicates are summed, including into the diagonal. */
  lemma OperatorEntry(h: nat, w: nat, indices: seq<seq<nat>>, data: seq<seq<real>>, i: nat, c: nat)
    requires ValidDraws(h * w, indices, data) && i < h * w
    ensures At(CreateSparseSystemMatrix(h, w, indices, data), i, c)
         == (if i == c then 1.0 else 0.0) + CandidateSum(indices[i], data[i], c)
  {
    var n := h * w;
    CooSumOfRow(n, indices, data, i, c, n * NnzPerRow);
    assert Taken(i, n * NnzPerRow) == NnzPerRow;
    assert indices[i][..NnzPerRow] == indices[i] && data[i][..NnzPerRow] == data[i];
  }

  /** Row `i` stores exactly the diagonal column and the columns drawn for row `i`,
      each once and in increasing order, all inside `[0, n)`. */
  lemma OperatorRowColumns(h: nat, w: nat, indices: seq<seq<nat>>, data: seq<seq<real>>, i: nat)
    requires ValidDraws(h * w, indices, data) && i < h * w
    ensures var row := CreateSparseSystemMatrix(h, w, indices, data).rows[i];
      Canonical(row) &&
      Cols(row) == {i} + (set t | 0 <= t < NnzPerRow :: indices[i][t]) &&
      forall c :: c in Cols(row) ==> c < h * w
  {
    var n := h * w;
    FlattenLength(indices, n, NnzPerRow);
    var rows, cols := RepeatRows(n), Flatten<nat>(indices);
    var drawn := set t | 0 <= t < NnzPerRow :: indices[i][t];
    forall c | c in CooCols(i, rows, cols, |rows|) ensures c in drawn {
      var j :| 0 <= j < |rows| && rows[j] == i && cols[j] == c;
      RepeatRowsAt(n, j, i);
      FlattenCell(indices, n, NnzPerRow, i, j - i * NnzPerRow);
    }
    forall c | c in drawn ensures c in CooCols(i, rows, cols, |rows|) {
      var t :| 0 <= t < NnzPerRow && indices[i][t] == c;
      FlattenCell(indices, n, NnzPerRow, i, t);
      RepeatRowsAt(n, i * NnzPerRow + t, i);
    }
  }

  /** The flat CSR arrays of the operator: `n + 1` row offsets, between 1 and 6
      entries per row, every column index in `[0, n)`. */
  lemma OperatorCsrBounds(h: nat, w: nat, indices: seq<seq<nat>>, data: seq<seq<real>>)
    requires ValidDraws(h * w, indices, data)
    ensures var a := CreateSparseSystemMatrix(h, w, indices, data);
      var csr := ToCsr(a.rows);
      |csr.indptr| == h * w + 1 && csr.indptr[0] == 0 &&
      (forall i :: 0 <= i < h * w ==> csr.indptr[i] + 1 <= csr.indptr[i + 1] <= csr.indptr[i] + NnzPerRow + 1) &&
      forall j :: 0 <= j < |csr.indices| ==> csr.indices[j] < h * w
  {
    var a := CreateSparseSystemMatrix(h, w, indices, data);
    var csr := ToCsr(a.rows);
    ToCsrBounds(a);
    forall i | 0 <= i < h * w
      ensures csr.indptr[i] + 1 <= csr.indptr[i + 1] <= csr.indptr[i] + NnzPerRow + 1
    {
      assert csr.indptr[i] + |a.rows[i]| == csr.indptr[i + 1];
    }
  }

  /** `vstack([A, λ·eye(n)])`: the operator's rows, then row `n + i` holding the single
      entry λ at column `i`. */
  function RegularizedSystem(a: Matrix, lambda: real): (s: Matrix)
    requires Valid(a) && a.nrows == a.ncols
    ensures Valid(s) && s.nrows == 2 * a.nrows && s.ncols == a.ncols
    ensures forall i :: 0 <= i < a.nrows ==> s.rows[i] == a.rows[i]
    ensures forall i :: a.nrows <= i < 2 * a.nrows ==>
      |s.rows[i]| == 1 && Cols(s.rows[i]) == {i - a.nrows}
    ensures forall i, c :: a.nrows <= i < 2 * a.nrows ==>
      At(s, i, c) == if c == i - a.nrows then lambda else 0.0
  {
    RegularizationRows(a, lambda);
    VStack(a, Scale(lambda, Identity(a.nrows)))
  }

  lemma RegularizationRows(a: Matrix, lambda: real)
    requires Valid(a) && a.nrows == a.ncols
    ensures var s := VStack(a, Scale(lambda, Identity(a.nrows)));
      (forall i :: a.nrows <= i < 2 * a.nrows ==>
        |s.rows[i]| == 1 && Cols(s.rows[i]) == {i - a.nrows}) &&
      (forall i, c :: a.nrows <= i < 2 * a.nrows ==>
        At(s, i, c) == if c == i - a.nrows then lambda else 0.0)
  {
    var n := a.nrows;
    var id := Identity(n);
    var reg := Scale(lambda, id);
    var s := VStack(a, reg);
    forall i | n <= i < 2 * n ensures |s.rows[i]| == 1 && Cols(s.rows[i]) == {i - n} {
      assert s.rows[i] == reg.rows[i - n];
    }
    forall i, c | n <= i < 2 * n ensures At(s, i, c) == if c == i - n then lambda else 0.0 {
      assert s.rows[i] == reg.rows[i - n];
      assert At(reg, i - n, c) == lambda * At(id, i - n, c);
    }
  }

  /** `np.concatenate([b, np.zeros(n)])`. */
  function PaddedRhs(b: seq<real>): (r: seq<real>)
    ensures |r| == 2 * |b| && r[..|b|] == b
    ensures forall i :: |b| <= i < |r| ==> r[i] == 0.0
  {
    b + seq(|b|, _ => 0.0)
  }

  /** What `scipy.sparse.linalg.lsqr` returns first: the solution and the stopping
      reason, iteration count and residual norm. */
  datatype LsqrOutput = LsqrOutput(x: seq<real>, istop: int, itn: int, r1norm: real)

  /** `np.clip(v, 0, 255).astype(np.uint8)`: clipped, then truncated toward zero. */
  function ClipToUint8(v: real): (p: uint8)
    ensures v <= 0.0 ==> p == 0
    ensures v >= 255.0 ==> p == 255
    ensures 0.0 <= v <= 255.0 ==> p as real <= v < p as real + 1.0
  {
    if v < 0.0 then 0 else if v > 255.0 then 255 else v.Floor
  }

  /** An integer already in `0..255` comes out unchanged. */
  lemma ClipKeepsBytes(k: int)
    requires 0 <= k < 256
    ensures ClipToUint8(k as real) == k
  {
  }

  /** The solver gives a vector as long as the system has columns. */
  ghost predicate SolverShape(lsqr: (Matrix, seq<real>) -> LsqrOutput)
  {
    forall m, b :: |lsqr(m, b).x| == m.ncols
  }

  /** The solution vector of the regularized system for image `img`. */
  function Solution(img: seq<seq<real>>, h: nat, w: nat, lambda: real,
                    indices: seq<seq<nat>>, data: seq<seq<real>>,
                    lsqr: (Matrix, seq<real>) -> LsqrOutput): (x: seq<real>)
    requires IsGrid(img, h, w) && ValidDraws(h * w, indices, data) && SolverShape(lsqr)
    ensures |x| == h * w
  {
    var a := CreateSparseSystemMatrix(h, w, indices, data);
    lsqr(RegularizedSystem(a, lambda), PaddedRhs(Flatten(img))).x
  }

  /** `reconstruct_image`: solve, reshape to the image's shape, clip and cast; the
      solver diagnostics are dropped. */
  function ReconstructImage(img: seq<seq<real>>, h: nat, w: nat, lambda: real,
                            indices: seq<seq<nat>>, data: seq<seq<real>>,
                            lsqr: (Matrix, seq<real>) -> LsqrOutput): (out: seq<seq<uint8>>)
    requires IsGrid(img, h, w) && ValidDraws(h * w, indices, data) && SolverShape(lsqr)
    ensures IsGrid(out, h, w)
  {
    var x := Solution(img, h, w, lambda, indices, data, lsqr);
    var g := Reshape(x, h, w);
    seq(h, r requires 0 <= r < h => seq(w, c requires 0 <= c < w => ClipToUint8(g[r][c])))
  }

  /** Pixel `(r, c)` of the output is the clipped, truncated solution value at
      row-major position `r * w + c`. */
  lemma ReconstructPixel(img: seq<seq<real>>, h: nat, w: nat, lambda: real,
                         indices: seq<seq<nat>>, data: seq<seq<real>>,
                         lsqr: (Matrix, seq<real>) -> LsqrOutput, r: nat, c: nat)
    requires IsGrid(img, h, w) && ValidDraws(h * w, indices, data) && SolverShape(lsqr)
    requires r < h && c < w
    ensures r * w + c < h * w
    ensures ReconstructImage(img, h, w, lambda, indices, data, lsqr)[r][c]
         == ClipToUint8(Solution(img, h, w, lambda, indices, data, lsqr)[r * w + c])
  {
    var x := Solution(img, h, w, lambda, indices, data, lsqr);
    var g := Reshape(x, h, w);
    FlattenCell(g, h, w, r, c);
  }

  /** When the solver returns the flattened input itself and the input holds whole
      numbers in `0..255`, the reconstruction is the input. */
  lemma ReconstructExactInput(img: seq<seq<real>>, h: nat, w: nat, lambda: real,
                              indices: seq<seq<nat>>, data: seq<seq<real>>,
                              lsqr: (Matrix, seq<real>) -> LsqrOutput)
    requires IsGrid(img, h, w) && ValidDraws(h * w, indices, data) && SolverShape(lsqr)
    requires forall r, c :: 0 <= r < h && 0 <= c < w ==>
      0.0 <= img[r][c] <= 255.0 && img[r][c] == img[r][c].Floor as real
    requires Solution(img, h, w, lambda, indices, data, lsqr) == Flatten(img)
    ensures forall r, c :: 0 <= r < h && 0 <= c < w ==>
      ReconstructImage(img, h, w, lambda, indices, data, lsqr)[r][c] as real == img[r][c]
  {
    forall r, c | 0 <= r < h && 0 <= c < w
      ensures ReconstructImage(img, h, w, lambda, indices, data, lsqr)[r][c] as real == img[r][c]
    {
      ReconstructPixel(img, h, w, lambda, indices, data, lsqr, r, c);
      FlattenCell(img, h, w, r, c);
      ClipKeepsBytes(img[r][c].Floor);
    }
  }

  /** Only the solution vector reaches the output: two solver runs that agree on it
      but differ in their diagnostics give the same image. */
  lemma DiagnosticsDiscarded(img: seq<seq<real>>, h: nat, w: nat, lambda: real,
                             indices: seq<seq<nat>>, data: seq<seq<real>>,
                             lsqr1: (Matrix, seq<real>) -> LsqrOutput,
                             lsqr2: (Matrix, seq<real>) -> LsqrOutput)
    requires IsGrid(img, h, w) && ValidDraws(h * w, indices, data)
    requires SolverShape(lsqr1) && SolverShape(lsqr2)
    requires forall m, b :: lsqr1(m, b).x == lsqr2(m, b).x
    ensures ReconstructImage(img, h, w, lambda, indices, data, lsqr1)
         == ReconstructImage(img, h, w, lambda, indices, data, lsqr2)
  {
    var a := CreateSparseSystemMatrix(h, w, indices, data);
    var s, b := RegularizedSystem(a, lambda), PaddedRhs(Flatten(img));
    assert lsqr1(s, b).x == lsqr2(s, b).x;
  }
}
