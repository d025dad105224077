/** The part of scipy's compressed-sparse-row (CSR) matrices that the operator
    builder relies on: building from coordinate (COO) triples with duplicates
    summed, identity, scalar multiple, sum of two matrices and vertical stacking.
    A matrix is held row by row; each row is in canonical form (strictly
    increasing column indices), which is what scipy keeps after
    `sum_duplicates` and after adding two canonical matrices. `ToCsr` gives the
    flat `indptr`/`indices`/`data` arrays of the same matrix. */
module Sparse {

  /** One stored entry of a row: a column index and its value. */
  datatype Cell = Cell(col: nat, val: real)

  /** Strictly increasing column indices: no column is stored twice. */
  predicate Canonical(row: seq<Cell>)
  {
    forall i, j :: 0 <= i < j < |row| ==> row[i].col < row[j].col
  }

  /** The columns that hold a stored entry. */
  function Cols(row: seq<Cell>): set<nat>
  {
    set k | 0 <= k < |row| :: row[k].col
  }

  /** The dense value of column `c` (0 where nothing is stored). */
  function Get(row: seq<Cell>, c: nat): real
  {
    if row == [] then 0.0 else if row[0].col == c then row[0].val else Get(row[1..], c)
  }

  lemma ColsCons(x: Cell, row: seq<Cell>)
    ensures Cols([x] + row) == {x.col} + Cols(row)
  {
    var s := [x] + row;
    assert s[0] == x;
    forall c | c in Cols(s) ensures c in {x.col} + Cols(row) {
      var k :| 0 <= k < |s| && s[k].col == c;
      if k > 0 { assert row[k - 1].col == c; }
    }
    forall c | c in Cols(row) ensures c in Cols(s) {
      var k :| 0 <= k < |row| && row[k].col == c;
      assert s[k + 1].col == c;
    }
  }

  lemma ColsUncons(row: seq<Cell>)
    requires row != []
    ensures Cols(row) == {row[0].col} + Cols(row[1..])
  {
    ColsCons(row[0], row[1..]);
    assert [row[0]] + row[1..] == row;
  }

  lemma GetCons(x: Cell, row: seq<Cell>)
    ensures forall c :: Get([x] + row, c) == if x.col == c then x.val else Get(row, c)
  {
    assert ([x] + row)[1..] == row;
  }

  /** A column with no stored entry reads as 0. */
  lemma {:induction false} GetAbsent(row: seq<Cell>, c: nat)
    requires c !in Cols(row)
    ensures Get(row, c) == 0.0
  {
    if row != [] {
      ColsCons(row[0], row[1..]);
      assert [row[0]] + row[1..] == row;
      GetAbsent(row[1..], c);
    }
  }

  /** Prepending a cell keeps a row canonical when its column lies below all others. */
  lemma CanonicalCons(x: Cell, row: seq<Cell>)
    requires Canonical(row)
    requires forall c :: c in Cols(row) ==> x.col < c
    ensures Canonical([x] + row)
  {
    var s := [x] + row;
    forall i, j | 0 <= i < j < |s| ensures s[i].col < s[j].col {
      if i == 0 { assert s[j].col == row[j - 1].col && row[j - 1].col in Cols(row); }
    }
  }

  /** Every column of a canonical row lies at or above its first column. */
  lemma CanonicalHead(row: seq<Cell>)
    requires Canonical(row) && row != []
    ensures forall c :: c in Cols(row[1..]) ==> row[0].col < c
  {
    forall c | c in Cols(row[1..]) ensures row[0].col < c {
      var k :| 0 <= k < |row[1..]| && row[1..][k].col == c;
      assert row[k + 1].col == c;
    }
  }

  /** Adds value `v` at column `c`: summed into an entry already stored there,
      otherwise stored as a new entry in column order. */
  function Insert(row: seq<Cell>, c: nat, v: real): (r: seq<Cell>)
    requires Canonical(row)
    ensures Canonical(r)
    ensures Cols(r) == Cols(row) + {c}
    ensures forall k :: Get(r, k) == Get(row, k) + (if k == c then v else 0.0)
    ensures |r| <= |row| + 1
  {
    if row == [] then
      GetCons(Cell(c, v), []);
      ColsCons(Cell(c, v), []);
      [Cell(c, v)]
    else
      assert row == [row[0]] + row[1..];
      GetCons(row[0], row[1..]);
      ColsCons(row[0], row[1..]);
      CanonicalHead(row);
      if c < row[0].col then
        GetAbsent(row, c);
        CanonicalCons(Cell(c, v), row);
        GetCons(Cell(c, v), row);
        ColsCons(Cell(c, v), row);
        [Cell(c, v)] + row
      else if c == row[0].col then
        GetAbsent(row[1..], c);
        CanonicalCons(Cell(c, row[0].val + v), row[1..]);
        GetCons(Cell(c, row[0].val + v), row[1..]);
        ColsCons(Cell(c, row[0].val + v), row[1..]);
        [Cell(c, row[0].val + v)] + row[1..]
      else
        var rest := Insert(row[1..], c, v);
        CanonicalCons(row[0], rest);
        GetCons(row[0], rest);
        ColsCons(row[0], rest);
        [row[0]] + rest
  }

  /** The sum of two canonical rows (scipy's canonical `csr + csr`): a merge by column
      in which entries sharing a column are added. */
  function AddRows(a: seq<Cell>, b: seq<Cell>): (r: seq<Cell>)
    requires Canonical(a) && Canonical(b)
    ensures Canonical(r)
    ensures Cols(r) == Cols(a) + Cols(b)
    ensures forall k :: Get(r, k) == Get(a, k) + Get(b, k)
    ensures |a| <= |r| && |b| <= |r| && |r| <= |a| + |b|
    decreases |a| + |b|
  {
    if a == [] then
      assert forall k :: Get(a, k) == 0.0;
      b
    else if b == [] then
      assert forall k :: Get(b, k) == 0.0;
      a
    else if a[0].col < b[0].col then
      var rest := AddRows(a[1..], b);
      MergeFirstShape(a, b, rest);
      MergeFirstGet(a, b, rest);
      [a[0]] + rest
    else if b[0].col < a[0].col then
      var rest := AddRows(a, b[1..]);
      MergeFirstShape(b, a, rest);
      MergeFirstGet(b, a, rest);
      [b[0]] + rest
    else
      var rest := AddRows(a[1..], b[1..]);
      MergeBothShape(a, b, rest);
      MergeBothGet(a, b, rest);
      [Cell(a[0].col, a[0].val + b[0].val)] + rest
  }

  /** The merge step that takes the first cell of `a`, whose column is the smaller:
      the merged row stays canonical and holds the columns of both. */
  lemma MergeFirstShape(a: seq<Cell>, b: seq<Cell>, rest: seq<Cell>)
    requires Canonical(a) && Canonical(b) && a != [] && b != [] && a[0].col < b[0].col
    requires Canonical(rest) && Cols(rest) == Cols(a[1..]) + Cols(b)
    ensures Canonical([a[0]] + rest)
    ensures Cols([a[0]] + rest) == Cols(a) + Cols(b)
  {
    var x := a[0];
    assert forall c :: c in Cols(b) ==> x.col < c by {
      ColsUncons(b);
      CanonicalHead(b);
    }
    assert forall c :: c in Cols(rest) ==> x.col < c by {
      CanonicalHead(a);
    }
    CanonicalCons(x, rest);
    ColsUncons(a);
    ColsCons(x, rest);
  }

  /** The same step, entry by entry: the merged row reads as the sum. */
  lemma MergeFirstGet(a: seq<Cell>, b: seq<Cell>, rest: seq<Cell>)
    requires Canonical(b) && a != [] && b != [] && a[0].col < b[0].col
    requires forall k :: Get(rest, k) == Get(a[1..], k) + Get(b, k)
    ensures forall k :: Get([a[0]] + rest, k) == Get(a, k) + Get(b, k)
  {
    assert a[0].col !in Cols(b) by {
      ColsUncons(b);
      CanonicalHead(b);
    }
    GetAbsent(b, a[0].col);
    GetCons(a[0], rest);
  }

  /** The merge step for two first cells in the same column, which become one cell
      holding their sum: the merged row stays canonical and holds the columns of both. */
  lemma MergeBothShape(a: seq<Cell>, b: seq<Cell>, rest: seq<Cell>)
    requires Canonical(a) && Canonical(b) && a != [] && b != [] && a[0].col == b[0].col
    requires Canonical(rest) && Cols(rest) == Cols(a[1..]) + Cols(b[1..])
    ensures Canonical([Cell(a[0].col, a[0].val + b[0].val)] + rest)
    ensures Cols([Cell(a[0].col, a[0].val + b[0].val)] + rest) == Cols(a) + Cols(b)
  {
    var x := Cell(a[0].col, a[0].val + b[0].val);
    assert forall c :: c in Cols(rest) ==> x.col < c by {
      CanonicalHead(a);
      CanonicalHead(b);
    }
    CanonicalCons(x, rest);
    ColsUncons(a);
    ColsUncons(b);
    ColsCons(x, rest);
  }

  /** The same step, entry by entry: the merged row reads as the sum. */
  lemma MergeBothGet(a: seq<Cell>, b: seq<Cell>, rest: seq<Cell>)
    requires Canonical(a) && Canonical(b) && a != [] && b != [] && a[0].col == b[0].col
    requires forall k :: Get(rest, k) == Get(a[1..], k) + Get(b[1..], k)
    ensures forall k :: Get([Cell(a[0].col, a[0].val + b[0].val)] + rest, k) == Get(a, k) + Get(b, k)
  {
    var x := Cell(a[0].col, a[0].val + b[0].val);
    GetCons(x, rest);
    CanonicalHead(a);
    CanonicalHead(b);
    GetAbsent(a[1..], x.col);
    GetAbsent(b[1..], x.col);
  }

  /** An `nrows` by `ncols` sparse matrix, row by row. */
  datatype Matrix = Matrix(nrows: nat, ncols: nat, rows: seq<seq<Cell>>)

  /** One row per matrix row, each canonical, every stored column inside the matrix. */
  predicate Valid(m: Matrix)
  {
    |m.rows| == m.nrows &&
    forall i :: 0 <= i < m.nrows ==>
      Canonical(m.rows[i]) && forall c :: c in Cols(m.rows[i]) ==> c < m.ncols
  }

  /** The dense entry at row `i`, column `c`. */
  function At(m: Matrix, i: nat, c: nat): real
    requires i < |m.rows|
  {
    Get(m.rows[i], c)
  }

  /** `sparse.eye(n)`: a single stored 1 on the diagonal of each row. */
  function Identity(n: nat): (m: Matrix)
    ensures Valid(m) && m.nrows == n && m.ncols == n
    ensures forall i, c :: 0 <= i < n ==> At(m, i, c) == if i == c then 1.0 else 0.0
    ensures forall i :: 0 <= i < n ==> |m.rows[i]| == 1 && Cols(m.rows[i]) == {i}
  {
    var m := Matrix(n, n, seq(n, i requires 0 <= i < n => [Cell(i, 1.0)]));
    forall i | 0 <= i < n ensures Cols(m.rows[i]) == {i} {
      ColsUncons(m.rows[i]);
      assert m.rows[i][1..] == [];
    }
    forall i, c | 0 <= i < n ensures At(m, i, c) == if i == c then 1.0 else 0.0 {
      var row := m.rows[i];
      assert row == [Cell(i, 1.0)] && row[1..] == [];
      assert Get(row, c) == if row[0].col == c then row[0].val else Get(row[1..], c);
    }
    m
  }

  /** `s * m`: every stored value multiplied by `s`, the stored columns unchanged
      (scipy keeps the stored entries even when `s` is 0). */
  function Scale(s: real, m: Matrix): (r: Matrix)
    requires Valid(m)
    ensures Valid(r) && r.nrows == m.nrows && r.ncols == m.ncols
    ensures forall i :: 0 <= i < m.nrows ==> |r.rows[i]| == |m.rows[i]| && Cols(r.rows[i]) == Cols(m.rows[i])
    ensures forall i, c :: 0 <= i < m.nrows ==> At(r, i, c) == s * At(m, i, c)
  {
    var r := Matrix(m.nrows, m.ncols, seq(m.nrows, i requires 0 <= i < m.nrows => ScaleRow(s, m.rows[i])));
    r
  }

  function ScaleRow(s: real, row: seq<Cell>): (r: seq<Cell>)
    ensures |r| == |row| && Cols(r) == Cols(row)
    ensures forall k :: 0 <= k < |row| ==> r[k].col == row[k].col
    ensures forall c :: Get(r, c) == s * Get(row, c)
  {
    if row == [] then []
    else
      var rest := ScaleRow(s, row[1..]);
      ScaleCons(s, row, rest);
      [Cell(row[0].col, s * row[0].val)] + rest
  }

  /** The step of `ScaleRow`: the scaled first cell in front of the scaled rest. */
  lemma ScaleCons(s: real, row: seq<Cell>, rest: seq<Cell>)
    requires row != []
    requires |rest| == |row| - 1 && Cols(rest) == Cols(row[1..])
    requires forall k :: 0 <= k < |rest| ==> rest[k].col == row[k + 1].col
    requires forall c :: Get(rest, c) == s * Get(row[1..], c)
    ensures var r := [Cell(row[0].col, s * row[0].val)] + rest;
      Cols(r) == Cols(row) && (forall k :: 0 <= k < |row| ==> r[k].col == row[k].col) &&
      forall c :: Get(r, c) == s * Get(row, c)
  {
    var x := Cell(row[0].col, s * row[0].val);
    ColsUncons(row);
    ColsCons(x, rest);
    GetCons(x, rest);
  }

  /** `a + b` for two matrices of the same shape: entries are added, never overwritten. */
  function Add(a: Matrix, b: Matrix): (r: Matrix)
    requires Valid(a) && Valid(b) && a.nrows == b.nrows && a.ncols == b.ncols
    ensures Valid(r) && r.nrows == a.nrows && r.ncols == a.ncols
    ensures forall i, c :: 0 <= i < a.nrows ==> At(r, i, c) == At(a, i, c) + At(b, i, c)
    ensures forall i :: 0 <= i < a.nrows ==>
      Cols(r.rows[i]) == Cols(a.rows[i]) + Cols(b.rows[i]) &&
      |a.rows[i]| <= |r.rows[i]| && |b.rows[i]| <= |r.rows[i]| && |r.rows[i]| <= |a.rows[i]| + |b.rows[i]|
  {
    Matrix(a.nrows, a.ncols, seq(a.nrows, i requires 0 <= i < a.nrows => AddRows(a.rows[i], b.rows[i])))
  }

  /** `sparse.vstack([a, b])`: the rows of `a` followed by the rows of `b`. */
  function VStack(a: Matrix, b: Matrix): (r: Matrix)
    requires Valid(a) && Valid(b) && a.ncols == b.ncols
    ensures Valid(r) && r.nrows == a.nrows + b.nrows && r.ncols == a.ncols
    ensures r.rows == a.rows + b.rows
  {
    Matrix(a.nrows + b.nrows, a.ncols, a.rows + b.rows)
  }

  /** How many of the first `k` COO triples lie in row `i`. */
  function CooCount(i: nat, rows: seq<nat>, k: nat): nat
    requires k <= |rows|
  {
    if k == 0 then 0 else CooCount(i, rows, k - 1) + (if rows[k - 1] == i then 1 else 0)
  }

  /** The sum of the values of the first `k` COO triples at `(i, c)`: the entry that
      coordinate format denotes there. */
  function CooSum(i: nat, c: nat, rows: seq<nat>, cols: seq<nat>, vals: seq<real>, k: nat): real
    requires |rows| == |cols| == |vals| && k <= |rows|
  {
    if k == 0 then 0.0
    else CooSum(i, c, rows, cols, vals, k - 1) + (if rows[k - 1] == i && cols[k - 1] == c then vals[k - 1] else 0.0)
  }

  /** The columns that the first `k` COO triples of row `i` name. */
  function CooCols(i: nat, rows: seq<nat>, cols: seq<nat>, k: nat): set<nat>
    requires |rows| == |cols| && k <= |rows|
  {
    set j | 0 <= j < k && rows[j] == i :: cols[j]
  }

  /** Row `i` of the matrix that the first `k` COO triples denote, with entries that
      share a column summed into one stored entry. */
  function CooRow(i: nat, rows: seq<nat>, cols: seq<nat>, vals: seq<real>, k: nat): (r: seq<Cell>)
    requires |rows| == |cols| == |vals| && k <= |rows|
    ensures Canonical(r)
    ensures Cols(r) == CooCols(i, rows, cols, k)
    ensures forall c :: Get(r, c) == CooSum(i, c, rows, cols, vals, k)
    ensures |r| <= CooCount(i, rows, k)
  {
    if k == 0 then
      assert CooCols(i, rows, cols, 0) == {};
      []
    else
      var prev := CooRow(i, rows, cols, vals, k - 1);
      if rows[k - 1] == i then
        assert CooCols(i, rows, cols, k) == CooCols(i, rows, cols, k - 1) + {cols[k - 1]};
        Insert(prev, cols[k - 1], vals[k - 1])
      else
        assert CooCols(i, rows, cols, k) == CooCols(i, rows, cols, k - 1);
        prev
  }

  /** `csr_matrix((vals, (rows, cols)), shape=(nrows, ncols))`. */
  function FromCoo(nrows: nat, ncols: nat, rows: seq<nat>, cols: seq<nat>, vals: seq<real>): (m: Matrix)
    requires |rows| == |cols| == |vals|
    requires forall j :: 0 <= j < |rows| ==> rows[j] < nrows && cols[j] < ncols
    ensures Valid(m) && m.nrows == nrows && m.ncols == ncols
    ensures forall i, c :: 0 <= i < nrows ==> At(m, i, c) == CooSum(i, c, rows, cols, vals, |rows|)
    ensures forall i :: 0 <= i < nrows ==>
      Cols(m.rows[i]) == CooCols(i, rows, cols, |rows|) && |m.rows[i]| <= CooCount(i, rows, |rows|)
  {
    Matrix(nrows, ncols, seq(nrows, i requires 0 <= i < nrows => CooRow(i, rows, cols, vals, |rows|)))
  }

  /** The flat CSR arrays: row `i` is stored at positions `indptr[i]` to `indptr[i + 1]`
      of `indices` (columns) and `data` (values). */
  datatype Csr = Csr(indptr: seq<nat>, indices: seq<nat>, data: seq<real>)

  /** `a` holds exactly `rows`: the offsets start at 0, each row occupies the next
      `|rows[i]|` positions, and those positions hold the row's columns and values. */
  predicate Flattens(rows: seq<seq<Cell>>, a: Csr)
  {
    |a.indptr| == |rows| + 1 && a.indptr[0] == 0 &&
    |a.indices| == |a.data| == a.indptr[|rows|] &&
    (forall i :: 0 <= i < |rows| ==> a.indptr[i] + |rows[i]| == a.indptr[i + 1]) &&
    (forall i, k :: 0 <= i < |rows| && 0 <= k < |rows[i]| ==> StoredAt(a, a.indptr[i] + k, rows[i][k]))
  }

  /** Position `j` of the flat arrays holds `cell`'s column and value. */
  predicate StoredAt(a: Csr, j: int, cell: Cell)
  {
    0 <= j < |a.indices| && j < |a.data| && a.indices[j] == cell.col && a.data[j] == cell.val
  }

  /** The CSR arrays with one more row at the end. */
  function AppendRow(a: Csr, last: seq<Cell>): Csr
    requires |a.indptr| > 0
  {
    Csr(a.indptr + [a.indptr[|a.indptr| - 1] + |last|],
        a.indices + seq(|last|, k requires 0 <= k < |last| => last[k].col),
        a.data + seq(|last|, k requires 0 <= k < |last| => last[k].val))
  }

  lemma AppendRowFlattens(rows: seq<seq<Cell>>, last: seq<Cell>, a: Csr)
    requires Flattens(rows, a)
    ensures Flattens(rows + [last], AppendRow(a, last))
  {
    var all, b, n := rows + [last], AppendRow(a, last), |rows|;
    var cols := seq(|last|, k requires 0 <= k < |last| => last[k].col);
    var vals := seq(|last|, k requires 0 <= k < |last| => last[k].val);
    assert b.indices == a.indices + cols && b.data == a.data + vals;
    assert forall i :: 0 <= i <= n ==> b.indptr[i] == a.indptr[i];
    assert b.indptr[n + 1] == |b.indices| == |b.data|;
    forall i | 0 <= i < |all| ensures b.indptr[i] + |all[i]| == b.indptr[i + 1] {
      if i < n { assert all[i] == rows[i]; }
    }
    forall i, k | 0 <= i < |all| && 0 <= k < |all[i]| ensures StoredAt(b, b.indptr[i] + k, all[i][k]) {
      if i < n {
        assert all[i] == rows[i] && StoredAt(a, a.indptr[i] + k, rows[i][k]);
      } else {
        assert all[i] == last && b.indptr[i] == |a.indices| == |a.data|;
        assert b.indices[|a.indices| + k] == cols[k] && b.data[|a.data| + k] == vals[k];
      }
    }
    assert |b.indptr| == |all| + 1 && b.indptr[0] == 0;
    assert |b.indices| == |b.data| == b.indptr[|all|];
  }

  /** The CSR arrays of a matrix given row by row. */
  function ToCsr(rows: seq<seq<Cell>>): (a: Csr)
    ensures Flattens(rows, a)
  {
    if rows == [] then Csr([0], [], [])
    else
      var n := |rows| - 1;
      var prev := ToCsr(rows[..n]);
      AppendRowFlattens(rows[..n], rows[n], prev);
      assert rows[..n] + [rows[n]] == rows;
      AppendRow(prev, rows[n])
  }

  /** The row whose slice of a nondecreasing offset array contains position `j`. */
  function RowOfPosition(indptr: seq<nat>, j: nat, n: nat): (i: nat)
    requires |indptr| == n + 1 && indptr[0] == 0 && j < indptr[n]
    requires forall i :: 0 <= i < n ==> indptr[i] <= indptr[i + 1]
    ensures i < n && indptr[i] <= j < indptr[i + 1]
    decreases n
  {
    if indptr[n - 1] <= j then n - 1 else RowOfPosition(indptr[..n], j, n - 1)
  }

  /** Every column index in the flat CSR arrays of a valid matrix lies inside it. */
  lemma ToCsrBounds(m: Matrix)
    requires Valid(m)
    ensures forall j :: 0 <= j < |ToCsr(m.rows).indices| ==> ToCsr(m.rows).indices[j] < m.ncols
  {
    var csr := ToCsr(m.rows);
    assert Flattens(m.rows, csr);
    forall j | 0 <= j < |csr.indices| ensures csr.indices[j] < m.ncols {
      var i := RowOfPosition(csr.indptr, j, m.nrows);
      var k := j - csr.indptr[i];
      assert StoredAt(csr, csr.indptr[i] + k, m.rows[i][k]);
      assert m.rows[i][k].col in Cols(m.rows[i]);
    }
  }
}
