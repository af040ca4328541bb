/**
 * The SpMM workload's `MatCSR` (serial_workload/spmm): a dense matrix of
 * `unsigned char` compressed into CSR arrays `row_ptr` / `col_idx` /
 * `values`, and the sequential sparse-times-dense product. The row-major
 * buffers indexed `r * cols + c` in the source are matrices here: a dense
 * input is a sequence of rows and `res_mat` a two-dimensional array.
 */
module SparseMatrix {
  /** `value_t`: an `unsigned char`. */
  newtype Value = x: int | 0 <= x < 256

  /** Storing an int into a `value_t` keeps it modulo 256. */
  function Store(x: int): (v: Value)
    ensures (v as int - x) % 256 == 0
    ensures 0 <= x < 256 ==> v as int == x
  {
    (x % 256) as Value
  }

  /** Truncating after every addition is truncating once at the end. */
  lemma StoreAdd(a: int, b: int)
    ensures Store(Store(a) as int + b) == Store(a + b)
  {
    var q := a / 256;
    assert a == 256 * q + a % 256;
    assert Store(a) as int + b == a + b - 256 * q;
  }

  /** m has `rows` rows of `cols` cells. */
  ghost predicate Dense(m: seq<seq<Value>>, rows: int, cols: int)
  {
    |m| == rows && forall r :: 0 <= r < |m| ==> |m[r]| == cols
  }

  /* ---------- What `InitOrderedValues` stores ---------- */

  /** The columns below n whose cell in row is non-zero, in increasing order. */
  function RowCols(row: seq<Value>, n: nat): seq<int>
    requires n <= |row|
  {
    if n == 0 then [] else RowCols(row, n - 1) + (if row[n - 1] != 0 then [n - 1] else [])
  }

  /** The non-zero cells below n of row, in column order. */
  function RowVals(row: seq<Value>, n: nat): (v: seq<Value>)
    requires n <= |row|
    ensures |v| == |RowCols(row, n)|
  {
    if n == 0 then [] else RowVals(row, n - 1) + (if row[n - 1] != 0 then [row[n - 1]] else [])
  }

  /** `col_idx` for the rows below r: each row's non-zero columns, row after row. */
  function Cols(m: seq<seq<Value>>, r: nat): seq<int>
    requires r <= |m|
  {
    if r == 0 then [] else Cols(m, r - 1) + RowCols(m[r - 1], |m[r - 1]|)
  }

  /** `values` for the rows below r. */
  function Vals(m: seq<seq<Value>>, r: nat): (v: seq<Value>)
    requires r <= |m|
    ensures |v| == |Cols(m, r)|
  {
    if r == 0 then [] else Vals(m, r - 1) + RowVals(m[r - 1], |m[r - 1]|)
  }

  /** a with the cells from t on replaced by s. */
  function Overwrite<T>(a: seq<T>, t: nat, s: seq<T>): (r: seq<T>)
    requires t + |s| <= |a|
    ensures |r| == |a|
  {
    a[..t] + s + a[t + |s|..]
  }

  lemma OverwriteNext<T>(a: seq<T>, t: nat, s: seq<T>, x: T)
    requires t + |s| < |a|
    ensures Overwrite(a, t, s)[t + |s| := x] == Overwrite(a, t, s + [x])
  {
  }

  lemma OverwriteAll<T>(a: seq<T>, s: seq<T>)
    requires |s| == |a|
    ensures Overwrite(a, 0, s) == s
  {
    assert a[..0] == [] && a[|s|..] == [];
  }

  lemma OverwriteTwice<T>(a: seq<T>, s: seq<T>, u: seq<T>)
    requires |s| + |u| <= |a|
    ensures Overwrite(Overwrite(a, 0, s), |s|, u) == Overwrite(a, 0, s + u)
  {
    var b := Overwrite(a, 0, s);
    assert b[..|s|] == s;
    assert b[|s| + |u|..] == a[|s| + |u|..];
  }

  lemma {:induction false} RowColsGrow(row: seq<Value>, n: nat, p: nat)
    requires n <= p <= |row|
    decreases p - n
    ensures |RowCols(row, n)| <= |RowCols(row, p)|
  {
    if n < p {
      RowColsGrow(row, n, p - 1);
    }
  }

  /** Row pointers never decrease: `row_ptr[r] <= row_ptr[p]` for r <= p. */
  lemma {:induction false} ColsGrow(m: seq<seq<Value>>, r: nat, p: nat)
    requires r <= p <= |m|
    decreases p - r
    ensures |Cols(m, r)| <= |Cols(m, p)|
  {
    if r < p {
      ColsGrow(m, r, p - 1);
    }
  }

  /**
   * A stored row: strictly increasing columns below n, each value the
   * row's (non-zero) cell at that column.
   */
  lemma {:induction false} RowShape(row: seq<Value>, n: nat)
    requires n <= |row|
    ensures forall t :: 0 <= t < |RowCols(row, n)| ==>
              0 <= RowCols(row, n)[t] < n && RowVals(row, n)[t] == row[RowCols(row, n)[t]] != 0
    ensures forall t, u :: 0 <= t < u < |RowCols(row, n)| ==> RowCols(row, n)[t] < RowCols(row, n)[u]
  {
    if n > 0 {
      RowShape(row, n - 1);
    }
  }

  lemma {:induction false} RowColsRange(row: seq<Value>, n: nat)
    requires n <= |row|
    ensures forall t :: 0 <= t < |RowCols(row, n)| ==> 0 <= RowCols(row, n)[t] < n
  {
    if n > 0 {
      RowColsRange(row, n - 1);
    }
  }

  /** Row r's cells `row_ptr[r] .. row_ptr[r+1]` of `col_idx` and `values`. */
  lemma ColsSegment(m: seq<seq<Value>>, r: nat)
    requires r < |m|
    ensures |Cols(m, r)| <= |Cols(m, r + 1)| <= |Cols(m, |m|)|
    ensures Cols(m, |m|)[|Cols(m, r)|..|Cols(m, r + 1)|] == RowCols(m[r], |m[r]|)
    ensures Vals(m, |m|)[|Cols(m, r)|..|Cols(m, r + 1)|] == RowVals(m[r], |m[r]|)
  {
    ColsPrefix(m, r + 1, |m|);
    SegmentOfPrefix(Cols(m, |m|), Cols(m, r), RowCols(m[r], |m[r]|));
    SegmentOfPrefix(Vals(m, |m|), Vals(m, r), RowVals(m[r], |m[r]|));
  }

  /** The arrays for the rows below r are a prefix of those for the rows below n. */
  lemma {:induction false} ColsPrefix(m: seq<seq<Value>>, r: nat, n: nat)
    requires r <= n <= |m|
    decreases n - r
    ensures |Cols(m, r)| <= |Cols(m, n)|
    ensures Cols(m, n)[..|Cols(m, r)|] == Cols(m, r)
    ensures Vals(m, n)[..|Cols(m, r)|] == Vals(m, r)
  {
    if r < n {
      ColsPrefix(m, r, n - 1);
      TakeOfConcat(Cols(m, n - 1), RowCols(m[n - 1], |m[n - 1]|), |Cols(m, r)|);
      TakeOfConcat(Vals(m, n - 1), RowVals(m[n - 1], |m[n - 1]|), |Cols(m, r)|);
    } else {
      assert Cols(m, n)[..|Cols(m, n)|] == Cols(m, n);
      assert Vals(m, n)[..|Cols(m, n)|] == Vals(m, n);
    }
  }

  lemma TakeOfConcat<T>(a: seq<T>, b: seq<T>, k: int)
    requires 0 <= k <= |a|
    ensures (a + b)[..k] == a[..k]
  {
  }

  lemma SegmentOfPrefix<T>(s: seq<T>, a: seq<T>, b: seq<T>)
    requires |a| + |b| <= |s| && s[..|a| + |b|] == a + b
    ensures s[|a|..|a| + |b|] == b
  {
    forall i | 0 <= i < |b|
      ensures s[|a| + i] == b[i]
    {
      assert s[..|a| + |b|][|a| + i] == (a + b)[|a| + i];
    }
  }

  /* ---------- Reading the CSR back ---------- */

  /** The cell at column c of a stored row: its value if c is stored, else 0. */
  function Lookup(cols: seq<int>, vals: seq<Value>, c: int): Value
    requires |cols| == |vals|
  {
    if |cols| == 0 then 0
    else if cols[|cols| - 1] == c then vals[|vals| - 1]
    else Lookup(cols[..|cols| - 1], vals[..|vals| - 1], c)
  }

  lemma {:induction false} LookupAbsent(cols: seq<int>, vals: seq<Value>, c: int)
    requires |cols| == |vals| && forall t :: 0 <= t < |cols| ==> cols[t] < c
    ensures Lookup(cols, vals, c) == 0
  {
    if |cols| > 0 {
      LookupAbsent(cols[..|cols| - 1], vals[..|vals| - 1], c);
    }
  }

  /** A stored row gives back every cell of the dense row, zero or not. */
  lemma {:induction false} RowLookup(row: seq<Value>, n: nat, c: int)
    requires n <= |row|
    ensures Lookup(RowCols(row, n), RowVals(row, n), c) == if 0 <= c < n then row[c] else 0
  {
    if n > 0 {
      RowLookup(row, n - 1, c);
      var cs, vs := RowCols(row, n), RowVals(row, n);
      if row[n - 1] != 0 {
        assert cs[..|cs| - 1] == RowCols(row, n - 1) && vs[..|vs| - 1] == RowVals(row, n - 1);
      } else {
        assert cs == RowCols(row, n - 1) && vs == RowVals(row, n - 1);
        if c == n - 1 {
          RowColsRange(row, n - 1);
          LookupAbsent(cs, vs, c);
        }
      }
    }
  }

  /**
   * Expanding the CSR arrays `InitOrderedValues` writes reproduces the dense
   * matrix: row r's segment, looked up at any column c, is `mat[r][c]`.
   */
  lemma RoundTrip(m: seq<seq<Value>>, r: nat, c: int)
    requires r < |m| && 0 <= c < |m[r]|
    ensures Lookup(StoredRow(m, r).0, StoredRow(m, r).1, c) == m[r][c]
  {
    StoredRowIs(m, r);
    RowLookup(m[r], |m[r]|, c);
  }

  /** Row r's cells of the `col_idx` and `values` compressed from m. */
  function StoredRow(m: seq<seq<Value>>, r: nat): (s: (seq<int>, seq<Value>))
    requires r < |m|
    ensures |s.0| == |s.1|
  {
    ColsGrow(m, r + 1, |m|);
    (Cols(m, |m|)[|Cols(m, r)|..|Cols(m, r + 1)|], Vals(m, |m|)[|Cols(m, r)|..|Cols(m, r + 1)|])
  }

  lemma StoredRowIs(m: seq<seq<Value>>, r: nat)
    requires r < |m|
    ensures StoredRow(m, r) == (RowCols(m[r], |m[r]|), RowVals(m[r], |m[r]|))
  {
    ColsSegment(m, r);
  }

  /* ---------- What `SeqSpMM` adds ---------- */

  /** Σ_t vals[t] * dense[cols[t]][k], over one stored row, as an int. */
  function Dot(cols: seq<int>, vals: seq<Value>, dense: seq<seq<Value>>, k: int): int
    requires |cols| == |vals| && 0 <= k
    requires forall t :: 0 <= t < |cols| ==> 0 <= cols[t] < |dense| && k < |dense[cols[t]]|
  {
    if |cols| == 0 then 0
    else
      var n := |cols| - 1;
      Dot(cols[..n], vals[..n], dense, k) + vals[n] as int * dense[cols[n]][k] as int
  }

  /** Σ_{c < n} row[c] * dense[c][k]: cell k of a row of the dense product. */
  function DenseDot(row: seq<Value>, dense: seq<seq<Value>>, k: int, n: nat): int
    requires n <= |row| && n <= |dense| && 0 <= k
    requires forall c :: 0 <= c < n ==> k < |dense[c]|
  {
    if n == 0 then 0 else DenseDot(row, dense, k, n - 1) + row[n - 1] as int * dense[n - 1][k] as int
  }

  /** Skipping the zero cells does not change the sum: a stored row's Dot is the dense row's. */
  lemma {:induction false} RowDot(row: seq<Value>, dense: seq<seq<Value>>, k: int, n: nat)
    requires n <= |row| && n <= |dense| && 0 <= k
    requires forall c :: 0 <= c < n ==> k < |dense[c]|
    ensures forall t :: 0 <= t < |RowCols(row, n)| ==> 0 <= RowCols(row, n)[t] < n
    ensures Dot(RowCols(row, n), RowVals(row, n), dense, k) == DenseDot(row, dense, k, n)
  {
    RowColsRange(row, n);
    if n > 0 {
      RowDot(row, dense, k, n - 1);
      assert Below(RowCols(row, n), n) && Below(RowCols(row, n - 1), n - 1);
      if row[n - 1] != 0 {
        RowDotStored(row, dense, k, n);
      } else {
        RowDotSkipped(row, dense, k, n);
      }
    }
  }

  /** Every column of cs is in 0 .. n - 1. */
  ghost predicate Below(cs: seq<int>, n: int)
  {
    forall t :: 0 <= t < |cs| ==> 0 <= cs[t] < n
  }

  /** A non-zero cell n - 1 adds the same term to both sums. */
  lemma RowDotStored(row: seq<Value>, dense: seq<seq<Value>>, k: int, n: nat)
    requires 0 < n <= |row| && n <= |dense| && 0 <= k && row[n - 1] != 0
    requires forall c :: 0 <= c < n ==> k < |dense[c]|
    requires Below(RowCols(row, n), n) && Below(RowCols(row, n - 1), n - 1)
    requires Dot(RowCols(row, n - 1), RowVals(row, n - 1), dense, k) == DenseDot(row, dense, k, n - 1)
    ensures Dot(RowCols(row, n), RowVals(row, n), dense, k) == DenseDot(row, dense, k, n)
  {
    var cs, vs := RowCols(row, n), RowVals(row, n);
    assert cs[..|cs| - 1] == RowCols(row, n - 1) && vs[..|vs| - 1] == RowVals(row, n - 1);
  }

  /** A zero cell n - 1 adds nothing to either sum. */
  lemma RowDotSkipped(row: seq<Value>, dense: seq<seq<Value>>, k: int, n: nat)
    requires 0 < n <= |row| && n <= |dense| && 0 <= k && row[n - 1] == 0
    requires forall c :: 0 <= c < n ==> k < |dense[c]|
    requires Below(RowCols(row, n), n) && Below(RowCols(row, n - 1), n - 1)
    requires Dot(RowCols(row, n - 1), RowVals(row, n - 1), dense, k) == DenseDot(row, dense, k, n - 1)
    ensures Dot(RowCols(row, n), RowVals(row, n), dense, k) == DenseDot(row, dense, k, n)
  {
    assert RowCols(row, n) == RowCols(row, n - 1) && RowVals(row, n) == RowVals(row, n - 1);
  }

  /**
   * For the CSR arrays `InitOrderedValues` writes from m, what `SeqSpMM`
   * adds to `res[i][k]` is cell (i, k) of the product of m with the dense
   * matrix.
   */
  lemma Product(m: seq<seq<Value>>, cols: nat, dense: seq<seq<Value>>, k: int, i: nat)
    requires Dense(m, |m|, cols) && |dense| == cols && i < |m| && 0 <= k
    requires forall c :: 0 <= c < cols ==> k < |dense[c]|
    ensures forall t :: 0 <= t < |StoredRow(m, i).0| ==> 0 <= StoredRow(m, i).0[t] < cols
    ensures Dot(StoredRow(m, i).0, StoredRow(m, i).1, dense, k) == DenseDot(m[i], dense, k, cols)
  {
    StoredRowIs(m, i);
    RowDot(m[i], dense, k, cols);
  }

  /** Adding stored cell j to a sum over cells lo .. j - 1, truncating as it goes, gives the sum over lo .. j. */
  lemma Accumulate(before: int, mid: Value, after: Value, cols: seq<int>, vals: seq<Value>, dense: seq<seq<Value>>, k: int, lo: int, j: int)
    requires 0 <= lo <= j < |cols| == |vals| && 0 <= k
    requires forall t :: lo <= t <= j ==> 0 <= cols[t] < |dense| && k < |dense[cols[t]]|
    requires mid == Store(before + Dot(cols[lo..j], vals[lo..j], dense, k))
    requires after == Store(mid as int + vals[j] as int * dense[cols[j]][k] as int)
    ensures after == Store(before + Dot(cols[lo..j + 1], vals[lo..j + 1], dense, k))
  {
    assert cols[lo..j + 1][..j - lo] == cols[lo..j] && vals[lo..j + 1][..j - lo] == vals[lo..j];
    StoreAdd(before + Dot(cols[lo..j], vals[lo..j], dense, k), vals[j] as int * dense[cols[j]][k] as int);
  }

  /** The cells `ptr[i] .. ptr[i+1]` of each row lie in `col_idx` and name a dense row. */
  ghost predicate Readable(ptr: seq<int>, cols: seq<int>, vals: seq<Value>, denseRows: int)
  {
    |cols| == |vals| && forall i :: 0 <= i < |ptr| - 1 ==> RowReadable(ptr[i], ptr[i + 1], cols, denseRows)
  }

  /** Cells lo .. hi - 1 lie in `col_idx` and name a dense row. */
  ghost predicate RowReadable(lo: int, hi: int, cols: seq<int>, denseRows: int)
  {
    (lo < hi ==> 0 <= lo && hi <= |cols|) && forall j :: lo <= j < hi ==> 0 <= cols[j] < denseRows
  }

  /** The row pointers of the compressed m, `row_ptr[row_num]` included. */
  function Pointers(m: seq<seq<Value>>): (p: seq<int>)
    ensures |p| == |m| + 1
  {
    seq(|m| + 1, r => if 0 <= r <= |m| then |Cols(m, r)| else 0)
  }

  /** The compressed matrix is one `SeqSpMM` can read: every row's cells lie in `col_idx` and name a column. */
  lemma Compressed(m: seq<seq<Value>>, cols: int)
    requires Dense(m, |m|, cols)
    ensures Readable(Pointers(m), Cols(m, |m|), Vals(m, |m|), cols)
  {
    forall i | 0 <= i < |m|
      ensures RowReadable(Pointers(m)[i], Pointers(m)[i + 1], Cols(m, |m|), cols)
    {
      CompressedAt(m, cols, i);
    }
  }

  lemma CompressedAt(m: seq<seq<Value>>, cols: int, i: nat)
    requires Dense(m, |m|, cols) && i < |m|
    ensures RowReadable(Pointers(m)[i], Pointers(m)[i + 1], Cols(m, |m|), cols)
  {
    PointerAt(m, i);
    PointerAt(m, i + 1);
    CompressedRow(m, cols, i);
  }

  lemma PointerAt(m: seq<seq<Value>>, r: nat)
    requires r <= |m|
    ensures Pointers(m)[r] == |Cols(m, r)|
  {
  }

  lemma CompressedRow(m: seq<seq<Value>>, cols: int, i: nat)
    requires i < |m| && |m[i]| == cols
    ensures RowReadable(|Cols(m, i)|, |Cols(m, i + 1)|, Cols(m, |m|), cols)
  {
    var c := Cols(m, |m|);
    var lo := |Cols(m, i)|;
    var hi := |Cols(m, i + 1)|;
    ColsSegment(m, i);
    var seg := c[lo..hi];
    assert seg == RowCols(m[i], cols);
    RowColsRange(m[i], cols);
    forall j | lo <= j < hi
      ensures 0 <= c[j] < cols
    {
      assert c[j] == seg[j - lo];
    }
  }

  /* ---------- The class ---------- */

  class MatCSR {
    const rowNum: int
    const colNum: int
    const rowPtr: array<int>
    const colIdx: array<int>
    const values: array<Value>

    /** The sizes the constructor allocates. */
    ghost predicate Valid()
      reads this
    {
      0 <= rowNum && 0 <= colNum && rowPtr.Length == rowNum + 1
      && colIdx.Length == values.Length && rowPtr != colIdx
    }

    /** `row_ptr[row_num]`: the number of stored cells. */
    function GetNZNum(): int
      reads this, rowPtr
      requires Valid()
    {
      rowPtr[rowNum]
    }

    /**
     * Allocates `row_num + 1` row pointers and `nz_num` cells, and records
     * `nz_num` as the last row pointer; the other cells are not initialised.
     */
    constructor (rowNum: int, colNum: int, nzNum: int)
      requires 0 <= rowNum && 0 <= colNum && 0 <= nzNum
      ensures Valid() && this.rowNum == rowNum && this.colNum == colNum
      ensures colIdx.Length == nzNum && GetNZNum() == nzNum
      ensures fresh(rowPtr) && fresh(colIdx) && fresh(values)
    {
      this.rowNum := rowNum;
      this.colNum := colNum;
      var p := new int[rowNum + 1];
      p[rowNum] := nzNum;
      rowPtr := p;
      colIdx := new int[nzNum];
      values := new Value[nzNum];
    }

    /**
     * Compresses the dense `row_num` x `col_num` matrix mat: row pointer r
     * becomes the number of non-zero cells in the rows above, and those
     * cells' columns and values fill `col_idx` and `values` from the
     * start. The last row pointer is left as the constructor set it. The
     * caller must have allocated room for every non-zero cell.
     */
    method InitOrderedValues(mat: seq<seq<Value>>) returns (ok: bool)
      requires Valid() && Dense(mat, rowNum, colNum) && |Cols(mat, rowNum)| <= colIdx.Length
      modifies rowPtr, colIdx, values
      ensures ok && GetNZNum() == old(GetNZNum())
      ensures forall r :: 0 <= r < rowNum ==> rowPtr[r] == |Cols(mat, r)|
      ensures colIdx[..] == Overwrite(old(colIdx[..]), 0, Cols(mat, rowNum))
      ensures values[..] == Overwrite(old(values[..]), 0, Vals(mat, rowNum))
      ensures old(GetNZNum()) == colIdx.Length == |Cols(mat, rowNum)| ==>
                rowPtr[..] == Pointers(mat) && colIdx[..] == Cols(mat, rowNum) && values[..] == Vals(mat, rowNum)
    {
      ghost var c0, v0, nz := colIdx[..], values[..], GetNZNum();
      var t := 0;
      for r := 0 to rowNum
        invariant t == |Cols(mat, r)| <= |Cols(mat, rowNum)|
        invariant rowPtr[rowNum] == old(rowPtr[rowNum])
        invariant forall p :: 0 <= p < r ==> rowPtr[p] == |Cols(mat, p)|
        invariant colIdx[..] == Overwrite(c0, 0, Cols(mat, r))
        invariant values[..] == Overwrite(v0, 0, Vals(mat, r))
      {
        t := CompressRow(mat, r, t, c0, v0);
      }
      if nz == colIdx.Length == |Cols(mat, rowNum)| {
        Filled(mat, c0, v0);
      }
      return true;
    }

    /** With exactly as many cells as non-zero entries, the arrays are the compressed matrix. */
    lemma Filled(mat: seq<seq<Value>>, c0: seq<int>, v0: seq<Value>)
      requires Valid() && |mat| == rowNum && GetNZNum() == |Cols(mat, rowNum)| == colIdx.Length == |c0| == |v0|
      requires forall p :: 0 <= p < rowNum ==> rowPtr[p] == |Cols(mat, p)|
      requires colIdx[..] == Overwrite(c0, 0, Cols(mat, rowNum)) && values[..] == Overwrite(v0, 0, Vals(mat, rowNum))
      ensures rowPtr[..] == Pointers(mat) && colIdx[..] == Cols(mat, rowNum) && values[..] == Vals(mat, rowNum)
    {
      OverwriteAll(c0, Cols(mat, rowNum));
      OverwriteAll(v0, Vals(mat, rowNum));
    }

    /** One pass of the row loop: record row r's pointer, then scan its columns. */
    method CompressRow(mat: seq<seq<Value>>, r: int, t0: nat, ghost c0: seq<int>, ghost v0: seq<Value>) returns (t: nat)
      requires Valid() && Dense(mat, rowNum, colNum) && 0 <= r < rowNum
      requires t0 == |Cols(mat, r)| <= |Cols(mat, rowNum)| <= colIdx.Length == |c0| == |v0|
      requires colIdx[..] == Overwrite(c0, 0, Cols(mat, r)) && values[..] == Overwrite(v0, 0, Vals(mat, r))
      modifies rowPtr, colIdx, values
      ensures t == |Cols(mat, r + 1)| <= |Cols(mat, rowNum)|
      ensures forall p :: 0 <= p <= rowNum ==> rowPtr[p] == if p == r then t0 else old(rowPtr[p])
      ensures colIdx[..] == Overwrite(c0, 0, Cols(mat, r + 1))
      ensures values[..] == Overwrite(v0, 0, Vals(mat, r + 1))
    {
      rowPtr[r] := t0;
      ColsGrow(mat, r + 1, rowNum);
      t := ScanRow(mat[r], t0);
      OverwriteTwice(c0, Cols(mat, r), RowCols(mat[r], colNum));
      OverwriteTwice(v0, Vals(mat, r), RowVals(mat[r], colNum));
    }

    /** The column loop of one row: its non-zero cells go to `col_idx` / `values` from cell t0 on. */
    method ScanRow(row: seq<Value>, t0: nat) returns (t: nat)
      requires Valid() && |row| == colNum && t0 + |RowCols(row, colNum)| <= colIdx.Length
      modifies colIdx, values
      ensures t == t0 + |RowCols(row, colNum)|
      ensures colIdx[..] == Overwrite(old(colIdx[..]), t0, RowCols(row, colNum))
      ensures values[..] == Overwrite(old(values[..]), t0, RowVals(row, colNum))
    {
      ghost var c0, v0 := colIdx[..], values[..];
      t := t0;
      for c := 0 to colNum
        invariant t == t0 + |RowCols(row, c)| <= t0 + |RowCols(row, colNum)|
        invariant colIdx[..] == Overwrite(c0, t0, RowCols(row, c))
        invariant values[..] == Overwrite(v0, t0, RowVals(row, c))
      {
        t := ScanCell(row, c, t, t0, c0, v0);
      }
    }

    /** One turn of the column loop: a non-zero cell c is stored at t and t advances. */
    method ScanCell(row: seq<Value>, c: nat, t: nat, ghost t0: nat, ghost c0: seq<int>, ghost v0: seq<Value>)
      returns (t': nat)
      requires Valid() && |row| == colNum && c < colNum && |c0| == colIdx.Length && |v0| == values.Length
      requires t == t0 + |RowCols(row, c)| <= t0 + |RowCols(row, colNum)| <= colIdx.Length
      requires colIdx[..] == Overwrite(c0, t0, RowCols(row, c)) && values[..] == Overwrite(v0, t0, RowVals(row, c))
      modifies colIdx, values
      ensures t' == t0 + |RowCols(row, c + 1)| <= t0 + |RowCols(row, colNum)|
      ensures colIdx[..] == Overwrite(c0, t0, RowCols(row, c + 1)) && values[..] == Overwrite(v0, t0, RowVals(row, c + 1))
    {
      RowColsGrow(row, c + 1, colNum);
      if row[c] != 0 {
        assert RowCols(row, c + 1) == RowCols(row, c) + [c] && RowVals(row, c + 1) == RowVals(row, c) + [row[c]];
        OverwriteNext(c0, t0, RowCols(row, c), c);
        OverwriteNext(v0, t0, RowVals(row, c), row[c]);
        StoreCell(t, c, row[c]);
        t' := t + 1;
      } else {
        assert RowCols(row, c + 1) == RowCols(row, c) && RowVals(row, c + 1) == RowVals(row, c);
        t' := t;
      }
    }

    /** `*col_idx_tr = c; *values_tr = mat[r][c];` */
    method StoreCell(t: int, c: int, v: Value)
      requires Valid() && 0 <= t < colIdx.Length
      modifies colIdx, values
      ensures colIdx[..] == old(colIdx[..])[t := c] && values[..] == old(values[..])[t := v]
    {
      colIdx[t] := c;
      values[t] := v;
    }

    /**
     * `res[i][k] += values[j] * dense[col_idx[j]][k]` for every stored cell
     * j of row i and every k, each sum truncated to `unsigned char` when
     * stored; only `res_mat` changes.
     */
    method SeqSpMM(dense: seq<seq<Value>>, res: array2<Value>, denseColNum: int) returns (ok: bool)
      requires Valid() && Dense(dense, colNum, denseColNum)
      requires Readable(rowPtr[..], colIdx[..], values[..], colNum)
      requires res.Length0 == rowNum && res.Length1 == denseColNum
      modifies res
      ensures ok
      ensures forall i, k :: 0 <= i < rowNum && 0 <= k < denseColNum ==>
                res[i, k] == Store(old(res[i, k]) as int + RowProduct(dense, i, k))
    {
      for i := 0 to rowNum
        invariant forall p, k :: 0 <= p < i && 0 <= k < denseColNum ==>
                    res[p, k] == Store(old(res[p, k]) as int + RowProduct(dense, p, k))
        invariant forall p, k :: i <= p < rowNum && 0 <= k < denseColNum ==> res[p, k] == old(res[p, k])
      {
        MultiplyRow(dense, res, denseColNum, i);
      }
      return true;
    }

    /** Row i's cells of `col_idx` and `values`. */
    ghost function Segment(i: int): (s: (seq<int>, seq<Value>))
      reads this, rowPtr, colIdx, values
      requires Valid() && 0 <= i < rowNum && Readable(rowPtr[..], colIdx[..], values[..], colNum)
      ensures |s.0| == |s.1| && forall t :: 0 <= t < |s.0| ==> 0 <= s.0[t] < colNum
    {
      var lo := rowPtr[i];
      var hi := rowPtr[i + 1];
      if hi <= lo then ([], [])
      else
        assert rowPtr[..][i] == lo && rowPtr[..][i + 1] == hi;
        assert 0 <= lo && hi <= colIdx.Length;
        (colIdx[lo..hi], values[lo..hi])
    }

    /** Σ over row i's stored cells j of `values[j] * dense[col_idx[j]][k]`. */
    ghost function RowProduct(dense: seq<seq<Value>>, i: int, k: int): int
      reads this, rowPtr, colIdx, values
      requires Valid() && 0 <= i < rowNum && Readable(rowPtr[..], colIdx[..], values[..], colNum)
      requires |dense| == colNum && 0 <= k && forall c :: 0 <= c < colNum ==> k < |dense[c]|
    {
      Dot(Segment(i).0, Segment(i).1, dense, k)
    }

    /**
     * Compressing mat with `InitOrderedValues` (into arrays of exactly its
     * non-zero count) and then running `SeqSpMM` adds to `res[i][k]` cell
     * (i, k) of the dense product of mat with dense.
     */
    lemma CompressedProduct(mat: seq<seq<Value>>, dense: seq<seq<Value>>, denseColNum: int, i: int, k: int)
      requires Valid() && Dense(mat, rowNum, colNum) && Dense(dense, colNum, denseColNum)
      requires rowPtr[..] == Pointers(mat) && colIdx[..] == Cols(mat, rowNum) && values[..] == Vals(mat, rowNum)
      requires 0 <= i < rowNum && 0 <= k < denseColNum
      ensures Readable(rowPtr[..], colIdx[..], values[..], colNum)
      ensures RowProduct(dense, i, k) == DenseDot(mat[i], dense, k, colNum)
    {
      Compressed(mat, colNum);
      PointerAt(mat, i);
      PointerAt(mat, i + 1);
      ColsGrow(mat, i + 1, rowNum);
      assert rowPtr[..][i] == rowPtr[i] && rowPtr[..][i + 1] == rowPtr[i + 1];
      var lo, hi := rowPtr[i], rowPtr[i + 1];
      assert Segment(i) == StoredRow(mat, i) by {
        ColsGrow(mat, i, i + 1);
        assert colIdx[lo..hi] == colIdx[..][lo..hi] && values[lo..hi] == values[..][lo..hi];
      }
      Product(mat, colNum, dense, k, i);
    }

    /** The loop over row i's stored cells. */
    method MultiplyRow(dense: seq<seq<Value>>, res: array2<Value>, denseColNum: int, i: int)
      requires Valid() && Dense(dense, colNum, denseColNum) && 0 <= i < rowNum
      requires Readable(rowPtr[..], colIdx[..], values[..], colNum)
      requires res.Length0 == rowNum && res.Length1 == denseColNum
      modifies res
      ensures forall k :: 0 <= k < denseColNum ==> res[i, k] == Store(old(res[i, k]) as int + RowProduct(dense, i, k))
      ensures forall p, k :: 0 <= p < rowNum && p != i && 0 <= k < denseColNum ==> res[p, k] == old(res[p, k])
    {
      var lo, hi := rowPtr[i], rowPtr[i + 1];
      assert RowReadable(lo, hi, colIdx[..], colNum) by {
        assert rowPtr[..][i] == lo && rowPtr[..][i + 1] == hi;
      }
      if hi <= lo {
        return;
      }
      ghost var base := seq(denseColNum, k requires 0 <= k < denseColNum reads res => res[i, k] as int);
      var j := lo;
      while j < hi
        invariant lo <= j <= hi <= colIdx.Length
        invariant forall k :: 0 <= k < denseColNum ==> base[k] == old(res[i, k]) as int
        invariant forall k :: 0 <= k < denseColNum ==>
                    res[i, k] == Store(base[k] + Dot(colIdx[lo..j], values[lo..j], dense, k))
        invariant forall p, k :: 0 <= p < rowNum && p != i && 0 <= k < denseColNum ==> res[p, k] == old(res[p, k])
      {
        AddCell(dense, res, denseColNum, i, lo, j, base);
        j := j + 1;
      }
    }

    /** One turn of the cell loop of row i: cell j joins the dot products accumulated on base. */
    method AddCell(dense: seq<seq<Value>>, res: array2<Value>, denseColNum: int, i: int, lo: int, j: int,
                   ghost base: seq<int>)
      requires Valid() && Dense(dense, colNum, denseColNum) && 0 <= i < rowNum
      requires 0 <= lo <= j < colIdx.Length && RowReadable(lo, j + 1, colIdx[..], colNum)
      requires res.Length0 == rowNum && res.Length1 == denseColNum && |base| == denseColNum
      requires forall k :: 0 <= k < denseColNum ==>
                 res[i, k] == Store(base[k] + Dot(colIdx[lo..j], values[lo..j], dense, k))
      modifies res
      ensures forall k :: 0 <= k < denseColNum ==>
                res[i, k] == Store(base[k] + Dot(colIdx[lo..j + 1], values[lo..j + 1], dense, k))
      ensures forall p, k :: 0 <= p < rowNum && p != i && 0 <= k < denseColNum ==> res[p, k] == old(res[p, k])
    {
      assert 0 <= colIdx[..][j] < colNum;
      MultiplyCell(dense, res, denseColNum, i, j);
      ghost var cs := colIdx[lo..j + 1];
      assert forall t :: 0 <= t < |cs| ==> 0 <= cs[t] < |dense| && |dense[cs[t]]| == denseColNum;
      forall k | 0 <= k < denseColNum
        ensures res[i, k] == Store(base[k] + Dot(colIdx[lo..j + 1], values[lo..j + 1], dense, k))
      {
        Accumulate(base[k], old(res[i, k]), res[i, k], colIdx[..], values[..], dense, k, lo, j);
      }
    }

    /** The innermost loop: stored cell j of row i into every column k of res row i. */
    method MultiplyCell(dense: seq<seq<Value>>, res: array2<Value>, denseColNum: int, i: int, j: int)
      requires Valid() && Dense(dense, colNum, denseColNum) && 0 <= i < rowNum
      requires 0 <= j < colIdx.Length && 0 <= colIdx[j] < colNum
      requires res.Length0 == rowNum && res.Length1 == denseColNum
      modifies res
      ensures forall k :: 0 <= k < denseColNum ==>
                res[i, k] == Store(old(res[i, k]) as int + values[j] as int * dense[colIdx[j]][k] as int)
      ensures forall p, k :: 0 <= p < rowNum && p != i && 0 <= k < denseColNum ==> res[p, k] == old(res[p, k])
    {
      for k := 0 to denseColNum
        invariant forall q :: 0 <= q < k ==>
                    res[i, q] == Store(old(res[i, q]) as int + values[j] as int * dense[colIdx[j]][q] as int)
        invariant forall q :: k <= q < denseColNum ==> res[i, q] == old(res[i, q])
        invariant forall p, q :: 0 <= p < rowNum && p != i && 0 <= q < denseColNum ==> res[p, q] == old(res[p, q])
      {
        res[i, k] := Store(res[i, k] as int + values[j] as int * dense[colIdx[j]][k] as int);
      }
    }
  }
}
