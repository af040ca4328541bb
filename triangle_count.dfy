/**
 * The triangle-count workload of tc.cpp: the per-row vectors gathered from
 * the coordinate entries (diagonal skipped), their assembly into CSR arrays
 * `row_ptr_stream` / `row_ptr_random` / `col_idx`, the four-loop
 * `TC_kernel` accumulating into `TC_tot`, and the reported `TC_tot / 6`.
 */
module TriangleCount {
  import opened CsrGraph

  /* ---------- Sorting a row (`std::sort` on a row vector) ---------- */

  ghost predicate Ascending(s: seq<int>)
  {
    forall i, j :: 0 <= i < j < |s| ==> s[i] <= s[j]
  }

  /** x inserted before the first element not below it. */
  function Insert(x: int, s: seq<int>): (r: seq<int>)
    ensures |r| == |s| + 1
  {
    if |s| == 0 || x <= s[0] then [x] + s else [s[0]] + Insert(x, s[1..])
  }

  /** Insert adds x once and keeps an ascending sequence ascending. */
  lemma InsertCorrect(x: int, s: seq<int>)
    ensures multiset(Insert(x, s)) == multiset(s) + multiset{x}
    ensures Ascending(s) ==> Ascending(Insert(x, s))
  {
    InsertCount(x, s);
    if Ascending(s) {
      InsertAscending(x, s);
    }
  }

  lemma {:induction false} InsertCount(x: int, s: seq<int>)
    ensures multiset(Insert(x, s)) == multiset(s) + multiset{x}
  {
    if |s| > 0 && x > s[0] {
      InsertCount(x, s[1..]);
      assert s == [s[0]] + s[1..];
    }
  }

  /** No element of s is below b. */
  ghost predicate AtLeast(s: seq<int>, b: int)
  {
    forall i :: 0 <= i < |s| ==> b <= s[i]
  }

  lemma {:induction false} InsertAtLeast(x: int, s: seq<int>, b: int)
    requires AtLeast(s, b) && b <= x
    ensures AtLeast(Insert(x, s), b)
  {
    if |s| > 0 && x > s[0] {
      InsertAtLeast(x, s[1..], b);
    }
  }

  lemma {:induction false} InsertAscending(x: int, s: seq<int>)
    requires Ascending(s)
    ensures Ascending(Insert(x, s))
  {
    if |s| > 0 && x > s[0] {
      var t := Insert(x, s[1..]);
      InsertAscending(x, s[1..]);
      InsertAtLeast(x, s[1..], s[0]);
      ConsAscending(s[0], t);
    }
  }

  /** Putting a lower bound of an ascending sequence in front keeps it ascending. */
  lemma ConsAscending(b: int, t: seq<int>)
    requires AtLeast(t, b) && Ascending(t)
    ensures Ascending([b] + t)
  {
    var u := [b] + t;
    forall i, j | 0 <= i < j < |u|
      ensures u[i] <= u[j]
    {
      assert u[j] == t[j - 1];
      if i > 0 {
        assert u[i] == t[i - 1];
      }
    }
  }

  /** The ascending rearrangement of s: what `sort(row_vec[i].begin(), row_vec[i].end())` leaves. */
  function Sort(s: seq<int>): (r: seq<int>)
    ensures |r| == |s|
  {
    if |s| == 0 then [] else Insert(s[0], Sort(s[1..]))
  }

  /** Sort's result is ascending and a rearrangement of its input. */
  lemma {:induction false} SortCorrect(s: seq<int>)
    ensures Ascending(Sort(s)) && multiset(Sort(s)) == multiset(s)
  {
    if |s| > 0 {
      SortCorrect(s[1..]);
      InsertCorrect(s[0], Sort(s[1..]));
      assert s == [s[0]] + s[1..];
    }
  }

  /* ---------- The assembled CSR arrays (lines 72-81) ---------- */

  /** `row_ptr_stream[i]` after the assembly: the lengths of the rows below i. */
  function Offsets(rows: seq<seq<int>>, i: nat): nat
    requires i <= |rows|
  {
    if i == 0 then 0 else Offsets(rows, i - 1) + |rows[i - 1]|
  }

  /** `col_idx` after the assembly of the rows below i: each row sorted, in row order. */
  function Flat(rows: seq<seq<int>>, i: nat): (c: seq<int>)
    requires i <= |rows|
    ensures |c| == Offsets(rows, i)
  {
    if i == 0 then [] else Flat(rows, i - 1) + Sort(rows[i - 1])
  }

  /** The row pointers of the assembled graph. */
  function Pointers(rows: seq<seq<int>>): (p: seq<int>)
    ensures |p| == |rows| + 1
  {
    seq(|rows| + 1, i requires 0 <= i <= |rows| => Offsets(rows, i))
  }

  lemma {:induction false} OffsetsGrow(rows: seq<seq<int>>, i: nat, n: nat)
    requires i <= n <= |rows|
    decreases n - i
    ensures Offsets(rows, i) <= Offsets(rows, n)
  {
    if i < n {
      OffsetsGrow(rows, i, n - 1);
    }
  }

  /** Row i's segment of the assembled `col_idx`: cells `row_ptr_stream[i]` up to `row_ptr_stream[i+1]`. */
  function Segment(rows: seq<seq<int>>, i: nat): seq<int>
    requires i < |rows|
  {
    OffsetsGrow(rows, i, |rows|);
    OffsetsGrow(rows, i + 1, |rows|);
    Flat(rows, |rows|)[Offsets(rows, i)..Offsets(rows, i + 1)]
  }

  /** Within the first n rows, row i's cells are row i sorted. */
  lemma {:induction false} FlatSorted(rows: seq<seq<int>>, n: nat, i: nat)
    requires i < n <= |rows|
    ensures 0 <= Offsets(rows, i) <= Offsets(rows, i + 1) <= Offsets(rows, n)
    ensures Flat(rows, n)[Offsets(rows, i)..Offsets(rows, i + 1)] == Sort(rows[i])
  {
    var a, b := Flat(rows, n - 1), Sort(rows[n - 1]);
    var x, y := Offsets(rows, i), Offsets(rows, i + 1);
    assert Flat(rows, n) == a + b && |a| == Offsets(rows, n - 1) && |b| == |rows[n - 1]|;
    assert Offsets(rows, n) == |a| + |b|;
    if i < n - 1 {
      FlatSorted(rows, n - 1, i);
      SliceOfPrefix(a, b, x, y);
    } else {
      SliceOfSuffix(a, b);
    }
  }

  lemma SliceOfSuffix(a: seq<int>, b: seq<int>)
    ensures (a + b)[|a|..|a| + |b|] == b
  {
  }

  lemma SliceOfPrefix(a: seq<int>, b: seq<int>, x: int, y: int)
    requires 0 <= x <= y <= |a|
    ensures (a + b)[x..y] == a[x..y]
  {
  }

  /**
   * Row i's segment holds row i in ascending order: as long as the row,
   * ascending, with the same columns the same number of times.
   */
  lemma SegmentSorted(rows: seq<seq<int>>, i: nat)
    requires i < |rows|
    ensures Offsets(rows, i + 1) - Offsets(rows, i) == |rows[i]|
    ensures Segment(rows, i) == Sort(rows[i])
    ensures Ascending(Segment(rows, i)) && multiset(Segment(rows, i)) == multiset(rows[i])
  {
    FlatSorted(rows, |rows|, i);
    SortCorrect(rows[i]);
  }

  /** Every cell of the assembled `col_idx` is a column of some row. */
  lemma {:induction false} FlatCells(rows: seq<seq<int>>, n: nat, k: nat)
    requires n <= |rows| && k < |Flat(rows, n)|
    ensures exists r :: 0 <= r < n && Flat(rows, n)[k] in rows[r]
  {
    var c := Flat(rows, n);
    if k < |Flat(rows, n - 1)| {
      FlatCells(rows, n - 1, k);
      assert c[k] == Flat(rows, n - 1)[k];
    } else {
      SortCorrect(rows[n - 1]);
      var x := Sort(rows[n - 1])[k - |Flat(rows, n - 1)|];
      assert x in multiset(Sort(rows[n - 1]));
      assert c[k] == x && x in rows[n - 1];
    }
  }

  /**
   * When every row names nodes, the assembled arrays form a CSR graph with
   * `nnz` cells, the row pointers starting at 0.
   */
  lemma Assembled(rows: seq<seq<int>>)
    requires forall r, x :: 0 <= r < |rows| && x in rows[r] ==> 0 <= x < |rows|
    ensures Graph(Pointers(rows), Flat(rows, |rows|), |rows|)
    ensures Pointers(rows)[0] == 0 && Pointers(rows)[|rows|] == |Flat(rows, |rows|)|
  {
    var c := Flat(rows, |rows|);
    var p := Pointers(rows);
    forall r | 0 <= r <= |rows|
      ensures p[r] <= |c|
    {
      OffsetsGrow(rows, r, |rows|);
    }
    forall k | 0 <= k < |c|
      ensures 0 <= c[k] < |rows|
    {
      FlatCells(rows, |rows|, k);
    }
  }

  /** No assembled row lists its own node when the gathered rows do not. */
  lemma OffDiagonalSegments(rows: seq<seq<int>>)
    requires forall i, x :: 0 <= i < |rows| && x in rows[i] ==> x != i
    ensures forall i :: 0 <= i < |rows| ==> i !in Segment(rows, i)
  {
    forall i | 0 <= i < |rows|
      ensures i !in Segment(rows, i)
    {
      SegmentSorted(rows, i);
      assert i !in rows[i];
      assert i !in multiset(Segment(rows, i));
    }
  }

  /* ---------- Gathering rows from coordinate entries (lines 65-70) ---------- */

  /**
   * The row vectors after reading entries (r, c), 1-based: every
   * off-diagonal entry appends c - 1 to row r - 1, in input order.
   */
  function Rows(coo: seq<(int, int)>, nrow: nat): (rows: seq<seq<int>>)
    requires forall e :: e in coo ==> 1 <= e.0 <= nrow
    ensures |rows| == nrow
  {
    if |coo| == 0 then seq(nrow, _ => [])
    else
      var rows := Rows(coo[..|coo| - 1], nrow);
      var e := coo[|coo| - 1];
      if e.0 == e.1 then rows else rows[e.0 - 1 := rows[e.0 - 1] + [e.1 - 1]]
  }

  /** No row holds its own index: diagonal entries are never stored (line 67). */
  lemma {:induction false} RowsOffDiagonal(coo: seq<(int, int)>, nrow: nat)
    requires forall e :: e in coo ==> 1 <= e.0 <= nrow
    ensures forall i, x :: 0 <= i < nrow && x in Rows(coo, nrow)[i] ==> x != i
  {
    if |coo| > 0 {
      RowsOffDiagonal(coo[..|coo| - 1], nrow);
    }
  }

  /** Row i holds, in input order, the column of every off-diagonal entry of row i + 1. */
  lemma {:induction false} RowsCollect(coo: seq<(int, int)>, nrow: nat, i: nat)
    requires forall e :: e in coo ==> 1 <= e.0 <= nrow
    requires i < nrow
    ensures Rows(coo, nrow)[i] == Column(coo, i)
  {
    if |coo| > 0 {
      RowsCollect(coo[..|coo| - 1], nrow, i);
    }
  }

  /** The columns (0-based) of the off-diagonal entries of 0-based row i, in order. */
  function Column(coo: seq<(int, int)>, i: int): seq<int>
  {
    if |coo| == 0 then []
    else
      var e := coo[|coo| - 1];
      Column(coo[..|coo| - 1], i) + (if e.0 - 1 == i && e.0 != e.1 then [e.1 - 1] else [])
  }

  /** The entry loop: `if (r == c) continue; row_vec[r-1].push_back(c-1);` */
  method Gather(coo: seq<(int, int)>, nrow: nat) returns (rows: seq<seq<int>>)
    requires forall e :: e in coo ==> 1 <= e.0 <= nrow
    ensures rows == Rows(coo, nrow)
  {
    rows := seq(nrow, _ => []);
    for n := 0 to |coo|
      invariant rows == Rows(coo[..n], nrow)
    {
      assert coo[..n + 1][..n] == coo[..n];
      var e := coo[n];
      if e.0 != e.1 {
        rows := rows[e.0 - 1 := rows[e.0 - 1] + [e.1 - 1]];
      }
    }
    assert coo[..|coo|] == coo;
  }

  /* ---------- What TC_kernel adds up ---------- */

  /** #{l in [lo, hi) : c[l] == x} */
  function Hits(c: seq<int>, x: int, lo: int, hi: int): nat
    requires lo < hi ==> 0 <= lo && hi <= |c|
    decreases hi - lo
  {
    if hi <= lo then 0 else Hits(c, x, lo, hi - 1) + (if c[hi - 1] == x then 1 else 0)
  }

  /** #{(k, l) : k in [klo, khi), l in [llo, lhi), c[k] == c[l]} */
  function PairHits(c: seq<int>, klo: int, khi: int, llo: int, lhi: int): nat
    requires klo < khi ==> 0 <= klo && khi <= |c|
    requires llo < lhi ==> 0 <= llo && lhi <= |c|
    decreases khi - klo
  {
    if khi <= klo then 0 else PairHits(c, klo, khi - 1, llo, lhi) + Hits(c, c[khi - 1], llo, lhi)
  }

  /** The pairs counted for the j-th neighbour of row i: row i against the neighbour's row. */
  function NeighbourHits(stream: seq<int>, random: seq<int>, c: seq<int>, nrow: nat, i: int, j: int): nat
    requires Graph(stream, c, nrow) && Graph(random, c, nrow) && 0 <= i < nrow && 0 <= j < stream[i + 1] - stream[i]
  {
    var n := c[stream[i] + j];
    PairHits(c, stream[i], stream[i + 1], random[n], random[n + 1])
  }

  /** The sum over the first jhi neighbours of row i. */
  function RowHits(stream: seq<int>, random: seq<int>, c: seq<int>, nrow: nat, i: int, jhi: int): nat
    requires Graph(stream, c, nrow) && Graph(random, c, nrow) && 0 <= i < nrow && (0 < jhi ==> jhi <= stream[i + 1] - stream[i])
  {
    if jhi <= 0 then 0 else RowHits(stream, random, c, nrow, i, jhi - 1) + NeighbourHits(stream, random, c, nrow, i, jhi - 1)
  }

  /** The sum over rows below ihi: what `TC_kernel` adds to `TC_tot`. */
  function TriangleSum(stream: seq<int>, random: seq<int>, c: seq<int>, nrow: nat, ihi: int): nat
    requires Graph(stream, c, nrow) && Graph(random, c, nrow) && ihi <= nrow
  {
    if ihi <= 0 then 0
    else TriangleSum(stream, random, c, nrow, ihi - 1) + RowHits(stream, random, c, nrow, ihi - 1, stream[ihi] - stream[ihi - 1])
  }

  /** Hits counts the occurrences of x in the cells lo .. hi - 1. */
  lemma {:induction false} HitsCount(c: seq<int>, x: int, lo: int, hi: int)
    requires 0 <= lo <= hi <= |c|
    decreases hi - lo
    ensures Hits(c, x, lo, hi) == multiset(c[lo..hi])[x]
  {
    if lo < hi {
      HitsCount(c, x, lo, hi - 1);
      assert c[lo..hi] == c[lo..hi - 1] + [c[hi - 1]];
    }
  }

  /**
   * For rows without repeated columns, the pairs counted between two rows
   * are their common columns: each column of the first row meets at most
   * one equal cell in the second.
   */
  lemma {:induction false} PairHitsCommon(c: seq<int>, klo: int, khi: int, llo: int, lhi: int)
    requires 0 <= klo <= khi <= |c| && 0 <= llo <= lhi <= |c|
    requires forall l, m :: llo <= l < m < lhi ==> c[l] != c[m]
    decreases khi - klo
    ensures PairHits(c, klo, khi, llo, lhi) == |set k | klo <= k < khi && c[k] in c[llo..lhi]|
  {
    if klo < khi {
      PairHitsCommon(c, klo, khi - 1, llo, lhi);
      HitsOnce(c, c[khi - 1], llo, lhi);
      CommonStep(c, klo, khi, c[llo..lhi]);
    }
  }

  /** Cells lo .. hi - 1 without repeats hold x at most once. */
  lemma HitsOnce(c: seq<int>, x: int, lo: int, hi: int)
    requires 0 <= lo <= hi <= |c|
    requires forall l, m :: lo <= l < m < hi ==> c[l] != c[m]
    ensures Hits(c, x, lo, hi) == if x in c[lo..hi] then 1 else 0
  {
    var s := c[lo..hi];
    forall l, m | 0 <= l < m < |s|
      ensures s[l] != s[m]
    {
      assert s[l] == c[lo + l] && s[m] == c[lo + m];
    }
    HitsCount(c, x, lo, hi);
    DistinctMultiplicity(s, x);
  }

  /** Adding cell khi - 1 adds it to the cells whose value is in s exactly when its value is. */
  lemma CommonStep(c: seq<int>, klo: int, khi: int, s: seq<int>)
    requires 0 <= klo < khi <= |c|
    ensures |set k | klo <= k < khi && c[k] in s| == |set k | klo <= k < khi - 1 && c[k] in s| + (if c[khi - 1] in s then 1 else 0)
  {
    var before := set k | klo <= k < khi - 1 && c[k] in s;
    var after := set k | klo <= k < khi && c[k] in s;
    if c[khi - 1] in s {
      assert after == before + {khi - 1};
    } else {
      assert after == before;
    }
  }

  /** In a sequence without repeats every element occurs once. */
  lemma {:induction false} DistinctMultiplicity(s: seq<int>, x: int)
    requires forall l, m :: 0 <= l < m < |s| ==> s[l] != s[m]
    ensures multiset(s)[x] == if x in s then 1 else 0
  {
    if |s| > 0 {
      var t := s[..|s| - 1];
      assert s == t + [s[|s| - 1]];
      DistinctMultiplicity(t, x);
      if x == s[|s| - 1] {
        assert x !in t;
      }
    }
  }

  /** `print_TC`: `TC_tot / 6`, C integer division (truncation toward zero). */
  function Report(tot: int): (r: int)
    ensures tot >= 0 ==> 0 <= r && 6 * r <= tot < 6 * r + 6
    ensures tot < 0 ==> r <= 0 && 6 * r - 6 < tot <= 6 * r
  {
    if tot >= 0 then tot / 6 else -((-tot) / 6)
  }

  /* ---------- The globals and the two procedures ---------- */

  /** Row pointers after the assembly of rows 0 .. i - 1: the offsets up to i, zero after it. */
  ghost predicate PointersUpTo(a: seq<int>, rows: seq<seq<int>>, i: nat)
  {
    |a| == |rows| + 1 && i <= |rows| && forall r :: 0 <= r < |a| ==> a[r] == (if r <= i then Offsets(rows, r) else 0)
  }

  lemma PointersNext(a: seq<int>, rows: seq<seq<int>>, i: nat)
    requires PointersUpTo(a, rows, i) && i < |rows|
    ensures PointersUpTo(a[i + 1 := Offsets(rows, i + 1)], rows, i + 1)
  {
  }

  class Counter {
    const nrow: nat
    const rowPtrStream: array<int>
    const rowPtrRandom: array<int>
    var colIdx: seq<int>
    var tot: int

    ghost predicate Valid()
      reads this
    {
      rowPtrStream.Length == nrow + 1 && rowPtrRandom.Length == nrow + 1 && rowPtrStream != rowPtrRandom
    }

    /** A loaded graph: both row-pointer arrays describe `col_idx` as a CSR graph. */
    ghost predicate Loaded()
      reads this, rowPtrStream, rowPtrRandom
    {
      Valid() && Graph(rowPtrStream[..], colIdx, nrow) && Graph(rowPtrRandom[..], colIdx, nrow)
    }

    /** The zero-initialised globals: empty `col_idx`, zero row pointers and count. */
    constructor (nrow: nat)
      ensures Valid() && this.nrow == nrow && colIdx == [] && tot == 0
      ensures forall i :: 0 <= i <= nrow ==> rowPtrStream[i] == 0 && rowPtrRandom[i] == 0
      ensures fresh(rowPtrStream) && fresh(rowPtrRandom)
    {
      this.nrow := nrow;
      rowPtrStream := new int[nrow + 1](_ => 0);
      rowPtrRandom := new int[nrow + 1](_ => 0);
      colIdx := [];
      tot := 0;
    }

    /**
     * The end of `read_data` (lines 72-81): each row is sorted and appended
     * to `col_idx`; `row_ptr_stream[i+1]` becomes `row_ptr_stream[i]` plus
     * the row length, which relies on the arrays starting at zero, and
     * `row_ptr_random` copies it.
     */
    method Assemble(rows: seq<seq<int>>)
      requires Valid() && |rows| == nrow && colIdx == []
      requires forall i :: 0 <= i <= nrow ==> rowPtrStream[i] == 0 && rowPtrRandom[i] == 0
      modifies this`colIdx, rowPtrStream, rowPtrRandom
      ensures Valid() && colIdx == Flat(rows, nrow)
      ensures forall i :: 0 <= i <= nrow ==> rowPtrStream[i] == Offsets(rows, i) && rowPtrRandom[i] == Offsets(rows, i)
      ensures (forall r, x :: 0 <= r < nrow && x in rows[r] ==> 0 <= x < nrow) ==> Loaded()
    {
      for i := 0 to nrow
        invariant colIdx == Flat(rows, i)
        invariant PointersUpTo(rowPtrStream[..], rows, i) && PointersUpTo(rowPtrRandom[..], rows, i)
      {
        AssembleRow(rows, i);
      }
      if forall r, x :: 0 <= r < nrow && x in rows[r] ==> 0 <= x < nrow {
        LoadedFrom(rows);
      }
    }

    /** One turn of the assembly loop: row i is sorted and appended, and both pointers to its end are set. */
    method AssembleRow(rows: seq<seq<int>>, i: nat)
      requires Valid() && |rows| == nrow && i < nrow && colIdx == Flat(rows, i)
      requires PointersUpTo(rowPtrStream[..], rows, i) && PointersUpTo(rowPtrRandom[..], rows, i)
      modifies this`colIdx, rowPtrStream, rowPtrRandom
      ensures colIdx == Flat(rows, i + 1)
      ensures PointersUpTo(rowPtrStream[..], rows, i + 1) && PointersUpTo(rowPtrRandom[..], rows, i + 1)
    {
      ghost var stream, random := rowPtrStream[..], rowPtrRandom[..];
      var sorted := Sort(rows[i]);
      PushRow(sorted);
      rowPtrStream[i + 1] := rowPtrStream[i + 1] + |sorted|;
      rowPtrStream[i + 1] := rowPtrStream[i + 1] + rowPtrStream[i];
      rowPtrRandom[i + 1] := rowPtrStream[i + 1];
      assert rowPtrStream[..] == stream[i + 1 := Offsets(rows, i + 1)];
      assert rowPtrRandom[..] == random[i + 1 := Offsets(rows, i + 1)];
      PointersNext(stream, rows, i);
      PointersNext(random, rows, i);
    }

    /** Arrays holding the assembly of rows that name nodes form a loaded graph. */
    lemma LoadedFrom(rows: seq<seq<int>>)
      requires Valid() && |rows| == nrow && colIdx == Flat(rows, nrow)
      requires forall i :: 0 <= i <= nrow ==> rowPtrStream[i] == Offsets(rows, i) && rowPtrRandom[i] == Offsets(rows, i)
      requires forall r, x :: 0 <= r < nrow && x in rows[r] ==> 0 <= x < nrow
      ensures Loaded()
    {
      Assembled(rows);
      assert rowPtrStream[..] == Pointers(rows) && rowPtrRandom[..] == Pointers(rows);
    }

    method PushRow(row: seq<int>)
      modifies this`colIdx
      ensures colIdx == old(colIdx) + row
    {
      for j := 0 to |row|
        invariant colIdx == old(colIdx) + row[..j]
      {
        assert row[..j + 1] == row[..j] + [row[j]];
        colIdx := colIdx + [row[j]];
      }
      assert row[..|row|] == row;
    }

    /** The count the current arrays make `TC_kernel` add. */
    ghost function Expected(): int
      reads this, rowPtrStream, rowPtrRandom
      requires Loaded()
    {
      TriangleSum(rowPtrStream[..], rowPtrRandom[..], colIdx, nrow, nrow)
    }

    /**
     * `TC_kernel`: for each row i, each neighbour n of i, each cell k of
     * row i and each cell l of row n, count `col_idx[k] == col_idx[l]`.
     * Only `TC_tot` changes.
     */
    method Kernel()
      requires Loaded()
      modifies this`tot
      ensures tot == old(tot) + Expected()
    {
      var i := 0;
      while i < nrow
        invariant 0 <= i <= nrow
        invariant tot == old(tot) + TriangleSum(rowPtrStream[..], rowPtrRandom[..], colIdx, nrow, i)
      {
        KernelRow(i);
        i := i + 1;
      }
    }

    /** The loop over the neighbours of row i. */
    method KernelRow(i: int)
      requires Loaded() && 0 <= i < nrow
      modifies this`tot
      ensures tot == old(tot) + RowHits(rowPtrStream[..], rowPtrRandom[..], colIdx, nrow, i, rowPtrStream[i + 1] - rowPtrStream[i])
    {
      var degree := rowPtrStream[i + 1] - rowPtrStream[i];
      var j := 0;
      while j < degree
        invariant 0 <= j && (j <= degree || j == 0)
        invariant tot == old(tot) + RowHits(rowPtrStream[..], rowPtrRandom[..], colIdx, nrow, i, j)
      {
        KernelNeighbour(i, j);
        j := j + 1;
      }
    }

    /** The loop over the cells k of row i, for its j-th neighbour. */
    method KernelNeighbour(i: int, j: int)
      requires Loaded() && 0 <= i < nrow && 0 <= j < rowPtrStream[i + 1] - rowPtrStream[i]
      modifies this`tot
      ensures tot == old(tot) + NeighbourHits(rowPtrStream[..], rowPtrRandom[..], colIdx, nrow, i, j)
    {
      var neighbour := colIdx[rowPtrStream[i] + j];
      var lo := rowPtrStream[i];
      var k := lo;
      while k < rowPtrStream[i + 1]
        invariant lo <= k <= rowPtrStream[i + 1]
        invariant tot == old(tot) + PairHits(colIdx, lo, k, rowPtrRandom[neighbour], rowPtrRandom[neighbour + 1])
      {
        KernelCell(k, neighbour);
        k := k + 1;
      }
    }

    /** The innermost loop: cell k against every cell l of row n. */
    method KernelCell(k: int, n: int)
      requires Loaded() && 0 <= k < |colIdx| && 0 <= n < nrow
      modifies this`tot
      ensures tot == old(tot) + Hits(colIdx, colIdx[k], rowPtrRandom[n], rowPtrRandom[n + 1])
    {
      var lo, hi := rowPtrRandom[n], rowPtrRandom[n + 1];
      assert lo < hi ==> 0 <= lo && hi <= |colIdx| by {
        assert rowPtrRandom[..][n] == lo && rowPtrRandom[..][n + 1] == hi;
      }
      var l := lo;
      while l < hi
        invariant lo <= l && (lo < hi ==> 0 <= lo && l <= hi <= |colIdx|) && (hi <= lo ==> l == lo)
        invariant tot == old(tot) + Hits(colIdx, colIdx[k], lo, l)
      {
        if colIdx[k] == colIdx[l] {
          tot := tot + 1;
        }
        l := l + 1;
      }
    }
  }
}
