/**
 * The compressed-sparse-row graphs the integer benchmark kernels read
 * (`row_ptr`, `col_idx` in cc_csr.c and bfs_csr.c).
 */
module CsrGraph {
  /**
   * A graph of `nrow` nodes in CSR form: the neighbours of node r are
   * `col_idx[row_ptr[r] .. row_ptr[r+1])`. A non-empty row lies inside
   * `col_idx`, and every cell of `col_idx` names a node.
   */
  ghost predicate Graph(rowPtr: seq<int>, colIdx: seq<int>, nrow: nat)
  {
    && |rowPtr| == nrow + 1
    && (forall r :: 0 <= r < nrow && rowPtr[r] < rowPtr[r + 1] ==> 0 <= rowPtr[r] && rowPtr[r + 1] <= |colIdx|)
    && (forall k :: 0 <= k < |colIdx| ==> 0 <= colIdx[k] < nrow)
  }

  /** The number of non-zero cells of s (`vis[i]` set, for a `char` array). */
  function Marked(s: seq<int>): (n: nat)
    ensures n <= |s|
  {
    if |s| == 0 then 0 else (if s[0] != 0 then 1 else 0) + Marked(s[1..])
  }

  /** Setting a zero cell to a non-zero value marks exactly one more cell. */
  lemma {:induction false} MarkedSet(s: seq<int>, i: nat, v: int)
    requires i < |s| && s[i] == 0 && v != 0
    ensures Marked(s[i := v]) == Marked(s) + 1
  {
    if i == 0 {
      assert s[i := v][1..] == s[1..];
    } else {
      assert s[i := v][1..] == s[1..][i - 1 := v];
      MarkedSet(s[1..], i - 1, v);
    }
  }
}
