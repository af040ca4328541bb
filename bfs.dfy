/**
 * The queue-based search of bfs_csr.c: `BFS_kernel`, the start-point set-up
 * that precedes it, and the reset between warm-up rounds. `vis` holds the
 * `char` marks as integers (0 = unvisited), `result` the recorded depths.
 */
module Bfs {
  import opened CsrGraph

  /** Every neighbour of node u is marked in vis. */
  ghost predicate Expanded(rowPtr: seq<int>, colIdx: seq<int>, nrow: nat, vis: seq<int>, u: int)
    requires Graph(rowPtr, colIdx, nrow) && |vis| == nrow && 0 <= u < nrow
  {
    forall k :: rowPtr[u] <= k < rowPtr[u + 1] ==> vis[colIdx[k]] != 0
  }

  /** Every marked node has all its neighbours marked. */
  ghost predicate Closed(rowPtr: seq<int>, colIdx: seq<int>, nrow: nat, vis: seq<int>)
    requires Graph(rowPtr, colIdx, nrow) && |vis| == nrow
  {
    forall u :: 0 <= u < nrow && vis[u] != 0 ==> Expanded(rowPtr, colIdx, nrow, vis, u)
  }

  /** There is an edge u -> v: v appears in row u of col_idx. */
  ghost predicate Adjacent(rowPtr: seq<int>, colIdx: seq<int>, nrow: nat, u: int, v: int)
    requires Graph(rowPtr, colIdx, nrow)
  {
    0 <= u < nrow && exists k :: rowPtr[u] <= k < rowPtr[u + 1] && colIdx[k] == v
  }

  /** p is a walk along edges of the graph. */
  ghost predicate Path(rowPtr: seq<int>, colIdx: seq<int>, nrow: nat, p: seq<int>)
    requires Graph(rowPtr, colIdx, nrow)
  {
    forall i :: 0 <= i < |p| - 1 ==> Adjacent(rowPtr, colIdx, nrow, p[i], p[i + 1])
  }

  /** A path leads from a to b. */
  ghost predicate Reach(rowPtr: seq<int>, colIdx: seq<int>, nrow: nat, a: int, b: int)
    requires Graph(rowPtr, colIdx, nrow)
  {
    exists p :: Path(rowPtr, colIdx, nrow, p) && |p| > 0 && p[0] == a && p[|p| - 1] == b
  }

  /** A path extended by one edge is a path. */
  lemma ReachStep(rowPtr: seq<int>, colIdx: seq<int>, nrow: nat, a: int, u: int, v: int)
    requires Graph(rowPtr, colIdx, nrow)
    requires Reach(rowPtr, colIdx, nrow, a, u) && Adjacent(rowPtr, colIdx, nrow, u, v)
    ensures Reach(rowPtr, colIdx, nrow, a, v)
  {
    var p :| Path(rowPtr, colIdx, nrow, p) && |p| > 0 && p[0] == a && p[|p| - 1] == u;
    var q := p + [v];
    forall i | 0 <= i < |q| - 1
      ensures Adjacent(rowPtr, colIdx, nrow, q[i], q[i + 1])
    {
      if i < |p| - 1 {
        assert q[i] == p[i] && q[i + 1] == p[i + 1];
      } else {
        assert q[i] == u && q[i + 1] == v;
      }
    }
    assert Path(rowPtr, colIdx, nrow, q);
  }

  /**
   * The marks of a search from `start`: every marked node is reachable from
   * it, and every unmarked node still has depth -1.
   */
  ghost predicate FromStart(rowPtr: seq<int>, colIdx: seq<int>, nrow: nat, start: int, s: SearchState)
    requires Graph(rowPtr, colIdx, nrow) && Sized(nrow, s)
  {
    && (forall v :: 0 <= v < nrow && s.vis[v] != 0 ==> Reach(rowPtr, colIdx, nrow, start, v))
    && (forall v :: 0 <= v < nrow && s.vis[v] == 0 ==> s.result[v] == -1)
  }

  /** Marks closed under edges contain every node reachable from a marked node. */
  lemma {:induction false} ClosedReach(rowPtr: seq<int>, colIdx: seq<int>, nrow: nat, vis: seq<int>, p: seq<int>)
    requires Graph(rowPtr, colIdx, nrow) && |vis| == nrow
    requires Closed(rowPtr, colIdx, nrow, vis)
    requires Path(rowPtr, colIdx, nrow, p) && |p| > 0 && 0 <= p[0] < nrow && vis[p[0]] != 0
    ensures 0 <= p[|p| - 1] < nrow && vis[p[|p| - 1]] != 0
  {
    if |p| > 1 {
      var q := p[..|p| - 1];
      forall i | 0 <= i < |q| - 1
        ensures Adjacent(rowPtr, colIdx, nrow, q[i], q[i + 1])
      {
        assert q[i] == p[i] && q[i + 1] == p[i + 1];
      }
      ClosedReach(rowPtr, colIdx, nrow, vis, q);
      var u := p[|p| - 2];
      assert Adjacent(rowPtr, colIdx, nrow, u, p[|p| - 1]);
      var k :| rowPtr[u] <= k < rowPtr[u + 1] && colIdx[k] == p[|p| - 1];
      assert Expanded(rowPtr, colIdx, nrow, vis, u);
    }
  }

  /** Marking more nodes keeps every expanded node expanded. */
  lemma ExpandedGrows(rowPtr: seq<int>, colIdx: seq<int>, nrow: nat, v0: seq<int>, v1: seq<int>, u: int)
    requires Graph(rowPtr, colIdx, nrow) && |v0| == nrow && |v1| == nrow && 0 <= u < nrow
    requires forall v :: 0 <= v < nrow && v0[v] != 0 ==> v1[v] != 0
    requires Expanded(rowPtr, colIdx, nrow, v0, u)
    ensures Expanded(rowPtr, colIdx, nrow, v1, u)
  {
    forall k | rowPtr[u] <= k < rowPtr[u + 1]
      ensures v1[colIdx[k]] != 0
    {
      assert v0[colIdx[k]] != 0;
    }
  }

  /** A sequence of zeros has no marks. */
  lemma {:induction false} MarkedZeros(s: seq<int>)
    requires forall i :: 0 <= i < |s| ==> s[i] == 0
    ensures Marked(s) == 0
  {
    if |s| > 0 {
      MarkedZeros(s[1..]);
    }
  }

  /** `for (i = 0; i < row; i++) { result[i] = -1; vis[i] = 0; }` */
  method Clear(vis: array<int>, result: array<int>)
    requires vis.Length == result.Length && vis != result
    modifies vis, result
    ensures forall v :: 0 <= v < vis.Length ==> vis[v] == 0 && result[v] == -1
    ensures Marked(vis[..]) == 0
  {
    for i := 0 to vis.Length
      invariant forall v :: 0 <= v < i ==> vis[v] == 0 && result[v] == -1
    {
      result[i] := -1;
      vis[i] := 0;
    }
    MarkedZeros(vis[..]);
  }


  /**
   * The search globals: `vis`, `result` and `bfs_queue` as sequences, and
   * `queue_start_ptr`, `queue_end_ptr` as qs and qe.
   */
  datatype SearchState = SearchState(vis: seq<int>, result: seq<int>, queue: seq<int>, qs: int, qe: int)

  /** The arrays hold one cell per node, and the queue holds as many nodes as are marked. */
  ghost predicate Sized(nrow: nat, s: SearchState)
  {
    && |s.vis| == nrow && |s.result| == nrow && |s.queue| == nrow
    && 0 <= s.qs <= s.qe == Marked(s.vis)
    && (forall i :: 0 <= i < s.qe ==> 0 <= s.queue[i] < nrow)
  }

  /** The queue holds distinct marked nodes, and every marked node is queued. */
  ghost predicate Tracked(nrow: nat, s: SearchState)
    requires Sized(nrow, s)
  {
    && (forall i :: 0 <= i < s.qe ==> s.vis[s.queue[i]] != 0)
    && (forall i, j :: 0 <= i < j < s.qe ==> s.queue[i] != s.queue[j])
    && (forall v :: 0 <= v < nrow && s.vis[v] != 0 ==> InQueue(s.queue, s.qe, v))
  }

  /** v is one of `queue[0..qe)`. */
  ghost predicate InQueue(queue: seq<int>, qe: int, v: int)
  {
    exists i :: 0 <= i < qe && i < |queue| && queue[i] == v
  }

  /** A consistent search: tracked, and every node already dequeued has all its neighbours marked. */
  ghost predicate Searched(rowPtr: seq<int>, colIdx: seq<int>, nrow: nat, s: SearchState)
    requires Graph(rowPtr, colIdx, nrow)
  {
    && Sized(nrow, s) && Tracked(nrow, s)
    && (forall i :: 0 <= i < s.qs ==> Expanded(rowPtr, colIdx, nrow, s.vis, s.queue[i]))
  }

  /**
   * The body of the loop over a row, for cell k: an unmarked neighbour is
   * queued at the end, recorded at `depth` and marked; a marked one changes
   * nothing.
   */
  function Visit(colIdx: seq<int>, nrow: nat, s: SearchState, k: int, depth: int): (r: SearchState)
    requires (forall j :: 0 <= j < |colIdx| ==> 0 <= colIdx[j] < nrow) && Sized(nrow, s) && 0 <= k < |colIdx|
    ensures Sized(nrow, r) && r.qs == s.qs && s.qe <= r.qe
    ensures forall i :: 0 <= i < s.qe ==> r.queue[i] == s.queue[i]
  {
    var c := colIdx[k];
    if s.vis[c] != 0 then s
    else
      MarkedSet(s.vis, c, 1);
      SearchState(s.vis[c := 1], s.result[c := depth], s.queue[s.qe := c], s.qs, s.qe + 1)
  }

  /**
   * After a visit the neighbour is marked, earlier marks and depths are
   * kept, and the only new mark is the neighbour, at `depth`.
   */
  lemma VisitFacts(colIdx: seq<int>, nrow: nat, s: SearchState, k: int, depth: int)
    requires (forall j :: 0 <= j < |colIdx| ==> 0 <= colIdx[j] < nrow) && Sized(nrow, s) && 0 <= k < |colIdx|
    ensures var r := Visit(colIdx, nrow, s, k, depth);
            && r.vis[colIdx[k]] != 0
            && (forall v :: 0 <= v < nrow && s.vis[v] != 0 ==> r.vis[v] != 0 && r.result[v] == s.result[v])
            && (forall v :: 0 <= v < nrow && s.vis[v] == 0 && r.vis[v] != 0 ==> v == colIdx[k] && r.result[v] == depth)
  {
  }

  /** A visit keeps the queue tracked: the new node is marked, unqueued before, and queued now. */
  lemma VisitTracked(colIdx: seq<int>, nrow: nat, s: SearchState, k: int, depth: int)
    requires (forall j :: 0 <= j < |colIdx| ==> 0 <= colIdx[j] < nrow) && Sized(nrow, s) && 0 <= k < |colIdx|
    requires Tracked(nrow, s)
    ensures Tracked(nrow, Visit(colIdx, nrow, s, k, depth))
  {
    var r := Visit(colIdx, nrow, s, k, depth);
    var c := colIdx[k];
    if s.vis[c] == 0 {
      forall v | 0 <= v < nrow && r.vis[v] != 0
        ensures InQueue(r.queue, r.qe, v)
      {
        if v == c {
          assert r.queue[s.qe] == v;
        } else {
          var i :| 0 <= i < s.qe && s.queue[i] == v;
          assert r.queue[i] == v;
        }
      }
    }
  }

  /** The loop over cells lo .. hi - 1 of col_idx, one `Visit` per cell. */
  function VisitRange(colIdx: seq<int>, nrow: nat, s: SearchState, lo: int, hi: int, depth: int): (r: SearchState)
    requires (forall j :: 0 <= j < |colIdx| ==> 0 <= colIdx[j] < nrow) && Sized(nrow, s)
    requires lo < hi ==> 0 <= lo && hi <= |colIdx|
    decreases hi - lo
    ensures Sized(nrow, r) && r.qs == s.qs && s.qe <= r.qe
    ensures forall i :: 0 <= i < s.qe ==> r.queue[i] == s.queue[i]
  {
    if hi <= lo then s
    else Visit(colIdx, nrow, VisitRange(colIdx, nrow, s, lo, hi - 1, depth), hi - 1, depth)
  }

  /** After the loop over a row every cell's node is marked, and earlier marks and depths are kept. */
  lemma {:induction false} VisitRangeKeeps(colIdx: seq<int>, nrow: nat, s: SearchState, lo: int, hi: int, depth: int)
    requires (forall j :: 0 <= j < |colIdx| ==> 0 <= colIdx[j] < nrow) && Sized(nrow, s)
    requires lo < hi ==> 0 <= lo && hi <= |colIdx|
    decreases hi - lo
    ensures var r := VisitRange(colIdx, nrow, s, lo, hi, depth);
            && (forall k :: lo <= k < hi ==> r.vis[colIdx[k]] != 0)
            && (forall v :: 0 <= v < nrow && s.vis[v] != 0 ==> r.vis[v] != 0 && r.result[v] == s.result[v])
  {
    if lo < hi {
      var m := VisitRange(colIdx, nrow, s, lo, hi - 1, depth);
      VisitRangeKeeps(colIdx, nrow, s, lo, hi - 1, depth);
      VisitFacts(colIdx, nrow, m, hi - 1, depth);
      assert VisitRange(colIdx, nrow, s, lo, hi, depth) == Visit(colIdx, nrow, m, hi - 1, depth);
    }
  }

  /** Each node the loop over a row newly marks is named in the row, and recorded at `depth`. */
  lemma {:induction false} VisitRangeNew(colIdx: seq<int>, nrow: nat, s: SearchState, lo: int, hi: int, depth: int, v: int)
    requires (forall j :: 0 <= j < |colIdx| ==> 0 <= colIdx[j] < nrow) && Sized(nrow, s)
    requires lo < hi ==> 0 <= lo && hi <= |colIdx|
    requires 0 <= v < nrow && s.vis[v] == 0 && VisitRange(colIdx, nrow, s, lo, hi, depth).vis[v] != 0
    decreases hi - lo
    ensures VisitRange(colIdx, nrow, s, lo, hi, depth).result[v] == depth
    ensures exists k :: lo <= k < hi && colIdx[k] == v
  {
    var m := VisitRange(colIdx, nrow, s, lo, hi - 1, depth);
    VisitFacts(colIdx, nrow, m, hi - 1, depth);
    if m.vis[v] != 0 {
      VisitRangeNew(colIdx, nrow, s, lo, hi - 1, depth, v);
      var k :| lo <= k < hi - 1 && colIdx[k] == v;
    } else {
      assert colIdx[hi - 1] == v;
    }
  }

  /** A node the loop over a row leaves unmarked was unmarked before, and its depth is kept. */
  lemma {:induction false} VisitRangeUnmarked(colIdx: seq<int>, nrow: nat, s: SearchState, lo: int, hi: int, depth: int)
    requires (forall j :: 0 <= j < |colIdx| ==> 0 <= colIdx[j] < nrow) && Sized(nrow, s)
    requires lo < hi ==> 0 <= lo && hi <= |colIdx|
    decreases hi - lo
    ensures var r := VisitRange(colIdx, nrow, s, lo, hi, depth);
            forall v :: 0 <= v < nrow && r.vis[v] == 0 ==> s.vis[v] == 0 && r.result[v] == s.result[v]
  {
    if lo < hi {
      var m := VisitRange(colIdx, nrow, s, lo, hi - 1, depth);
      VisitRangeUnmarked(colIdx, nrow, s, lo, hi - 1, depth);
      assert VisitRange(colIdx, nrow, s, lo, hi, depth) == Visit(colIdx, nrow, m, hi - 1, depth);
    }
  }

  /** The loop over a row keeps the queue tracked. */
  lemma {:induction false} VisitRangeTracked(colIdx: seq<int>, nrow: nat, s: SearchState, lo: int, hi: int, depth: int)
    requires (forall j :: 0 <= j < |colIdx| ==> 0 <= colIdx[j] < nrow) && Sized(nrow, s)
    requires lo < hi ==> 0 <= lo && hi <= |colIdx|
    requires Tracked(nrow, s)
    decreases hi - lo
    ensures Tracked(nrow, VisitRange(colIdx, nrow, s, lo, hi, depth))
  {
    if lo < hi {
      VisitRangeTracked(colIdx, nrow, s, lo, hi - 1, depth);
      VisitTracked(colIdx, nrow, VisitRange(colIdx, nrow, s, lo, hi - 1, depth), hi - 1, depth);
    }
  }

  /** One call of `BFS_kernel` before it recurses: dequeue node p and visit every cell of its row. */
  function Step(rowPtr: seq<int>, colIdx: seq<int>, nrow: nat, s: SearchState, depth: int): (r: SearchState)
    requires Graph(rowPtr, colIdx, nrow) && Sized(nrow, s) && s.qs < s.qe
    ensures Sized(nrow, r) && r.qs == s.qs + 1 && s.qe <= r.qe
    ensures forall i :: 0 <= i < s.qe ==> r.queue[i] == s.queue[i]
  {
    var p := s.queue[s.qs];
    VisitRange(colIdx, nrow, s.(qs := s.qs + 1), rowPtr[p], rowPtr[p + 1], depth)
  }

  /**
   * After one step the dequeued node is expanded, earlier marks and depths
   * are kept, every new mark is a neighbour of the dequeued node at
   * `depth`, and the queue stays tracked.
   */
  lemma StepFacts(rowPtr: seq<int>, colIdx: seq<int>, nrow: nat, s: SearchState, depth: int)
    requires Graph(rowPtr, colIdx, nrow) && Sized(nrow, s) && s.qs < s.qe
    ensures var r := Step(rowPtr, colIdx, nrow, s, depth);
            && Expanded(rowPtr, colIdx, nrow, r.vis, s.queue[s.qs])
            && (forall v :: 0 <= v < nrow && s.vis[v] != 0 ==> r.vis[v] != 0 && r.result[v] == s.result[v])
            && (forall v :: 0 <= v < nrow && s.vis[v] == 0 && r.vis[v] != 0 ==>
                  r.result[v] == depth && Adjacent(rowPtr, colIdx, nrow, s.queue[s.qs], v))
  {
    var p := s.queue[s.qs];
    var r := Step(rowPtr, colIdx, nrow, s, depth);
    VisitRangeKeeps(colIdx, nrow, s.(qs := s.qs + 1), rowPtr[p], rowPtr[p + 1], depth);
    forall v | 0 <= v < nrow && s.vis[v] == 0 && r.vis[v] != 0
      ensures r.result[v] == depth && Adjacent(rowPtr, colIdx, nrow, p, v)
    {
      VisitRangeNew(colIdx, nrow, s.(qs := s.qs + 1), rowPtr[p], rowPtr[p + 1], depth, v);
    }
  }

  /** A step keeps the queue tracked. */
  lemma StepTracked(rowPtr: seq<int>, colIdx: seq<int>, nrow: nat, s: SearchState, depth: int)
    requires Graph(rowPtr, colIdx, nrow) && Sized(nrow, s) && s.qs < s.qe && Tracked(nrow, s)
    ensures Tracked(nrow, Step(rowPtr, colIdx, nrow, s, depth))
  {
    var p := s.queue[s.qs];
    var s' := s.(qs := s.qs + 1);
    VisitRangeTracked(colIdx, nrow, s', rowPtr[p], rowPtr[p + 1], depth);
    assert Step(rowPtr, colIdx, nrow, s, depth) == VisitRange(colIdx, nrow, s', rowPtr[p], rowPtr[p + 1], depth);
  }

  /** `BFS_kernel(depth)` as a whole: steps with depth, depth + 1, ... until the queue is empty. */
  function KernelSpec(rowPtr: seq<int>, colIdx: seq<int>, nrow: nat, s: SearchState, depth: int): (r: SearchState)
    requires Graph(rowPtr, colIdx, nrow) && Sized(nrow, s)
    decreases nrow - s.qs
    ensures Sized(nrow, r) && s.qs <= r.qs && s.qe <= r.qe
    ensures forall i :: 0 <= i < s.qe ==> r.queue[i] == s.queue[i]
  {
    if s.qs >= s.qe then s
    else KernelSpec(rowPtr, colIdx, nrow, Step(rowPtr, colIdx, nrow, s, depth), depth + 1)
  }

  /** The kernel drains the queue, and keeps every mark and depth already present. */
  lemma {:induction false} KernelKeeps(rowPtr: seq<int>, colIdx: seq<int>, nrow: nat, s: SearchState, depth: int)
    requires Graph(rowPtr, colIdx, nrow) && Sized(nrow, s)
    decreases nrow - s.qs
    ensures var r := KernelSpec(rowPtr, colIdx, nrow, s, depth);
            && r.qs == r.qe
            && (forall v :: 0 <= v < nrow && s.vis[v] != 0 ==> r.vis[v] != 0 && r.result[v] == s.result[v])
  {
    if s.qs < s.qe {
      StepFacts(rowPtr, colIdx, nrow, s, depth);
      KernelKeeps(rowPtr, colIdx, nrow, Step(rowPtr, colIdx, nrow, s, depth), depth + 1);
    }
  }

  /**
   * The depth `BFS_kernel(depth)` records: a node it marks was found in the
   * row of the node at some queue position j it dequeued, and its depth is
   * `depth + (j - queue_start_ptr)`. The depth grows once per dequeued
   * node, not once per level.
   */
  lemma {:induction false} KernelDepth(rowPtr: seq<int>, colIdx: seq<int>, nrow: nat, s: SearchState, depth: int, v: int)
    requires Graph(rowPtr, colIdx, nrow) && Sized(nrow, s)
    requires 0 <= v < nrow && s.vis[v] == 0 && KernelSpec(rowPtr, colIdx, nrow, s, depth).vis[v] != 0
    ensures var r := KernelSpec(rowPtr, colIdx, nrow, s, depth);
            exists j :: s.qs <= j < r.qs && Adjacent(rowPtr, colIdx, nrow, r.queue[j], v)
                        && r.result[v] == depth + (j - s.qs)
    decreases nrow - s.qs
  {
    var r := KernelSpec(rowPtr, colIdx, nrow, s, depth);
    if s.qs < s.qe {
      var m := Step(rowPtr, colIdx, nrow, s, depth);
      assert r == KernelSpec(rowPtr, colIdx, nrow, m, depth + 1);
      StepFacts(rowPtr, colIdx, nrow, s, depth);
      KernelKeeps(rowPtr, colIdx, nrow, m, depth + 1);
      if m.vis[v] != 0 {
        assert r.queue[s.qs] == s.queue[s.qs];
        assert Adjacent(rowPtr, colIdx, nrow, r.queue[s.qs], v) && r.result[v] == depth + (s.qs - s.qs);
      } else {
        KernelDepth(rowPtr, colIdx, nrow, m, depth + 1, v);
        var j :| m.qs <= j < r.qs && Adjacent(rowPtr, colIdx, nrow, r.queue[j], v)
                 && r.result[v] == depth + 1 + (j - m.qs);
        assert r.result[v] == depth + (j - s.qs);
      }
    }
  }

  /**
   * One step of a tracked search from `start` stays a search from `start`:
   * the dequeued node is marked, hence reachable, and each new mark is its
   * neighbour; a node left unmarked keeps its depth.
   */
  lemma StepFromStart(rowPtr: seq<int>, colIdx: seq<int>, nrow: nat, start: int, s: SearchState, depth: int)
    requires Graph(rowPtr, colIdx, nrow) && Sized(nrow, s) && Tracked(nrow, s) && s.qs < s.qe
    requires FromStart(rowPtr, colIdx, nrow, start, s)
    ensures FromStart(rowPtr, colIdx, nrow, start, Step(rowPtr, colIdx, nrow, s, depth))
  {
    assert s.vis[s.queue[s.qs]] != 0;
    StepUnmarked(rowPtr, colIdx, nrow, s, depth);
    StepReach(rowPtr, colIdx, nrow, start, s, depth);
  }

  /** A node one step leaves unmarked was unmarked before, and keeps its depth. */
  lemma StepUnmarked(rowPtr: seq<int>, colIdx: seq<int>, nrow: nat, s: SearchState, depth: int)
    requires Graph(rowPtr, colIdx, nrow) && Sized(nrow, s) && s.qs < s.qe
    ensures var r := Step(rowPtr, colIdx, nrow, s, depth);
            forall v :: 0 <= v < nrow && r.vis[v] == 0 ==> s.vis[v] == 0 && r.result[v] == s.result[v]
  {
    var u := s.queue[s.qs];
    VisitRangeUnmarked(colIdx, nrow, s.(qs := s.qs + 1), rowPtr[u], rowPtr[u + 1], depth);
  }

  /** The marks after one step: old marks, or neighbours of the dequeued node. */
  lemma StepReach(rowPtr: seq<int>, colIdx: seq<int>, nrow: nat, start: int, s: SearchState, depth: int)
    requires Graph(rowPtr, colIdx, nrow) && Sized(nrow, s) && s.qs < s.qe
    requires forall v :: 0 <= v < nrow && s.vis[v] != 0 ==> Reach(rowPtr, colIdx, nrow, start, v)
    requires Reach(rowPtr, colIdx, nrow, start, s.queue[s.qs])
    ensures var r := Step(rowPtr, colIdx, nrow, s, depth);
            forall v :: 0 <= v < nrow && r.vis[v] != 0 ==> Reach(rowPtr, colIdx, nrow, start, v)
  {
    var u := s.queue[s.qs];
    var r := Step(rowPtr, colIdx, nrow, s, depth);
    StepFacts(rowPtr, colIdx, nrow, s, depth);
    forall v | 0 <= v < nrow && r.vis[v] != 0
      ensures Reach(rowPtr, colIdx, nrow, start, v)
    {
      if s.vis[v] == 0 {
        ReachStep(rowPtr, colIdx, nrow, start, u, v);
      }
    }
  }

  /** The kernel keeps a tracked search from `start` a search from `start`. */
  lemma {:induction false} KernelFromStart(rowPtr: seq<int>, colIdx: seq<int>, nrow: nat, start: int, s: SearchState, depth: int)
    requires Graph(rowPtr, colIdx, nrow) && Sized(nrow, s) && Tracked(nrow, s)
    requires FromStart(rowPtr, colIdx, nrow, start, s)
    ensures FromStart(rowPtr, colIdx, nrow, start, KernelSpec(rowPtr, colIdx, nrow, s, depth))
    decreases nrow - s.qs
  {
    if s.qs < s.qe {
      StepFromStart(rowPtr, colIdx, nrow, start, s, depth);
      StepTracked(rowPtr, colIdx, nrow, s, depth);
      KernelFromStart(rowPtr, colIdx, nrow, start, Step(rowPtr, colIdx, nrow, s, depth), depth + 1);
    }
  }

  /** The kernel keeps a consistent search consistent. */
  lemma {:induction false} KernelSearched(rowPtr: seq<int>, colIdx: seq<int>, nrow: nat, s: SearchState, depth: int)
    requires Graph(rowPtr, colIdx, nrow) && Searched(rowPtr, colIdx, nrow, s)
    ensures Searched(rowPtr, colIdx, nrow, KernelSpec(rowPtr, colIdx, nrow, s, depth))
    decreases nrow - s.qs
  {
    if s.qs < s.qe {
      var m := Step(rowPtr, colIdx, nrow, s, depth);
      StepFacts(rowPtr, colIdx, nrow, s, depth);
      StepTracked(rowPtr, colIdx, nrow, s, depth);
      forall i | 0 <= i < m.qs
        ensures Expanded(rowPtr, colIdx, nrow, m.vis, m.queue[i])
      {
        if i < s.qs {
          ExpandedGrows(rowPtr, colIdx, nrow, s.vis, m.vis, s.queue[i]);
        }
      }
      KernelSearched(rowPtr, colIdx, nrow, m, depth + 1);
    }
  }

  /** A consistent search with an empty queue has marks closed under edges. */
  lemma DrainedClosed(rowPtr: seq<int>, colIdx: seq<int>, nrow: nat, s: SearchState)
    requires Graph(rowPtr, colIdx, nrow) && Searched(rowPtr, colIdx, nrow, s) && s.qs == s.qe
    ensures Closed(rowPtr, colIdx, nrow, s.vis)
  {
    forall u | 0 <= u < nrow && s.vis[u] != 0
      ensures Expanded(rowPtr, colIdx, nrow, s.vis, u)
    {
      var i :| 0 <= i < s.qe && s.queue[i] == u;
    }
  }

  /**
   * What the kernel achieves from a consistent search: every node reachable
   * from a marked node ends up marked.
   */
  lemma KernelReaches(rowPtr: seq<int>, colIdx: seq<int>, nrow: nat, s: SearchState, depth: int, p: seq<int>)
    requires Graph(rowPtr, colIdx, nrow) && Searched(rowPtr, colIdx, nrow, s)
    requires Path(rowPtr, colIdx, nrow, p) && |p| > 0 && 0 <= p[0] < nrow && s.vis[p[0]] != 0
    ensures 0 <= p[|p| - 1] < nrow && KernelSpec(rowPtr, colIdx, nrow, s, depth).vis[p[|p| - 1]] != 0
  {
    var r := KernelSpec(rowPtr, colIdx, nrow, s, depth);
    KernelSearched(rowPtr, colIdx, nrow, s, depth);
    KernelKeeps(rowPtr, colIdx, nrow, s, depth);
    DrainedClosed(rowPtr, colIdx, nrow, r);
    ClosedReach(rowPtr, colIdx, nrow, r.vis, p);
  }

  /**
   * What the kernel computes from a consistent search from `start` that has
   * marked the start: a node ends marked exactly when it is reachable from
   * the start, and a node that is not keeps depth -1.
   */
  lemma KernelComponent(rowPtr: seq<int>, colIdx: seq<int>, nrow: nat, start: int, s: SearchState, depth: int, v: int)
    requires Graph(rowPtr, colIdx, nrow) && Searched(rowPtr, colIdx, nrow, s)
    requires FromStart(rowPtr, colIdx, nrow, start, s) && 0 <= start < nrow && s.vis[start] != 0
    requires 0 <= v < nrow
    ensures var r := KernelSpec(rowPtr, colIdx, nrow, s, depth);
            && (r.vis[v] != 0 <==> Reach(rowPtr, colIdx, nrow, start, v))
            && (!Reach(rowPtr, colIdx, nrow, start, v) ==> r.result[v] == -1)
  {
    KernelFromStart(rowPtr, colIdx, nrow, start, s, depth);
    if Reach(rowPtr, colIdx, nrow, start, v) {
      var p :| Path(rowPtr, colIdx, nrow, p) && |p| > 0 && p[0] == start && p[|p| - 1] == v;
      KernelReaches(rowPtr, colIdx, nrow, s, depth, p);
    }
  }

  /** The start point queued alone, marked alone and at depth 0 is a consistent search from itself. */
  lemma Started(rowPtr: seq<int>, colIdx: seq<int>, nrow: nat, start: int, s: SearchState)
    requires Graph(rowPtr, colIdx, nrow) && 0 <= start < nrow
    requires |s.vis| == nrow && |s.result| == nrow && |s.queue| == nrow
    requires forall v :: 0 <= v < nrow ==> s.vis[v] == (if v == start then 1 else 0)
    requires forall v :: 0 <= v < nrow ==> s.result[v] == (if v == start then 0 else -1)
    requires s.queue[0] == start && s.qs == 0 && s.qe == 1
    ensures Searched(rowPtr, colIdx, nrow, s)
    ensures FromStart(rowPtr, colIdx, nrow, start, s)
  {
    var z := s.vis[start := 0];
    MarkedZeros(z);
    MarkedSet(z, start, 1);
    assert z[start := 1] == s.vis;
    assert s.queue[0] == start;
    assert Path(rowPtr, colIdx, nrow, [start]);
  }

  class Search {
    const nrow: nat
    const rowPtr: seq<int>
    const colIdx: seq<int>
    const startPoint: int
    const vis: array<int>
    const result: array<int>
    const queue: array<int>
    var queueStart: int
    var queueEnd: int

    ghost function State(): SearchState
      reads this, vis, result, queue
    {
      SearchState(vis[..], result[..], queue[..], queueStart, queueEnd)
    }

    /** The arrays are distinct, sized by the graph, and the start point is queue cell 0. */
    ghost predicate Valid()
      reads this, vis, result, queue
    {
      && Graph(rowPtr, colIdx, nrow)
      && vis != result && vis != queue && result != queue
      && Sized(nrow, State())
      && 0 <= startPoint < nrow && 1 <= queueEnd && queue[0] == startPoint
    }

    /**
     * The graph as parsed (lines 81-85 clear the marks and depths) and a
     * start point (`generate_start_point` picks it at random; here it is a
     * parameter): the start is queued alone, marked alone and at depth 0.
     */
    constructor (rowPtr: seq<int>, colIdx: seq<int>, nrow: nat, startPoint: int)
      requires Graph(rowPtr, colIdx, nrow) && 0 <= startPoint < nrow
      ensures Valid() && Searched(rowPtr, colIdx, nrow, State()) && FromStart(rowPtr, colIdx, nrow, startPoint, State())
      ensures this.rowPtr == rowPtr && this.colIdx == colIdx && this.nrow == nrow && this.startPoint == startPoint
      ensures queueStart == 0 && queueEnd == 1
      ensures forall v :: 0 <= v < nrow ==> vis[v] == (if v == startPoint then 1 else 0)
      ensures forall v :: 0 <= v < nrow ==> result[v] == (if v == startPoint then 0 else -1)
    {
      this.rowPtr := rowPtr;
      this.colIdx := colIdx;
      this.nrow := nrow;
      this.startPoint := startPoint;
      var v := new int[nrow];
      var res := new int[nrow];
      var q := new int[nrow];
      Clear(v, res);
      q[0] := startPoint;
      res[startPoint] := 0;
      v[startPoint] := 1;
      vis := v;
      result := res;
      queue := q;
      queueStart := 0;
      queueEnd := 1;
      new;
      Started(rowPtr, colIdx, nrow, startPoint, State());
    }

    /**
     * The reset between warm-up rounds (lines 138-145): all marks and depths
     * cleared, then the start point, still in queue cell 0, queued alone
     * again at depth 0.
     */
    method Reset()
      requires Valid()
      modifies this, vis, result
      ensures Valid() && Searched(rowPtr, colIdx, nrow, State()) && FromStart(rowPtr, colIdx, nrow, startPoint, State())
      ensures queueStart == 0 && queueEnd == 1 && queue[..] == old(queue[..])
      ensures forall v :: 0 <= v < nrow ==> vis[v] == (if v == startPoint then 1 else 0)
      ensures forall v :: 0 <= v < nrow ==> result[v] == (if v == startPoint then 0 else -1)
    {
      Clear(vis, result);
      result[startPoint] := 0;
      vis[startPoint] := 1;
      queueStart := 0;
      queueEnd := 1;
      Started(rowPtr, colIdx, nrow, startPoint, State());
    }

    /**
     * `BFS_kernel(depth)`: if the queue is not empty, dequeue a node, visit
     * its row, and recurse with `depth + 1`.
     */
    method Kernel(depth: int)
      requires Valid()
      modifies this, vis, result, queue
      decreases nrow - queueStart
      ensures Valid() && State() == KernelSpec(rowPtr, colIdx, nrow, old(State()), depth)
    {
      if queueStart >= queueEnd {
        return;
      }
      ghost var s0 := State();
      var p := queue[queueStart];
      queueStart := queueStart + 1;
      assert State() == s0.(qs := s0.qs + 1);
      Expand(p, depth);
      assert State() == Step(rowPtr, colIdx, nrow, s0, depth);
      Kernel(depth + 1);
    }

    /** The loop over the row of the node p just dequeued. */
    method Expand(p: int, depth: int)
      requires Valid() && 1 <= queueStart && p == queue[queueStart - 1]
      modifies this`queueEnd, vis, result, queue
      ensures Valid() && State() == VisitRange(colIdx, nrow, old(State()), rowPtr[p], rowPtr[p + 1], depth)
    {
      var i := rowPtr[p];
      var end := rowPtr[p + 1];
      assert 0 <= p < nrow;
      while i < end
        invariant Valid() && queueStart == old(queueStart)
        invariant if rowPtr[p] < end then 0 <= rowPtr[p] <= i <= end <= |colIdx| else i == rowPtr[p]
        invariant State() == VisitRange(colIdx, nrow, old(State()), rowPtr[p], i, depth)
        decreases end - i
      {
        VisitEdge(i, depth);
        i := i + 1;
      }
    }

    /** `if (!vis[col_idx[k]]) { enqueue; result = depth; vis = 1; }` */
    method VisitEdge(k: int, depth: int)
      requires Valid() && 0 <= k < |colIdx|
      modifies this`queueEnd, vis, result, queue
      ensures Valid() && State() == Visit(colIdx, nrow, old(State()), k, depth)
    {
      var c := colIdx[k];
      if vis[c] == 0 {
        MarkedSet(vis[..], c, 1);
        queue[queueEnd] := c;
        result[c] := depth;
        vis[c] := 1;
        queueEnd := queueEnd + 1;
      }
    }
  }
}
