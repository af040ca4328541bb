/**
 * `ShiloachVishkin` of cc_csr.c: connected-component labelling by hooking
 * roots onto smaller labels and shortcutting every label to its root, until
 * a round hooks nothing.
 */
module ConnectedComponents {
  import opened CsrGraph

  /** Every node's label is a node no larger than itself: parent pointers only go down. */
  ghost predicate Labels(comp: seq<int>)
  {
    forall i :: 0 <= i < |comp| ==> 0 <= comp[i] <= i
  }

  /** Every label is a root (`comp[comp[i]] == comp[i]`). */
  ghost predicate AllRoots(comp: seq<int>)
    requires Labels(comp)
  {
    forall i :: 0 <= i < |comp| ==> comp[comp[i]] == comp[i]
  }

  /** Both ends of every edge out of row r carry the same label. */
  ghost predicate RowAgrees(rowPtr: seq<int>, colIdx: seq<int>, nrow: nat, comp: seq<int>, r: nat)
    requires Graph(rowPtr, colIdx, nrow) && |comp| == nrow && r < nrow
  {
    forall k :: rowPtr[r] <= k < rowPtr[r + 1] ==> comp[r] == comp[colIdx[k]]
  }

  /** The edges of rows below `upTo` agree under comp. */
  ghost predicate AgreesBelow(rowPtr: seq<int>, colIdx: seq<int>, nrow: nat, comp: seq<int>, upTo: nat)
    requires Graph(rowPtr, colIdx, nrow) && |comp| == nrow && upTo <= nrow
  {
    forall r :: 0 <= r < upTo ==> RowAgrees(rowPtr, colIdx, nrow, comp, r)
  }

  /** Both ends of every edge carry the same label. */
  ghost predicate Agrees(rowPtr: seq<int>, colIdx: seq<int>, nrow: nat, comp: seq<int>)
    requires Graph(rowPtr, colIdx, nrow) && |comp| == nrow
  {
    AgreesBelow(rowPtr, colIdx, nrow, comp, nrow)
  }

  /** An edge out of row a reaches b. */
  ghost predicate Adjacent(rowPtr: seq<int>, colIdx: seq<int>, nrow: nat, a: int, b: int)
  {
    && 0 <= a < nrow && a + 1 < |rowPtr|
    && exists k :: rowPtr[a] <= k < rowPtr[a + 1] && 0 <= k < |colIdx| && colIdx[k] == b
  }

  /** a and b are joined by an edge in either direction: the graph taken as undirected. */
  ghost predicate Link(rowPtr: seq<int>, colIdx: seq<int>, nrow: nat, a: int, b: int)
  {
    Adjacent(rowPtr, colIdx, nrow, a, b) || Adjacent(rowPtr, colIdx, nrow, b, a)
  }

  /** Consecutive nodes of p are linked. */
  ghost predicate IsPath(rowPtr: seq<int>, colIdx: seq<int>, nrow: nat, p: seq<int>)
  {
    forall t :: 0 <= t < |p| - 1 ==> Link(rowPtr, colIdx, nrow, p[t], p[t + 1])
  }

  /** Some undirected path leads from i to j. */
  ghost predicate Connected(rowPtr: seq<int>, colIdx: seq<int>, nrow: nat, i: int, j: int)
  {
    exists p :: IsPath(rowPtr, colIdx, nrow, p) && |p| > 0 && p[0] == i && p[|p| - 1] == j
  }

  /** Every node is connected to its label. */
  ghost predicate Linked(rowPtr: seq<int>, colIdx: seq<int>, nrow: nat, comp: seq<int>)
  {
    forall i :: 0 <= i < |comp| ==> Connected(rowPtr, colIdx, nrow, i, comp[i])
  }

  lemma ConnectedRefl(rowPtr: seq<int>, colIdx: seq<int>, nrow: nat, i: int)
    ensures Connected(rowPtr, colIdx, nrow, i, i)
  {
    assert IsPath(rowPtr, colIdx, nrow, [i]);
  }

  lemma LinkConnected(rowPtr: seq<int>, colIdx: seq<int>, nrow: nat, a: int, b: int)
    requires Link(rowPtr, colIdx, nrow, a, b)
    ensures Connected(rowPtr, colIdx, nrow, a, b)
  {
    assert IsPath(rowPtr, colIdx, nrow, [a, b]);
  }

  /** A path read backwards is a path, since links are undirected. */
  lemma ConnectedSym(rowPtr: seq<int>, colIdx: seq<int>, nrow: nat, i: int, j: int)
    requires Connected(rowPtr, colIdx, nrow, i, j)
    ensures Connected(rowPtr, colIdx, nrow, j, i)
  {
    var p :| IsPath(rowPtr, colIdx, nrow, p) && |p| > 0 && p[0] == i && p[|p| - 1] == j;
    var q := seq(|p|, t requires 0 <= t < |p| => p[|p| - 1 - t]);
    forall t | 0 <= t < |q| - 1
      ensures Link(rowPtr, colIdx, nrow, q[t], q[t + 1])
    {
      var u := |p| - 2 - t;
      assert Link(rowPtr, colIdx, nrow, p[u], p[u + 1]);
    }
    assert IsPath(rowPtr, colIdx, nrow, q);
  }

  /** Two paths that meet join into one. */
  lemma ConnectedTrans(rowPtr: seq<int>, colIdx: seq<int>, nrow: nat, i: int, j: int, k: int)
    requires Connected(rowPtr, colIdx, nrow, i, j) && Connected(rowPtr, colIdx, nrow, j, k)
    ensures Connected(rowPtr, colIdx, nrow, i, k)
  {
    var p :| IsPath(rowPtr, colIdx, nrow, p) && |p| > 0 && p[0] == i && p[|p| - 1] == j;
    var q :| IsPath(rowPtr, colIdx, nrow, q) && |q| > 0 && q[0] == j && q[|q| - 1] == k;
    var pq := p + q[1..];
    forall t | 0 <= t < |pq| - 1
      ensures Link(rowPtr, colIdx, nrow, pq[t], pq[t + 1])
    {
      if t < |p| - 1 {
        assert pq[t] == p[t] && pq[t + 1] == p[t + 1];
      } else {
        var u := t - |p| + 1;
        assert pq[t] == q[u] && pq[t + 1] == q[u + 1];
      }
    }
    assert IsPath(rowPtr, colIdx, nrow, pq);
  }

  /** Labels that agree on every edge agree along every path. */
  lemma {:induction false} AgreesAlongPath(rowPtr: seq<int>, colIdx: seq<int>, nrow: nat, comp: seq<int>, p: seq<int>)
    requires Graph(rowPtr, colIdx, nrow) && |comp| == nrow && Agrees(rowPtr, colIdx, nrow, comp)
    requires IsPath(rowPtr, colIdx, nrow, p) && |p| > 1
    ensures 0 <= p[0] < nrow && 0 <= p[|p| - 1] < nrow && comp[p[0]] == comp[p[|p| - 1]]
  {
    assert Link(rowPtr, colIdx, nrow, p[0], p[1]);
    assert 0 <= p[0] < nrow && 0 <= p[1] < nrow && comp[p[0]] == comp[p[1]] by {
      if Adjacent(rowPtr, colIdx, nrow, p[0], p[1]) {
        var k :| rowPtr[p[0]] <= k < rowPtr[p[0] + 1] && 0 <= k < |colIdx| && colIdx[k] == p[1];
        assert RowAgrees(rowPtr, colIdx, nrow, comp, p[0]);
      } else {
        var k :| rowPtr[p[1]] <= k < rowPtr[p[1] + 1] && 0 <= k < |colIdx| && colIdx[k] == p[0];
        assert RowAgrees(rowPtr, colIdx, nrow, comp, p[1]);
      }
    }
    if |p| > 2 {
      var rest := p[1..];
      assert IsPath(rowPtr, colIdx, nrow, rest) by {
        forall t | 0 <= t < |rest| - 1
          ensures Link(rowPtr, colIdx, nrow, rest[t], rest[t + 1])
        {
          assert rest[t] == p[t + 1] && rest[t + 1] == p[t + 2];
        }
      }
      AgreesAlongPath(rowPtr, colIdx, nrow, comp, rest);
    }
  }

  /**
   * Labels that keep every node connected to its label and agree on every
   * edge are the connected components: two nodes share a label exactly
   * when a path joins them.
   */
  lemma ComponentsOfLabels(rowPtr: seq<int>, colIdx: seq<int>, nrow: nat, comp: seq<int>, i: int, j: int)
    requires Graph(rowPtr, colIdx, nrow) && |comp| == nrow
    requires Linked(rowPtr, colIdx, nrow, comp) && Agrees(rowPtr, colIdx, nrow, comp)
    requires 0 <= i < nrow && 0 <= j < nrow
    ensures comp[i] == comp[j] <==> Connected(rowPtr, colIdx, nrow, i, j)
  {
    if comp[i] == comp[j] {
      assert Connected(rowPtr, colIdx, nrow, j, comp[j]);
      ConnectedSym(rowPtr, colIdx, nrow, j, comp[j]);
      ConnectedTrans(rowPtr, colIdx, nrow, i, comp[i], j);
    }
    if Connected(rowPtr, colIdx, nrow, i, j) && i != j {
      var p :| IsPath(rowPtr, colIdx, nrow, p) && |p| > 0 && p[0] == i && p[|p| - 1] == j;
      AgreesAlongPath(rowPtr, colIdx, nrow, comp, p);
    }
  }

  /** The sum of all labels: it falls with every hook, which bounds the number of rounds. */
  function Total(s: seq<int>): int
  {
    if |s| == 0 then 0 else s[0] + Total(s[1..])
  }

  lemma {:induction false} TotalUpdate(s: seq<int>, i: nat, v: int)
    requires i < |s|
    ensures Total(s[i := v]) == Total(s) - s[i] + v
  {
    if i == 0 {
      assert s[i := v][1..] == s[1..];
    } else {
      assert s[i := v][1..] == s[1..][i - 1 := v];
      TotalUpdate(s[1..], i - 1, v);
    }
  }

  lemma {:induction false} TotalNonNegative(s: seq<int>)
    requires forall i :: 0 <= i < |s| ==> s[i] >= 0
    ensures Total(s) >= 0
  {
    if |s| > 0 {
      TotalNonNegative(s[1..]);
    }
  }

  /**
   * `ShiloachVishkin(row_ptr, col_idx, nrow, comp)`: on return every label
   * is a root no larger than its node, both ends of every edge carry the
   * same label, and two nodes share a label exactly when they are connected.
   */
  method ShiloachVishkin(rowPtr: seq<int>, colIdx: seq<int>, nrow: nat, comp: array<int>)
    requires Graph(rowPtr, colIdx, nrow) && comp.Length == nrow
    modifies comp
    ensures Labels(comp[..]) && AllRoots(comp[..])
    ensures Agrees(rowPtr, colIdx, nrow, comp[..])
    ensures forall i, j :: 0 <= i < nrow && 0 <= j < nrow ==>
              (comp[i] == comp[j] <==> Connected(rowPtr, colIdx, nrow, i, j))
  {
    InitLabels(rowPtr, colIdx, nrow, comp);
    TotalNonNegative(comp[..]);
    var change := 1;
    while change == 1
      invariant change == 0 || change == 1
      invariant Labels(comp[..]) && AllRoots(comp[..])
      invariant Linked(rowPtr, colIdx, nrow, comp[..])
      invariant change == 0 ==> Agrees(rowPtr, colIdx, nrow, comp[..])
      invariant Total(comp[..]) >= 0
      decreases Total(comp[..]) + change
    {
      change := HookAll(rowPtr, colIdx, nrow, comp);
      Shortcut(rowPtr, colIdx, nrow, comp);
      TotalNonNegative(comp[..]);
    }
    forall i, j | 0 <= i < nrow && 0 <= j < nrow
      ensures comp[i] == comp[j] <==> Connected(rowPtr, colIdx, nrow, i, j)
    {
      ComponentsOfLabels(rowPtr, colIdx, nrow, comp[..], i, j);
    }
  }

  /** The initial loop: every node is its own label. */
  method InitLabels(ghost rowPtr: seq<int>, ghost colIdx: seq<int>, ghost nrow: nat, comp: array<int>)
    modifies comp
    ensures forall i :: 0 <= i < comp.Length ==> comp[i] == i
    ensures Labels(comp[..]) && AllRoots(comp[..])
    ensures Linked(rowPtr, colIdx, nrow, comp[..])
  {
    for i := 0 to comp.Length
      invariant forall j :: 0 <= j < i ==> comp[j] == j
    {
      comp[i] := i;
    }
    forall i | 0 <= i < comp.Length
      ensures Connected(rowPtr, colIdx, nrow, i, comp[i])
    {
      ConnectedRefl(rowPtr, colIdx, nrow, i);
    }
  }

  /**
   * One hooking pass over all edges. When it hooks nothing (`change == 0`)
   * the labels are untouched and every edge already agrees; when it hooks,
   * the label sum has fallen.
   */
  method HookAll(rowPtr: seq<int>, colIdx: seq<int>, nrow: nat, comp: array<int>) returns (change: int)
    requires Graph(rowPtr, colIdx, nrow) && comp.Length == nrow
    requires Labels(comp[..]) && AllRoots(comp[..]) && Linked(rowPtr, colIdx, nrow, comp[..])
    modifies comp
    ensures change == 0 || change == 1
    ensures Labels(comp[..]) && Linked(rowPtr, colIdx, nrow, comp[..])
    ensures change == 0 ==> comp[..] == old(comp[..]) && Agrees(rowPtr, colIdx, nrow, comp[..])
    ensures change == 1 ==> Total(comp[..]) < old(Total(comp[..]))
  {
    ghost var c0 := comp[..];
    change := 0;
    var r := 0;
    while r < nrow
      invariant 0 <= r <= nrow
      invariant change == 0 || change == 1
      invariant Labels(comp[..]) && Linked(rowPtr, colIdx, nrow, comp[..])
      invariant change == 0 ==> comp[..] == c0 && AgreesBelow(rowPtr, colIdx, nrow, c0, r)
      invariant change == 1 ==> Total(comp[..]) < Total(c0)
    {
      change := HookRow(rowPtr, colIdx, nrow, comp, r, change, c0);
      r := r + 1;
    }
  }

  /** The hooking loop over the edges of row r. */
  method HookRow(rowPtr: seq<int>, colIdx: seq<int>, nrow: nat, comp: array<int>, r: nat, change0: int,
                 ghost c0: seq<int>) returns (change: int)
    requires Graph(rowPtr, colIdx, nrow) && comp.Length == nrow && r < nrow
    requires Labels(comp[..]) && Linked(rowPtr, colIdx, nrow, comp[..]) && |c0| == nrow && Labels(c0) && AllRoots(c0)
    requires change0 == 0 || change0 == 1
    requires change0 == 0 ==> comp[..] == c0
    requires change0 == 1 ==> Total(comp[..]) < Total(c0)
    modifies comp
    ensures change == 0 || change == 1
    ensures change0 <= change
    ensures Labels(comp[..]) && Linked(rowPtr, colIdx, nrow, comp[..])
    ensures change == 0 ==> comp[..] == c0 && RowAgrees(rowPtr, colIdx, nrow, c0, r)
    ensures change == 1 ==> Total(comp[..]) < Total(c0)
  {
    change := change0;
    var n := rowPtr[r];
    var end := rowPtr[r + 1];
    while n < end
      invariant change == 0 || change == 1
      invariant change0 <= change
      invariant Labels(comp[..]) && Linked(rowPtr, colIdx, nrow, comp[..])
      invariant change == 0 ==> comp[..] == c0
      invariant change == 0 ==> forall k :: rowPtr[r] <= k < n && k < end ==> c0[r] == c0[colIdx[k]]
      invariant change == 1 ==> Total(comp[..]) < Total(c0)
      decreases end - n
    {
      assert Adjacent(rowPtr, colIdx, nrow, r, colIdx[n]);
      var hooked := HookEdge(rowPtr, colIdx, nrow, comp, r, colIdx[n]);
      if hooked {
        change := 1;
      }
      n := n + 1;
    }
  }

  /**
   * One edge (r, node_n) of the hooking pass: when the two labels differ and
   * the larger one is a root, that root is hooked onto the smaller label
   * (`comp_r + (comp_n - high_comp)`, which is their minimum). Otherwise
   * nothing changes, and if every label was a root the two labels agree.
   */
  method HookEdge(ghost rowPtr: seq<int>, ghost colIdx: seq<int>, ghost nrow: nat, comp: array<int>, r: int, node: int)
    returns (hooked: bool)
    requires Labels(comp[..]) && 0 <= r < comp.Length && 0 <= node < comp.Length
    requires Linked(rowPtr, colIdx, nrow, comp[..]) && Link(rowPtr, colIdx, nrow, r, node)
    modifies comp
    ensures Labels(comp[..]) && Linked(rowPtr, colIdx, nrow, comp[..])
    ensures hooked ==>
              var lo := if old(comp[r]) < old(comp[node]) then old(comp[r]) else old(comp[node]);
              var hi := if old(comp[r]) < old(comp[node]) then old(comp[node]) else old(comp[r]);
              && lo < hi && old(comp[hi]) == hi
              && comp[..] == old(comp[..])[hi := lo]
              && Total(comp[..]) < old(Total(comp[..]))
    ensures !hooked ==> comp[..] == old(comp[..])
    ensures !hooked && AllRoots(old(comp[..])) ==> comp[r] == comp[node]
  {
    var compR := comp[r];
    var compN := comp[node];
    if compR == compN {
      return false;
    }
    var high := if compR > compN then compR else compN;
    var low := compR + (compN - high);
    if high == comp[high] {
      ghost var c := comp[..];
      assert Connected(rowPtr, colIdx, nrow, high, low) by {
        assert Connected(rowPtr, colIdx, nrow, r, compR) && Connected(rowPtr, colIdx, nrow, node, compN);
        ConnectedSym(rowPtr, colIdx, nrow, r, compR);
        LinkConnected(rowPtr, colIdx, nrow, r, node);
        ConnectedTrans(rowPtr, colIdx, nrow, compR, r, node);
        ConnectedTrans(rowPtr, colIdx, nrow, compR, node, compN);
        if high == compN {
          ConnectedSym(rowPtr, colIdx, nrow, compR, compN);
        }
      }
      TotalUpdate(comp[..], high, low);
      comp[high] := low;
      assert comp[..] == c[high := low];
      return true;
    }
    return false;
  }

  /**
   * The shortcutting pass: afterwards every label is a root. Roots are
   * never rewritten, labels only fall, and labels that were all roots
   * already are left as they were.
   */
  method Shortcut(ghost rowPtr: seq<int>, ghost colIdx: seq<int>, ghost nrow: nat, comp: array<int>)
    requires Labels(comp[..]) && Linked(rowPtr, colIdx, nrow, comp[..])
    modifies comp
    ensures Labels(comp[..]) && AllRoots(comp[..]) && Linked(rowPtr, colIdx, nrow, comp[..])
    ensures forall i :: 0 <= i < comp.Length ==> comp[i] <= old(comp[i])
    ensures forall i :: 0 <= i < comp.Length && old(comp[i]) == i ==> comp[i] == i
    ensures AllRoots(old(comp[..])) ==> comp[..] == old(comp[..])
    ensures Total(comp[..]) <= old(Total(comp[..]))
  {
    ghost var c0 := comp[..];
    for s := 0 to comp.Length
      invariant Labels(comp[..]) && Linked(rowPtr, colIdx, nrow, comp[..])
      invariant forall i :: 0 <= i < s ==> comp[comp[i]] == comp[i]
      invariant forall i :: 0 <= i < comp.Length ==> comp[i] <= c0[i]
      invariant forall i :: 0 <= i < comp.Length && c0[i] == i ==> comp[i] == i
      invariant forall i :: s <= i < comp.Length ==> comp[i] == c0[i]
      invariant AllRoots(c0) ==> comp[..] == c0
      invariant Total(comp[..]) <= Total(c0)
    {
      ShortcutNode(rowPtr, colIdx, nrow, comp, s);
    }
  }

  /**
   * `while (comp[s] != comp[comp[s]]) comp[s] = comp[comp[s]];`: only comp[s]
   * changes, it only falls, it ends at a root, and it stays put when it
   * already was one.
   */
  method ShortcutNode(ghost rowPtr: seq<int>, ghost colIdx: seq<int>, ghost nrow: nat, comp: array<int>, s: nat)
    requires Labels(comp[..]) && Linked(rowPtr, colIdx, nrow, comp[..]) && s < comp.Length
    modifies comp
    ensures Labels(comp[..]) && Linked(rowPtr, colIdx, nrow, comp[..])
    ensures comp[..] == old(comp[..])[s := comp[s]]
    ensures comp[comp[s]] == comp[s]
    ensures comp[s] <= old(comp[s])
    ensures old(comp[comp[s]]) == old(comp[s]) ==> comp[s] == old(comp[s])
    ensures Total(comp[..]) <= old(Total(comp[..]))
  {
    while comp[s] != comp[comp[s]]
      invariant Labels(comp[..]) && Linked(rowPtr, colIdx, nrow, comp[..])
      invariant comp[..] == old(comp[..])[s := comp[s]]
      invariant comp[s] <= old(comp[s])
      invariant old(comp[comp[s]]) == old(comp[s]) ==> comp[s] == old(comp[s])
      invariant Total(comp[..]) <= old(Total(comp[..]))
      decreases comp[s]
    {
      ghost var c := comp[..];
      assert Connected(rowPtr, colIdx, nrow, s, c[c[s]]) by {
        assert Connected(rowPtr, colIdx, nrow, s, c[s]) && Connected(rowPtr, colIdx, nrow, c[s], c[c[s]]);
        ConnectedTrans(rowPtr, colIdx, nrow, s, c[s], c[c[s]]);
      }
      TotalUpdate(comp[..], s, comp[comp[s]]);
      comp[s] := comp[comp[s]];
      assert comp[..] == c[s := c[c[s]]];
    }
  }
}
