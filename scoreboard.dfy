/**
 * An entry of the indirect-candidate scoreboard (`DiffMatching::ICSEntry` in
 * diff_matching.cc): the miss counters, per missing PC, gathered while one
 * index PC is under observation.
 *
 * The entry's declaration is not part of this model. Its constructor
 * `ICSEntry(candidate_num, valid)` and `update(index_pc, cID)` are used but
 * not shown; they are modelled under the stated assumption that `update`
 * replaces the key and clears the counters.
 */
module Scoreboard {

  /**
   * `updateMiss` as a function of the counters: the new counters and whether
   * the missing PC is promoted.
   */
  function MissStep(m: map<nat, nat>, pc: nat, thr: nat, cap: nat): (r: (map<nat, nat>, bool))
    ensures r.0.Keys >= m.Keys
  {
    if pc in m then
      if m[pc] >= thr then (m, true) else (m[pc := m[pc] + 1], false)
    else if |m| < cap then (m[pc := 0], false)
    else (m, false)
  }

  /** The counters never hold more than `cap` PCs, and no counter ever goes down. */
  lemma MissStepBounded(m: map<nat, nat>, pc: nat, thr: nat, cap: nat)
    requires |m| <= cap
    ensures |MissStep(m, pc, thr, cap).0| <= cap
    ensures forall q :: q in m ==> MissStep(m, pc, thr, cap).0[q] >= m[q]
    ensures forall q :: q != pc ==> (q in m <==> q in MissStep(m, pc, thr, cap).0)
  {
    if pc !in m && |m| < cap {
      assert |m[pc := 0]| == |m| + 1;
    }
  }

  /** The flags returned by `n` consecutive reports of the same missing PC. */
  function Reports(m: map<nat, nat>, pc: nat, thr: nat, cap: nat, n: nat): (r: seq<bool>)
    ensures |r| == n
    decreases n
  {
    if n == 0 then []
    else
      var (m', b) := MissStep(m, pc, thr, cap);
      [b] + Reports(m', pc, thr, cap, n - 1)
  }

  /** A tracked PC is promoted on every report from the one that finds its counter at `thr` on. */
  lemma {:induction false} ReportsKnown(m: map<nat, nat>, pc: nat, thr: nat, cap: nat, n: nat)
    requires pc in m
    ensures forall k :: 0 <= k < n ==> Reports(m, pc, thr, cap, n)[k] == (m[pc] + k >= thr)
  {
    if n > 0 {
      var (m', b) := MissStep(m, pc, thr, cap);
      ReportsKnown(m', pc, thr, cap, n - 1);
      forall k | 0 <= k < n
        ensures Reports(m, pc, thr, cap, n)[k] == (m[pc] + k >= thr)
      {
        if k > 0 {
          assert Reports(m, pc, thr, cap, n)[k] == Reports(m', pc, thr, cap, n - 1)[k - 1];
        }
      }
    }
  }

  /**
   * A new PC admitted with counter 0 is promoted first on report `thr + 2`:
   * one report admits it and `thr` more raise its counter to `thr`.
   */
  lemma ReportsNew(m: map<nat, nat>, pc: nat, thr: nat, cap: nat, n: nat)
    requires pc !in m && |m| < cap
    ensures forall k :: 0 <= k < n ==> Reports(m, pc, thr, cap, n)[k] == (k >= thr + 1)
  {
    if n > 0 {
      var m' := m[pc := 0];
      ReportsKnown(m', pc, thr, cap, n - 1);
      forall k | 1 <= k < n
        ensures Reports(m, pc, thr, cap, n)[k] == (k >= thr + 1)
      {
        assert Reports(m, pc, thr, cap, n)[k] == Reports(m', pc, thr, cap, n - 1)[k - 1];
      }
    }
  }

  /** A PC that finds the counters full is never promoted. */
  lemma {:induction false} ReportsFull(m: map<nat, nat>, pc: nat, thr: nat, cap: nat, n: nat)
    requires pc !in m && |m| >= cap
    ensures forall k :: 0 <= k < n ==> !Reports(m, pc, thr, cap, n)[k]
  {
    if n > 0 {
      ReportsFull(m, pc, thr, cap, n - 1);
    }
  }

  /** With threshold 2, an unseen PC is promoted on its fourth report, not its third. */
  lemma ThresholdTwoScenario(m: map<nat, nat>, pc: nat, cap: nat)
    requires pc !in m && |m| < cap
    ensures Reports(m, pc, 2, cap, 4) == [false, false, false, true]
  {
    ReportsNew(m, pc, 2, cap, 4);
  }

  /** What the scoreboard loop of `notifyICSMiss` reads of an entry. */
  datatype MissView = MissView(valid: bool, cID: int, missCount: map<nat, nat>)

  /** The entry counts misses of context cID. */
  predicate Listens(v: MissView, cID: int)
  {
    v.valid && v.cID == cID
  }

  /** `updateMiss` on these counters reports the PC. */
  predicate Promotes(m: map<nat, nat>, pc: nat, thr: nat)
  {
    pc in m && m[pc] >= thr
  }

  /** The counters of entries vs[k..], untouched. */
  function CountsFrom(vs: seq<MissView>, k: nat): (r: seq<map<nat, nat>>)
    requires k <= |vs|
    ensures |r| == |vs| - k
    ensures forall j :: k <= j < |vs| ==> r[j - k] == vs[j].missCount
  {
    seq(|vs| - k, j requires 0 <= j < |vs| - k => vs[k + j].missCount)
  }

  /**
   * The scoreboard loop of `notifyICSMiss` from entry k on: each listening
   * entry counts the miss, in order, until one reports it; the entries after
   * that one are left alone. The counters of vs[k..] afterwards, and whether
   * some entry reported.
   */
  function SweepFrom(vs: seq<MissView>, k: nat, pc: nat, cID: int, thr: nat, cap: nat): (r: (seq<map<nat, nat>>, bool))
    requires k <= |vs|
    ensures |r.0| == |vs| - k
    decreases |vs| - k
  {
    if k == |vs| then ([], false)
    else if !Listens(vs[k], cID) then
      var rest := SweepFrom(vs, k + 1, pc, cID, thr, cap);
      ([vs[k].missCount] + rest.0, rest.1)
    else
      var step := MissStep(vs[k].missCount, pc, thr, cap);
      if step.1 then ([step.0] + CountsFrom(vs, k + 1), true)
      else
        var rest := SweepFrom(vs, k + 1, pc, cID, thr, cap);
        ([step.0] + rest.0, rest.1)
  }

  /** The whole scoreboard loop of `notifyICSMiss`. */
  function MissSweep(vs: seq<MissView>, pc: nat, cID: int, thr: nat, cap: nat): (r: (seq<map<nat, nat>>, bool))
    ensures |r.0| == |vs|
  {
    SweepFrom(vs, 0, pc, cID, thr, cap)
  }

  /** Some listening entry reports the miss exactly when one already counts the PC at the threshold. */
  lemma {:induction false} SweepFromReports(vs: seq<MissView>, k: nat, pc: nat, cID: int, thr: nat, cap: nat)
    requires k <= |vs|
    ensures SweepFrom(vs, k, pc, cID, thr, cap).1 <==>
              exists j :: k <= j < |vs| && Listens(vs[j], cID) && Promotes(vs[j].missCount, pc, thr)
    decreases |vs| - k
  {
    if k < |vs| {
      SweepFromReports(vs, k + 1, pc, cID, thr, cap);
    }
  }

  /**
   * An entry that does not listen, or that comes after a listening entry
   * that reports the miss, keeps its counters.
   */
  lemma {:induction false} SweepFromKeeps(vs: seq<MissView>, k: nat, pc: nat, cID: int, thr: nat, cap: nat, j: nat)
    requires k <= j < |vs|
    requires !Listens(vs[j], cID) || exists l :: k <= l < j && Listens(vs[l], cID) && Promotes(vs[l].missCount, pc, thr)
    ensures SweepFrom(vs, k, pc, cID, thr, cap).0[j - k] == vs[j].missCount
    decreases |vs| - k
  {
    if k < j && !(Listens(vs[k], cID) && Promotes(vs[k].missCount, pc, thr)) {
      SweepFromKeeps(vs, k + 1, pc, cID, thr, cap, j);
    }
  }

  /** A listening entry with no reporting listener before it has counted the miss. */
  lemma {:induction false} SweepFromCounts(vs: seq<MissView>, k: nat, pc: nat, cID: int, thr: nat, cap: nat, j: nat)
    requires k <= j < |vs| && Listens(vs[j], cID)
    requires forall l :: k <= l < j && Listens(vs[l], cID) ==> !Promotes(vs[l].missCount, pc, thr)
    ensures SweepFrom(vs, k, pc, cID, thr, cap).0[j - k] == MissStep(vs[j].missCount, pc, thr, cap).0
    decreases |vs| - k
  {
    if k < j {
      SweepFromCounts(vs, k + 1, pc, cID, thr, cap, j);
    }
  }

  class ICSEntry {
    var indexPc: nat
    var cID: int
    var valid: bool
    var missCount: map<nat, nat>
    const candidateNum: nat

    ghost predicate Valid()
      reads this
    {
      |missCount| <= candidateNum
    }

    constructor (candidateNum: nat, valid: bool)
      ensures Valid()
      ensures this.candidateNum == candidateNum && this.valid == valid
      ensures indexPc == 0 && cID == 0 && missCount == map[]
    {
      this.candidateNum := candidateNum;
      this.valid := valid;
      indexPc := 0;
      cID := 0;
      missCount := map[];
    }

    /** Allocation to a new (index PC, context). */
    method Update(indexPcIn: nat, cIDIn: int)
      modifies this
      ensures Valid()
      ensures indexPc == indexPcIn && cID == cIDIn && missCount == map[] && valid == old(valid)
    {
      indexPc := indexPcIn;
      cID := cIDIn;
      missCount := map[];
    }

    method Validate()
      modifies this
      ensures valid
      ensures indexPc == old(indexPc) && cID == old(cID) && missCount == old(missCount)
    {
      valid := true;
    }

    /** `updateMiss`: count a miss of `missPc`; true when it has reached `thr`. */
    method UpdateMiss(missPc: nat, thr: nat) returns (r: bool)
      requires Valid()
      modifies this
      ensures Valid()
      ensures (missCount, r) == MissStep(old(missCount), missPc, thr, candidateNum)
      ensures indexPc == old(indexPc) && cID == old(cID) && valid == old(valid)
    {
      MissStepBounded(missCount, missPc, thr, candidateNum);
      if missPc in missCount {
        if missCount[missPc] >= thr {
          return true;
        } else {
          missCount := missCount[missPc := missCount[missPc] + 1];
        }
      } else if |missCount| < candidateNum {
        missCount := missCount[missPc := 0];
      }
      return false;
    }
  }
}
