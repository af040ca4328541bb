/**
 * The fixed-capacity tables of the diff-matching prefetcher
 * (diff_matching.cc) and their round-robin insertion with de-duplication.
 *
 * Every table is a vector of entries with a `valid` flag and a write cursor:
 * inserting a key that a valid entry already holds does nothing; otherwise
 * the entry under the cursor is re-allocated to the key and validated, and
 * the cursor advances modulo the capacity.
 */
module Tables {
  import opened Arith
  import opened DeltaTable
  import opened RangeTable
  import opened Scoreboard
  import opened MatchSpec

  datatype Option<T> = None | Some(value: T)

  // ---------------------------------------------------------------------
  // Index queue (a vector of plain records)
  // ---------------------------------------------------------------------

  /** An index-queue entry: a candidate index PC and how often it was tried and matched. */
  datatype IQEntry = IQEntry(indexPc: nat, cID: int, tried: nat, matched: nat, valid: bool)

  predicate IQHolds(e: IQEntry, pc: nat, cID: int)
  {
    e.valid && e.indexPc == pc && e.cID == cID
  }

  /** The first valid entry of `q` from `from` on holding (pc, cID). */
  function FindIQ(q: seq<IQEntry>, pc: nat, cID: int, from: nat): (r: Option<nat>)
    requires from <= |q|
    ensures r.Some? ==> from <= r.value < |q| && IQHolds(q[r.value], pc, cID)
    ensures r.Some? ==> forall j :: from <= j < r.value ==> !IQHolds(q[j], pc, cID)
    ensures r.None? ==> forall j :: from <= j < |q| ==> !IQHolds(q[j], pc, cID)
    decreases |q| - from
  {
    if from == |q| then None
    else if IQHolds(q[from], pc, cID) then Some(from)
    else FindIQ(q, pc, cID, from + 1)
  }

  /** No two valid entries hold the same key. */
  ghost predicate IQUnique(q: seq<IQEntry>)
  {
    forall a, b :: 0 <= a < |q| && 0 <= b < |q| && a != b && q[a].valid && q[b].valid ==>
      q[a].indexPc != q[b].indexPc || q[a].cID != q[b].cID
  }

  /** A queue of `n` invalid entries. */
  method NewIndexQueue(n: nat) returns (q: array<IQEntry>)
    ensures fresh(q) && q.Length == n && IQUnique(q[..])
    ensures forall i :: 0 <= i < n ==> !q[i].valid
  {
    q := new IQEntry[n](_ => IQEntry(0, 0, 0, 0, false));
  }

  /** `insertIndexQueue` on the queue contents and the cursor. */
  function IQInsert(q: seq<IQEntry>, ptr: nat, pc: nat, cID: int): (r: (seq<IQEntry>, nat))
    requires ptr < |q|
    ensures |r.0| == |q| && r.1 < |q|
  {
    if FindIQ(q, pc, cID, 0).Some? then (q, ptr)
    else (q[ptr := IQEntry(pc, cID, 0, 0, true)], (ptr + 1) % |q|)
  }

  /**
   * After an insertion the key is held by a valid entry, keys stay unique,
   * the cursor stays in range, and at most the slot under the old cursor changed.
   */
  lemma IQInsertEffect(q: seq<IQEntry>, ptr: nat, pc: nat, cID: int)
    requires ptr < |q| && IQUnique(q)
    ensures var (q', ptr') := IQInsert(q, ptr, pc, cID);
      && |q'| == |q| && ptr' < |q|
      && FindIQ(q', pc, cID, 0).Some?
      && IQUnique(q')
      && (forall j :: 0 <= j < |q| && j != ptr ==> q'[j] == q[j])
  {
    var (q', ptr') := IQInsert(q, ptr, pc, cID);
    if FindIQ(q, pc, cID, 0).None? {
      assert IQHolds(q'[ptr], pc, cID);
      var f := FindIQ(q', pc, cID, 0);
      assert f.Some?;
    }
  }

  /** `matchUpdate`'s first loop: the first valid entry holding the key has its `matched` raised. */
  function BumpMatched(q: seq<IQEntry>, pc: nat, cID: int): (r: seq<IQEntry>)
    ensures |r| == |q|
  {
    match FindIQ(q, pc, cID, 0)
    case None => q
    case Some(i) => q[i := q[i].(matched := q[i].matched + 1)]
  }

  /** Raising a counter keeps every key and validity flag. */
  lemma BumpMatchedKeepsKeys(q: seq<IQEntry>, pc: nat, cID: int)
    requires IQUnique(q)
    ensures IQUnique(BumpMatched(q, pc, cID))
    ensures forall j :: 0 <= j < |q| ==>
              var e := BumpMatched(q, pc, cID)[j];
              e.indexPc == q[j].indexPc && e.cID == q[j].cID && e.valid == q[j].valid && e.tried == q[j].tried
              && e.matched == q[j].matched + (if IQHolds(q[j], pc, cID) then 1 else 0)
  {
    match FindIQ(q, pc, cID, 0)
    case None =>
    case Some(i) =>
      forall j | 0 <= j < |q| && j != i
        ensures !IQHolds(q[j], pc, cID)
      {
      }
  }

  /** The search-then-insert of `insertIndexQueue` on the queue array and its cursor. */
  method QueueInsert(q: array<IQEntry>, ptr: nat, pc: nat, cID: int) returns (ptr': nat)
    requires ptr < q.Length
    modifies q
    ensures (q[..], ptr') == IQInsert(old(q[..]), ptr, pc, cID)
  {
    var i := 0;
    while i < q.Length
      invariant 0 <= i <= q.Length
      invariant forall j :: 0 <= j < i ==> !IQHolds(q[j], pc, cID)
    {
      if q[i].valid && q[i].indexPc == pc && q[i].cID == cID {
        assert IQHolds(q[..][i], pc, cID);
        return ptr;
      }
      i := i + 1;
    }
    assert FindIQ(q[..], pc, cID, 0).None?;
    q[ptr] := IQEntry(pc, cID, 0, 0, true);
    ptr' := (ptr + 1) % q.Length;
  }

  /** The first loop of `matchUpdate` on the queue array. */
  method QueueBumpMatched(q: array<IQEntry>, pc: nat, cID: int)
    modifies q
    ensures q[..] == BumpMatched(old(q[..]), pc, cID)
  {
    var i := 0;
    while i < q.Length
      invariant 0 <= i <= q.Length && q[..] == old(q[..])
      invariant forall j :: 0 <= j < i ==> !IQHolds(q[j], pc, cID)
    {
      if q[i].valid && q[i].indexPc == pc && q[i].cID == cID {
        assert FindIQ(q[..], pc, cID, 0) == Some(i) by {
          assert FindIQ(q[..], pc, cID, i) == Some(i);
          FindIQSkips(q[..], pc, cID, 0, i);
        }
        q[i] := q[i].(matched := q[i].matched + 1);
        return;
      }
      i := i + 1;
    }
    assert FindIQ(q[..], pc, cID, 0).None?;
  }

  /** Starting the search earlier than a stretch of non-holding entries finds the same entry. */
  lemma {:induction false} FindIQSkips(q: seq<IQEntry>, pc: nat, cID: int, lo: nat, hi: nat)
    requires lo <= hi <= |q|
    requires forall j :: lo <= j < hi ==> !IQHolds(q[j], pc, cID)
    ensures FindIQ(q, pc, cID, lo) == FindIQ(q, pc, cID, hi)
    decreases hi
  {
    if lo < hi {
      FindIQSkips(q, pc, cID, lo, hi - 1);
    }
  }

  /** `getWeight()` of an entry, given the weight as a function of (tried, matched). */
  function Weight(w: (nat, nat) -> real, e: IQEntry): real
  {
    w(e.tried, e.matched)
  }

  /**
   * The entry `pickIndexPC` chooses: a valid entry whose weight exceeds the
   * starting weight and is the greatest of all valid entries, with every
   * valid entry before it strictly lighter (ties go to the first).
   */
  ghost predicate IsPick(q: seq<IQEntry>, w: (nat, nat) -> real, floor: real, j: nat)
  {
    && j < |q| && q[j].valid && Weight(w, q[j]) > floor
    && (forall i :: 0 <= i < |q| && q[i].valid ==> Weight(w, q[i]) <= Weight(w, q[j]))
    && (forall i :: 0 <= i < j && q[i].valid ==> Weight(w, q[i]) < Weight(w, q[j]))
  }

  /** No valid entry weighs more than the starting weight, so nothing is picked. */
  ghost predicate NoPick(q: seq<IQEntry>, w: (nat, nat) -> real, floor: real)
  {
    forall i :: 0 <= i < |q| && q[i].valid ==> Weight(w, q[i]) <= floor
  }

  /** The choice is determined: at most one entry is the pick. */
  lemma PickUnique(q: seq<IQEntry>, w: (nat, nat) -> real, floor: real, j: nat, k: nat)
    requires IsPick(q, w, floor, j) && IsPick(q, w, floor, k)
    ensures j == k
  {
  }

  /** The scan of `pickIndexPC`: the running maximum starts at `floor` and only a strictly heavier entry replaces it. */
  method ChooseIndex(q: seq<IQEntry>, w: (nat, nat) -> real, floor: real) returns (r: Option<nat>)
    ensures r.Some? ==> IsPick(q, w, floor, r.value)
    ensures r.None? ==> NoPick(q, w, floor)
  {
    var cur := floor;
    r := None;
    var i := 0;
    while i < |q|
      invariant 0 <= i <= |q|
      invariant r.None? ==> cur == floor && forall k :: 0 <= k < i && q[k].valid ==> Weight(w, q[k]) <= floor
      invariant r.Some? ==> && r.value < i && q[r.value].valid && cur == Weight(w, q[r.value]) && cur > floor
                            && (forall k :: 0 <= k < i && q[k].valid ==> Weight(w, q[k]) <= cur)
                            && (forall k :: 0 <= k < r.value && q[k].valid ==> Weight(w, q[k]) < cur)
    {
      if q[i].valid {
        var tryWeight := Weight(w, q[i]);
        if tryWeight > cur {
          cur := tryWeight;
          r := Some(i);
        }
      }
      i := i + 1;
    }
  }

  /** Raising the `tried` counter of an entry keeps the keys unique. */
  lemma TriedKeepsKeys(q: seq<IQEntry>, j: nat)
    requires j < |q| && IQUnique(q)
    ensures IQUnique(q[j := q[j].(tried := q[j].tried + 1)])
  {
    var q' := q[j := q[j].(tried := q[j].tried + 1)];
    assert forall i :: 0 <= i < |q| ==> q'[i].indexPc == q[i].indexPc && q'[i].cID == q[i].cID && q'[i].valid == q[i].valid;
  }

  /** A valid queue entry holds (pc, cID). */
  ghost predicate Queued(q: seq<IQEntry>, pc: nat, cID: int)
  {
    exists i :: 0 <= i < |q| && IQHolds(q[i], pc, cID)
  }

  /**
   * `matchUpdate(indexPc, targetPc, cID)` as a function of the queue: the
   * index is credited with a match and the target queued. The target is
   * queued afterwards, and keys stay unique.
   */
  function MatchUpdateOf(q: seq<IQEntry>, ptr: nat, indexPc: nat, targetPc: nat, cID: int): (r: (seq<IQEntry>, nat))
    requires ptr < |q| && IQUnique(q)
    ensures |r.0| == |q| && r.1 < |q|
    ensures IQUnique(r.0) && Queued(r.0, targetPc, cID)
  {
    BumpMatchedKeepsKeys(q, indexPc, cID);
    IQInsertEffect(BumpMatched(q, indexPc, cID), ptr, targetPc, cID);
    IQInsert(BumpMatched(q, indexPc, cID), ptr, targetPc, cID)
  }

  // ---------------------------------------------------------------------
  // Relation table (a vector of plain records)
  // ---------------------------------------------------------------------

  /** What `findRTE` looks for: an entry serving the target, or the reverse relation. */
  predicate Blocks(e: RTEntry, indexPc: nat, targetPc: nat, cID: int)
  {
    e.valid && e.cID == cID && (e.targetPc == targetPc || (e.indexPc == targetPc && e.targetPc == indexPc))
  }

  /**
   * The relation-table invariants: at most one valid entry per (target PC,
   * context), and no two valid entries forming a two-node cycle.
   */
  ghost predicate RTInvariant(rt: seq<RTEntry>)
  {
    && (forall a, b :: 0 <= a < |rt| && 0 <= b < |rt| && a != b && rt[a].valid && rt[b].valid && rt[a].cID == rt[b].cID ==>
          rt[a].targetPc != rt[b].targetPc)
    && (forall a, b :: 0 <= a < |rt| && 0 <= b < |rt| && a != b && rt[a].valid && rt[b].valid && rt[a].cID == rt[b].cID ==>
          !(rt[a].indexPc == rt[b].targetPc && rt[a].targetPc == rt[b].indexPc))
  }

  /** `findRTE`: some valid entry keeps the relation (index PC, target PC) out of the table. */
  ghost predicate RTBlocked(rt: seq<RTEntry>, indexPc: nat, targetPc: nat, cID: int)
  {
    exists i :: 0 <= i < |rt| && Blocks(rt[i], indexPc, targetPc, cID)
  }

  /** A valid entry serves the target (PC, context); it blocks every further relation for it. */
  ghost predicate RTServes(rt: seq<RTEntry>, targetPc: nat, cID: int)
  {
    exists i :: 0 <= i < |rt| && rt[i].valid && rt[i].targetPc == targetPc && rt[i].cID == cID
  }

  /** Every index PC of `pcs` is blocked for the target. */
  ghost predicate AllBlocked(rt: seq<RTEntry>, pcs: seq<nat>, targetPc: nat, cID: int)
  {
    forall k :: 0 <= k < |pcs| ==> RTBlocked(rt, pcs[k], targetPc, cID)
  }

  /**
   * The relation table went from (rt0, p0) to (rt1, p1) by at most one write:
   * either nothing changed, or the slot under the cursor received a valid
   * relation from one of `pcs` to the target, which no entry served before,
   * and the cursor advanced.
   */
  ghost predicate AtMostOneWrite(rt0: seq<RTEntry>, p0: nat, rt1: seq<RTEntry>, p1: nat, pcs: seq<nat>, targetPc: nat, cID: int)
  {
    && p0 < |rt0| && |rt1| == |rt0|
    && ((rt1 == rt0 && p1 == p0)
        || (&& p1 == (p0 + 1) % |rt0|
            && rt1 == rt0[p0 := rt1[p0]]
            && rt1[p0].valid && rt1[p0].targetPc == targetPc && rt1[p0].cID == cID
            && rt1[p0].indexPc in pcs
            && !RTServes(rt0, targetPc, cID)))
  }

  /**
   * Two steps of at most one write each make one: after a write the target
   * is served, so the second step cannot write again.
   */
  lemma AtMostOneWriteCompose(rt0: seq<RTEntry>, p0: nat, rt1: seq<RTEntry>, p1: nat, rt2: seq<RTEntry>, p2: nat,
                              a: seq<nat>, b: seq<nat>, targetPc: nat, cID: int)
    requires AtMostOneWrite(rt0, p0, rt1, p1, a, targetPc, cID)
    requires AtMostOneWrite(rt1, p1, rt2, p2, b, targetPc, cID)
    ensures AtMostOneWrite(rt0, p0, rt2, p2, a + b, targetPc, cID)
  {
    if !(rt1 == rt0 && p1 == p0) {
      assert rt1[p0].valid && rt1[p0].targetPc == targetPc && rt1[p0].cID == cID;
      assert RTServes(rt1, targetPc, cID);
      assert rt1[p0].indexPc in a + b;
    } else if !(rt2 == rt1 && p2 == p1) {
      assert rt2[p1].indexPc in a + b;
    }
  }

  /** What was blocked stays blocked across at most one write for the same target. */
  lemma AllBlockedPersists(rt0: seq<RTEntry>, p0: nat, rt1: seq<RTEntry>, p1: nat, pcs: seq<nat>, more: seq<nat>,
                           targetPc: nat, cID: int)
    requires AllBlocked(rt0, pcs, targetPc, cID)
    requires AtMostOneWrite(rt0, p0, rt1, p1, more, targetPc, cID)
    ensures AllBlocked(rt1, pcs, targetPc, cID)
  {
    if !(rt1 == rt0 && p1 == p0) {
      forall k | 0 <= k < |pcs|
        ensures RTBlocked(rt1, pcs[k], targetPc, cID)
      {
        assert Blocks(rt1[p0], pcs[k], targetPc, cID);
      }
    }
  }

  /**
   * The effect on both tables of the matches found for one target, reported
   * in order by the index PCs `pcs`: at most one relation written, every
   * reported relation blocked afterwards, and, once anything was reported,
   * the target queued as an index candidate.
   */
  ghost predicate MatchEffect(rt0: seq<RTEntry>, p0: nat, rt: seq<RTEntry>, p: nat, q: seq<IQEntry>,
                              pcs: seq<nat>, targetPc: nat, cID: int)
  {
    && AtMostOneWrite(rt0, p0, rt, p, pcs, targetPc, cID)
    && AllBlocked(rt, pcs, targetPc, cID)
    && (|pcs| > 0 ==> Queued(q, targetPc, cID))
  }

  /** One more report extends the run: its relation is blocked and the target is queued. */
  lemma {:induction false} MatchEffectExtend(rt0: seq<RTEntry>, p0: nat, rt1: seq<RTEntry>, p1: nat, q1: seq<IQEntry>,
                                             rt2: seq<RTEntry>, p2: nat, q2: seq<IQEntry>,
                                             pcs: seq<nat>, indexPc: nat, targetPc: nat, cID: int)
    requires MatchEffect(rt0, p0, rt1, p1, q1, pcs, targetPc, cID)
    requires AtMostOneWrite(rt1, p1, rt2, p2, [indexPc], targetPc, cID) && RTBlocked(rt2, indexPc, targetPc, cID)
    requires Queued(q2, targetPc, cID)
    ensures MatchEffect(rt0, p0, rt2, p2, q2, pcs + [indexPc], targetPc, cID)
  {
    AtMostOneWriteCompose(rt0, p0, rt1, p1, rt2, p2, pcs, [indexPc], targetPc, cID);
    AllBlockedPersists(rt1, p1, rt2, p2, pcs, [indexPc], targetPc, cID);
    forall k | 0 <= k < |pcs + [indexPc]|
      ensures RTBlocked(rt2, (pcs + [indexPc])[k], targetPc, cID)
    {
      if k < |pcs| {
        assert (pcs + [indexPc])[k] == pcs[k];
      }
    }
  }

  /** The loop of `findRTE` over the relation table. */
  method FindRelation(rt: array<RTEntry>, indexPc: nat, targetPc: nat, cID: int) returns (found: bool)
    ensures found <==> RTBlocked(rt[..], indexPc, targetPc, cID)
  {
    var i := 0;
    while i < rt.Length
      invariant 0 <= i <= rt.Length
      invariant forall j :: 0 <= j < i ==> !Blocks(rt[j], indexPc, targetPc, cID)
    {
      if rt[i].valid && rt[i].targetPc == targetPc && rt[i].cID == cID {
        assert Blocks(rt[..][i], indexPc, targetPc, cID);
        return true;
      }
      if rt[i].valid && rt[i].indexPc == targetPc && rt[i].targetPc == indexPc && rt[i].cID == cID {
        assert Blocks(rt[..][i], indexPc, targetPc, cID);
        return true;
      }
      i := i + 1;
    }
    return false;
  }

  /** A relation table of `n` invalid entries. */
  method NewRelationTable(n: nat) returns (rt: array<RTEntry>)
    ensures fresh(rt) && rt.Length == n && RTInvariant(rt[..])
    ensures forall i :: 0 <= i < n ==> !rt[i].valid
  {
    rt := new RTEntry[n](_ => RTEntry(0, 0, 0, 0, false, 0, 0, false));
  }

  /** Overwriting any slot with a relation `findRTE` does not block keeps the invariants. */
  lemma {:induction false} InsertKeepsRTInvariant(rt: seq<RTEntry>, p: nat, e: RTEntry)
    requires p < |rt| && RTInvariant(rt)
    requires forall i :: 0 <= i < |rt| ==> !Blocks(rt[i], e.indexPc, e.targetPc, e.cID)
    ensures RTInvariant(rt[p := e])
  {
    var rt' := rt[p := e];
    forall a, b | 0 <= a < |rt'| && 0 <= b < |rt'| && a != b && rt'[a].valid && rt'[b].valid && rt'[a].cID == rt'[b].cID
      ensures rt'[a].targetPc != rt'[b].targetPc
      ensures !(rt'[a].indexPc == rt'[b].targetPc && rt'[a].targetPc == rt'[b].indexPc)
    {
      if a == p {
        assert !Blocks(rt[b], e.indexPc, e.targetPc, e.cID);
      } else if b == p {
        assert !Blocks(rt[a], e.indexPc, e.targetPc, e.cID);
      }
    }
  }

  // ---------------------------------------------------------------------
  // Delta tables (vectors of `DeltaTableEntry` objects)
  // ---------------------------------------------------------------------

  /** `update(pc, cID).validate()` has been applied to the entry: a fresh ring for the new key. */
  ghost predicate Allocated(e: DeltaTableEntry, pc: nat, cID: int)
    reads e
  {
    && e.pc == pc && e.cID == cID && e.valid
    && e.diffPtr == 0 && e.fills == 0 && e.history == []
  }

  /**
   * A delta table of `diffSize`-delta rings of `bits`-bit values: every entry
   * is well formed and filled exactly as often as it has recorded deltas since
   * it was last allocated, entries and their rings are distinct, and valid
   * keys are unique.
   */
  ghost predicate DeltaTableOk(t: seq<DeltaTableEntry>, diffSize: nat, bits: nat)
    reads set e | e in t, set e | e in t :: e.diff
  {
    && |t| >= 1
    && (forall i {:trigger t[i].Valid()} :: 0 <= i < |t| ==> t[i].Valid() && t[i].fills == |t[i].history|)
    && (forall i :: 0 <= i < |t| ==> t[i].diffSize == diffSize && t[i].bits == bits)
    && (forall i, j :: 0 <= i < |t| && 0 <= j < |t| && i != j ==> t[i] != t[j] && t[i].diff != t[j].diff)
    && (forall i, j :: 0 <= i < |t| && 0 <= j < |t| && i != j && t[i].valid && t[j].valid ==>
          t[i].pc != t[j].pc || t[i].cID != t[j].cID)
  }

  /** A valid entry of the table holds (pc, cID). */
  ghost predicate DeltaKeyed(t: seq<DeltaTableEntry>, pc: nat, cID: int)
    reads set e | e in t
  {
    exists i :: 0 <= i < |t| && t[i].valid && t[i].pc == pc && t[i].cID == cID
  }

  /** The search loop of `insertIDDT` / `insertTADT`: is (pc, cID) held by a valid entry? */
  method FindDelta(t: seq<DeltaTableEntry>, pc: nat, cID: int) returns (found: bool)
    ensures found <==> DeltaKeyed(t, pc, cID)
  {
    var i := 0;
    while i < |t|
      invariant 0 <= i <= |t|
      invariant forall j :: 0 <= j < i ==> !(t[j].valid && t[j].pc == pc && t[j].cID == cID)
    {
      if t[i].valid && t[i].pc == pc && t[i].cID == cID {
        return true;
      }
      i := i + 1;
    }
    return false;
  }

  /** `update(pc, cID).validate()` on slot p of a table that does not hold the key. */
  method AllocateDelta(t: seq<DeltaTableEntry>, ghost diffSize: nat, ghost bits: nat, p: nat, pc: nat, cID: int)
    requires p < |t| && DeltaTableOk(t, diffSize, bits) && !DeltaKeyed(t, pc, cID)
    modifies t[p]
    ensures DeltaTableOk(t, diffSize, bits) && DeltaKeyed(t, pc, cID)
    ensures Allocated(t[p], pc, cID) && t[p].last == old(t[p].last)
    ensures forall i :: 0 <= i < |t| && i != p ==> unchanged(t[i])
    ensures forall i :: 0 <= i < |t| ==> unchanged(t[i].diff)
  {
    t[p].Update(pc, cID);
    t[p].Validate();
  }

  /** `n` fresh, invalid delta-table entries. */
  method NewDeltaEntries(n: nat, diffSize: nat, bits: nat) returns (t: seq<DeltaTableEntry>)
    requires n >= 1 && diffSize >= 1 && bits >= 1
    ensures |t| == n && DeltaTableOk(t, diffSize, bits)
    ensures forall i :: 0 <= i < n ==> fresh(t[i]) && fresh(t[i].diff) && !t[i].valid
  {
    t := [];
    while |t| < n
      invariant |t| <= n
      invariant forall i :: 0 <= i < |t| ==> fresh(t[i]) && fresh(t[i].diff) && !t[i].valid && t[i].Valid()
      invariant forall i :: 0 <= i < |t| ==> t[i].diffSize == diffSize && t[i].bits == bits
      invariant forall i :: 0 <= i < |t| ==> t[i].fills == 0 && t[i].history == []
      invariant forall i, j :: 0 <= i < |t| && 0 <= j < |t| && i != j ==> t[i] != t[j] && t[i].diff != t[j].diff
    {
      var e := new DeltaTableEntry(0, 0, diffSize, false, bits);
      t := t + [e];
    }
  }

  /**
   * A delta table together with its write cursor: `iddt` and `iddt_ptr`, or
   * `tadt` and `tadt_ptr`. `Repr` is the set of entries and their rings.
   */
  class DeltaTableVec {
    const entries: seq<DeltaTableEntry>
    const diffSize: nat
    const bits: nat
    var ptr: nat
    ghost const Repr: set<object>

    /** No entry is valid (the state right after construction). */
    ghost predicate Empty()
      reads this, Repr
    {
      forall i :: 0 <= i < |entries| ==> entries[i] in Repr && !entries[i].valid
    }

    /** Entry j belongs to the table and is a well-formed ring of the table's configuration. */
    ghost predicate Readable(j: nat)
      reads Repr
    {
      && j < |entries| && entries[j] in Repr && entries[j].diff in Repr
      && entries[j].Valid() && entries[j].diffSize == diffSize && entries[j].bits == bits
    }

    ghost predicate Valid()
      reads this, Repr
    {
      && (forall i :: 0 <= i < |entries| ==> entries[i] in Repr && entries[i].diff in Repr)
      && DeltaTableOk(entries, diffSize, bits)
      && ptr < |entries|
    }

    /** `n` invalid entries of `diffSize`-delta rings of `bits`-bit values. */
    constructor (n: nat, diffSize: nat, bits: nat)
      requires n >= 1 && diffSize >= 1 && bits >= 1
      ensures Valid() && fresh(Repr)
      ensures |entries| == n && this.diffSize == diffSize && this.bits == bits && ptr == 0
      ensures Empty()
    {
      var t := NewDeltaEntries(n, diffSize, bits);
      entries := t;
      this.diffSize := diffSize;
      this.bits := bits;
      ptr := 0;
      Repr := (set e: object | e in t) + (set e | e in t :: e.diff);
    }

    /** `insertIDDT` / `insertTADT`: make sure a valid entry holds (pc, cID). */
    method Insert(pc: nat, cID: int)
      requires Valid()
      modifies this, Repr
      ensures Valid()
      ensures DeltaKeyed(entries, pc, cID)
      ensures forall i :: 0 <= i < |entries| ==> unchanged(entries[i].diff)
      ensures forall i :: 0 <= i < |entries| && i != old(ptr) ==> unchanged(entries[i])
      ensures old(DeltaKeyed(entries, pc, cID)) ==> unchanged(entries[ptr]) && ptr == old(ptr)
      ensures !old(DeltaKeyed(entries, pc, cID)) ==>
                && Allocated(entries[old(ptr)], pc, cID)
                && entries[old(ptr)].last == old(entries[ptr].last)
                && ptr == (old(ptr) + 1) % |entries|
    {
      var found := FindDelta(entries, pc, cID);
      if !found {
        AllocateDelta(entries, diffSize, bits, ptr, pc, cID);
        ptr := (ptr + 1) % |entries|;
      }
    }

    /** `fill(v, c)` on entry k. */
    method FillEntry(k: nat, v: int, c: int)
      requires Valid() && k < |entries| && entries[k].Valid() && entries[k].InWidth(v)
      modifies entries[k], entries[k].diff
      ensures Valid()
      ensures var e := entries[k];
              && e.pc == old(e.pc) && e.cID == old(e.cID) && e.valid == old(e.valid)
              && (c != old(e.cID) ==> unchanged(e))
              && (c == old(e.cID) ==> e.last == v && e.fills == old(e.fills) + 1 && e.history == old(e.history) + [Signed(v - old(e.last), bits)])
    {
      entries[k].Fill(v, c);
    }
  }

  /** The observable state of one delta-table entry. */
  datatype RingState = RingState(valid: bool, pc: nat, cID: int, last: int, history: seq<int>)

  ghost function RingStateOf(e: DeltaTableEntry): RingState
    reads e
  {
    RingState(e.valid, e.pc, e.cID, e.last, e.history)
  }

  /** The observable state of every entry of t, in table order. */
  ghost function RingStates(t: seq<DeltaTableEntry>): (r: seq<RingState>)
    reads set e | e in t
    ensures |r| == |t| && forall i :: 0 <= i < |t| ==> r[i] == RingStateOf(t[i])
  {
    if |t| == 0 then [] else RingStates(t[..|t| - 1]) + [RingStateOf(t[|t| - 1])]
  }

  /** A valid entry holds (pc, cID). */
  predicate RingKeyed(s: seq<RingState>, pc: nat, cID: int)
  {
    exists i :: 0 <= i < |s| && s[i].valid && s[i].pc == pc && s[i].cID == cID
  }

  /** The states of a table hold a key exactly when a valid entry of the table does. */
  lemma RingKeyedOf(t: seq<DeltaTableEntry>, pc: nat, cID: int)
    ensures RingKeyed(RingStates(t), pc, cID) <==> DeltaKeyed(t, pc, cID)
  {
    var s := RingStates(t);
    if RingKeyed(s, pc, cID) {
      var i :| 0 <= i < |s| && s[i].valid && s[i].pc == pc && s[i].cID == cID;
      assert t[i].valid && t[i].pc == pc && t[i].cID == cID;
    }
  }

  /** A table whose entries kept their states except slot p, which now holds the allocation of the new key. */
  lemma RingStatesUpdate(t: seq<DeltaTableEntry>, s0: seq<RingState>, p: nat)
    requires |s0| == |t| && p < |t|
    requires forall i :: 0 <= i < |t| && i != p ==> RingStateOf(t[i]) == s0[i]
    ensures RingStates(t) == s0[p := RingStateOf(t[p])]
  {
  }

  /**
   * `insertIDDT` / `insertTADT` on the entries' states and the cursor: a key
   * already held changes nothing; otherwise the entry under the cursor is
   * re-keyed and validated with an empty history (its newest value is kept),
   * and the cursor advances.
   */
  function DeltaInsertOf(s: seq<RingState>, ptr: nat, pc: nat, cID: int): (r: (seq<RingState>, nat))
    requires ptr < |s|
  {
    if RingKeyed(s, pc, cID) then (s, ptr)
    else (s[ptr := RingState(true, pc, cID, s[ptr].last, [])], (ptr + 1) % |s|)
  }

  /**
   * After an insert the key is held, only the cursor's slot may have changed,
   * the cursor stays in range, and inserting the same key again changes nothing.
   */
  lemma DeltaInsertSettles(s: seq<RingState>, ptr: nat, pc: nat, cID: int)
    requires ptr < |s|
    ensures var r := DeltaInsertOf(s, ptr, pc, cID);
            && |r.0| == |s| && r.1 < |s| && RingKeyed(r.0, pc, cID)
            && (forall i :: 0 <= i < |s| && i != ptr ==> r.0[i] == s[i])
            && DeltaInsertOf(r.0, r.1, pc, cID) == r
  {
    var r := DeltaInsertOf(s, ptr, pc, cID);
    if !RingKeyed(s, pc, cID) {
      assert r.0[ptr].valid && r.0[ptr].pc == pc && r.0[ptr].cID == cID;
    }
  }

  /**
   * What `DeltaTableVec.Insert` promises about the entries t, whose states
   * were s0 with the cursor at ptr, seen on their states: the new states and
   * cursor ptr' are `DeltaInsertOf` of the old ones.
   */
  lemma DeltaInsertView(t: seq<DeltaTableEntry>, s0: seq<RingState>, ptr: nat, ptr': nat, pc: nat, cID: int)
    requires ptr < |t| == |s0|
    requires forall i :: 0 <= i < |t| && i != ptr ==> RingStateOf(t[i]) == s0[i]
    requires RingKeyed(s0, pc, cID) ==> RingStateOf(t[ptr]) == s0[ptr] && ptr' == ptr
    requires !RingKeyed(s0, pc, cID) ==>
               && Allocated(t[ptr], pc, cID) && t[ptr].last == s0[ptr].last
               && ptr' == (ptr + 1) % |t|
    ensures (RingStates(t), ptr') == DeltaInsertOf(s0, ptr, pc, cID)
  {
    RingStatesUpdate(t, s0, ptr);
    if RingKeyed(s0, pc, cID) {
      assert s0[ptr := s0[ptr]] == s0;
    } else {
      assert RingStateOf(t[ptr]) == RingState(true, pc, cID, s0[ptr].last, []);
    }
  }

  /**
   * A response of `pc` carrying v, in context c, seen by one entry: a valid
   * entry of that PC whose newest value is not already v records v (the
   * two-argument `fill`, which ignores another context); every other entry
   * stays as it is.
   */
  ghost function AfterResponse(s: RingState, pc: nat, v: int, c: int, bits: nat): RingState
    requires bits >= 1
  {
    if s.valid && s.pc == pc && s.last != v && s.cID == c then
      s.(last := v, history := s.history + [Signed(v - s.last, bits)])
    else
      s
  }

  /**
   * A response leaves the key of every entry alone, leaves every listening
   * entry holding v, and a second identical response changes nothing (the
   * repetition check).
   */
  lemma ResponseSettles(s: RingState, pc: nat, v: int, c: int, bits: nat)
    requires bits >= 1
    ensures var s' := AfterResponse(s, pc, v, c, bits);
            && s'.valid == s.valid && s'.pc == s.pc && s'.cID == s.cID
            && (s.valid && s.pc == pc && s.cID == c ==> s'.last == v)
            && (s' != s ==> |s'.history| == |s.history| + 1)
            && AfterResponse(s', pc, v, c, bits) == s'
  {
  }

  /**
   * The entry loop of `notifyL1Resp` on a delta table: every entry sees the
   * response of `pc` carrying v in context c, in table order.
   */
  method RecordResponse(t: DeltaTableVec, pc: nat, v: int, c: int)
    requires t.Valid() && t.bits >= 1 && -(Pow2(t.bits - 1) as int) <= v < Pow2(t.bits - 1)
    modifies t.Repr
    ensures t.Valid()
    ensures forall i :: 0 <= i < |t.entries| ==>
              RingStateOf(t.entries[i]) == AfterResponse(old(RingStateOf(t.entries[i])), pc, v, c, t.bits)
  {
    var n := |t.entries|;
    var i := 0;
    while i < n
      invariant i <= n && t.Valid()
      invariant forall j :: i <= j < n ==> unchanged(t.entries[j])
      invariant forall j :: 0 <= j < i ==>
                  RingStateOf(t.entries[j]) == AfterResponse(old(RingStateOf(t.entries[j])), pc, v, c, t.bits)
    {
      RecordStep(t, i, pc, v, c);
      i := i + 1;
    }
  }

  /** One turn of the loop of `RecordResponse`, on entry i. */
  method RecordStep(t: DeltaTableVec, i: nat, pc: nat, v: int, c: int)
    requires t.Valid() && i < |t.entries| && t.bits >= 1 && -(Pow2(t.bits - 1) as int) <= v < Pow2(t.bits - 1)
    modifies t.entries[i], t.entries[i].diff
    ensures t.Valid()
    ensures RingStateOf(t.entries[i]) == AfterResponse(old(RingStateOf(t.entries[i])), pc, v, c, t.bits)
    ensures old(RingStateOf(t.entries[i])) == AfterResponse(old(RingStateOf(t.entries[i])), pc, v, c, t.bits) ==>
              unchanged(t.entries[i])
  {
    var e := t.entries[i];
    if e.valid && e.pc == pc && e.last != v {
      assert e.Valid();
      t.FillEntry(i, v, c);
    }
  }

  // ---------------------------------------------------------------------
  // Indirect-candidate scoreboard (a vector of `ICSEntry` objects)
  // ---------------------------------------------------------------------

  /** A scoreboard whose entries track up to `candidateNum` PCs each, are distinct, and have unique valid keys. */
  ghost predicate ICSTableOk(t: seq<ICSEntry>, candidateNum: nat)
    reads set e | e in t
  {
    && |t| >= 1
    && (forall i {:trigger t[i].Valid()} :: 0 <= i < |t| ==> t[i].Valid() && t[i].candidateNum == candidateNum)
    && (forall i, j :: 0 <= i < |t| && 0 <= j < |t| && i != j ==> t[i] != t[j])
    && (forall i, j :: 0 <= i < |t| && 0 <= j < |t| && i != j && t[i].valid && t[j].valid ==>
          t[i].indexPc != t[j].indexPc || t[i].cID != t[j].cID)
  }

  /** A valid entry of the scoreboard observes (pc, cID). */
  ghost predicate ICSKeyed(t: seq<ICSEntry>, pc: nat, cID: int)
    reads set e | e in t
  {
    exists i :: 0 <= i < |t| && t[i].valid && t[i].indexPc == pc && t[i].cID == cID
  }

  /** The search loop of `insertICS`: is (pc, cID) observed by a valid entry? */
  method FindScoreboard(t: seq<ICSEntry>, pc: nat, cID: int) returns (found: bool)
    ensures found <==> ICSKeyed(t, pc, cID)
  {
    var i := 0;
    while i < |t|
      invariant 0 <= i <= |t|
      invariant forall j :: 0 <= j < i ==> !(t[j].valid && t[j].indexPc == pc && t[j].cID == cID)
    {
      if t[i].valid && t[i].indexPc == pc && t[i].cID == cID {
        return true;
      }
      i := i + 1;
    }
    return false;
  }

  /** `update(pc, cID).validate()` on slot p of a scoreboard that does not observe the key. */
  method AllocateScoreboard(t: seq<ICSEntry>, ghost candidateNum: nat, p: nat, pc: nat, cID: int)
    requires p < |t| && ICSTableOk(t, candidateNum) && !ICSKeyed(t, pc, cID)
    modifies t[p]
    ensures ICSTableOk(t, candidateNum) && ICSKeyed(t, pc, cID)
    ensures t[p].indexPc == pc && t[p].cID == cID && t[p].valid && t[p].missCount == map[]
  {
    t[p].Update(pc, cID);
    t[p].Validate();
  }

  /** What the scoreboard loop of `notifyICSMiss` reads of entry e. */
  function MissViewOf(e: ICSEntry): MissView
    reads e
  {
    MissView(e.valid, e.cID, e.missCount)
  }

  /** The view of every entry of t, in table order. */
  ghost function MissViews(t: seq<ICSEntry>): (r: seq<MissView>)
    reads set e | e in t
    ensures |r| == |t| && forall i :: 0 <= i < |t| ==> r[i] == MissViewOf(t[i])
  {
    if |t| == 0 then [] else MissViews(t[..|t| - 1]) + [MissViewOf(t[|t| - 1])]
  }

  /**
   * The scoreboard loop of `notifyICSMiss`: `updateMiss(missPc, ics_candidate_num)`
   * on each valid entry of context cID, in table order, until one reports.
   */
  method SweepMisses(t: seq<ICSEntry>, candidateNum: nat, missPc: nat, cID: int) returns (selected: bool)
    requires ICSTableOk(t, candidateNum)
    modifies set e | e in t
    ensures ICSTableOk(t, candidateNum)
    ensures forall i :: 0 <= i < |t| ==>
              t[i].indexPc == old(t[i].indexPc) && t[i].valid == old(t[i].valid) && t[i].cID == old(t[i].cID)
    ensures var r := MissSweep(old(MissViews(t)), missPc, cID, candidateNum, candidateNum);
            selected == r.1 && forall i :: 0 <= i < |t| ==> t[i].missCount == r.0[i]
  {
    ghost var keys := seq(|t|, j requires 0 <= j < |t| reads t => t[j].indexPc);
    ghost var vs := MissViews(t);
    ghost var r := MissSweep(vs, missPc, cID, candidateNum, candidateNum);
    var i := 0;
    while i < |t|
      invariant 0 <= i <= |t|
      invariant ICSTableOk(t, candidateNum)
      invariant forall j :: 0 <= j < |t| ==> t[j].indexPc == keys[j] && t[j].valid == vs[j].valid && t[j].cID == vs[j].cID
      invariant forall j :: 0 <= j < i ==> t[j].missCount == r.0[j]
      invariant forall j :: i <= j < |t| ==> t[j].missCount == vs[j].missCount
      invariant SweepFrom(vs, i, missPc, cID, candidateNum, candidateNum) == (r.0[i..], r.1)
    {
      var hit := SweepStep(t, candidateNum, missPc, cID, i, keys, vs, r);
      if hit {
        return true;
      }
      i := i + 1;
    }
    return false;
  }

  /** One pass of `notifyICSMiss`'s loop, on entry i. */
  method SweepStep(t: seq<ICSEntry>, candidateNum: nat, missPc: nat, cID: int, i: nat,
                   ghost keys: seq<nat>, ghost vs: seq<MissView>, ghost r: (seq<map<nat, nat>>, bool))
    returns (hit: bool)
    requires i < |t| == |keys| == |vs| == |r.0| && ICSTableOk(t, candidateNum)
    requires forall j :: 0 <= j < |t| ==> t[j].indexPc == keys[j] && t[j].valid == vs[j].valid && t[j].cID == vs[j].cID
    requires forall j :: 0 <= j < i ==> t[j].missCount == r.0[j]
    requires forall j :: i <= j < |t| ==> t[j].missCount == vs[j].missCount
    requires SweepFrom(vs, i, missPc, cID, candidateNum, candidateNum) == (r.0[i..], r.1)
    modifies t[i]
    ensures ICSTableOk(t, candidateNum)
    ensures forall j :: 0 <= j < |t| ==> t[j].indexPc == keys[j] && t[j].valid == vs[j].valid && t[j].cID == vs[j].cID
    ensures hit ==> r.1 && forall j :: 0 <= j < |t| ==> t[j].missCount == r.0[j]
    ensures !hit ==>
              && (forall j :: 0 <= j <= i ==> t[j].missCount == r.0[j])
              && (forall j :: i < j < |t| ==> t[j].missCount == vs[j].missCount)
              && SweepFrom(vs, i + 1, missPc, cID, candidateNum, candidateNum) == (r.0[i + 1..], r.1)
  {
    assert r.0[i + 1..] == r.0[i..][1..];
    if t[i].valid && t[i].cID == cID {
      hit := t[i].UpdateMiss(missPc, candidateNum);
      if hit {
        forall j | i < j < |t|
          ensures t[j].missCount == r.0[j]
        {
          assert r.0[j] == r.0[i..][j - i];
        }
      }
    } else {
      hit := false;
    }
  }

  /** `n` fresh, invalid scoreboard entries. */
  method NewScoreboardEntries(n: nat, candidateNum: nat) returns (t: seq<ICSEntry>)
    requires n >= 1
    ensures |t| == n && ICSTableOk(t, candidateNum)
    ensures forall i :: 0 <= i < n ==> fresh(t[i]) && !t[i].valid
  {
    t := [];
    while |t| < n
      invariant |t| <= n
      invariant forall i :: 0 <= i < |t| ==> fresh(t[i]) && !t[i].valid && t[i].Valid() && t[i].candidateNum == candidateNum
      invariant forall i, j :: 0 <= i < |t| && 0 <= j < |t| && i != j ==> t[i] != t[j]
    {
      var e := new ICSEntry(candidateNum, false);
      t := t + [e];
    }
  }

  /** The scoreboard `ics` with its cursor `ics_ptr`. */
  class ScoreboardVec {
    const entries: seq<ICSEntry>
    const candidateNum: nat
    var ptr: nat
    ghost const Repr: set<object>

    /** No entry is valid (the state right after construction). */
    ghost predicate Empty()
      reads this, Repr
    {
      forall i :: 0 <= i < |entries| ==> entries[i] in Repr && !entries[i].valid
    }

    ghost predicate Valid()
      reads this, Repr
    {
      && (forall i :: 0 <= i < |entries| ==> entries[i] in Repr)
      && ICSTableOk(entries, candidateNum)
      && ptr < |entries|
    }

    constructor (n: nat, candidateNum: nat)
      requires n >= 1
      ensures Valid() && fresh(Repr)
      ensures |entries| == n && this.candidateNum == candidateNum && ptr == 0
      ensures Empty()
    {
      var t := NewScoreboardEntries(n, candidateNum);
      entries := t;
      this.candidateNum := candidateNum;
      ptr := 0;
      Repr := set e: object | e in t;
    }

    /** `insertICS`: make sure a valid entry observes (pc, cID), with fresh counters if it is new. */
    method Insert(pc: nat, cID: int)
      requires Valid()
      modifies this, Repr
      ensures Valid()
      ensures ICSKeyed(entries, pc, cID)
      ensures forall i :: 0 <= i < |entries| && i != old(ptr) ==> unchanged(entries[i])
      ensures old(ICSKeyed(entries, pc, cID)) ==> unchanged(entries[ptr]) && ptr == old(ptr)
      ensures !old(ICSKeyed(entries, pc, cID)) ==>
                && entries[old(ptr)].indexPc == pc && entries[old(ptr)].cID == cID
                && entries[old(ptr)].valid && entries[old(ptr)].missCount == map[]
                && ptr == (old(ptr) + 1) % |entries|
    {
      var found := FindScoreboard(entries, pc, cID);
      if !found {
        AllocateScoreboard(entries, candidateNum, ptr, pc, cID);
        ptr := (ptr + 1) % |entries|;
      }
    }
  }

  /** The observable state of one scoreboard entry. */
  datatype ScoreState = ScoreState(valid: bool, indexPc: nat, cID: int, missCount: map<nat, nat>)

  function ScoreStateOf(e: ICSEntry): ScoreState
    reads e
  {
    ScoreState(e.valid, e.indexPc, e.cID, e.missCount)
  }

  /** The observable state of every scoreboard entry of t, in table order. */
  ghost function ScoreStates(t: seq<ICSEntry>): (r: seq<ScoreState>)
    reads set e | e in t
    ensures |r| == |t| && forall i :: 0 <= i < |t| ==> r[i] == ScoreStateOf(t[i])
  {
    if |t| == 0 then [] else ScoreStates(t[..|t| - 1]) + [ScoreStateOf(t[|t| - 1])]
  }

  /** A valid entry observes (pc, cID). */
  predicate ScoreKeyed(s: seq<ScoreState>, pc: nat, cID: int)
  {
    exists i :: 0 <= i < |s| && s[i].valid && s[i].indexPc == pc && s[i].cID == cID
  }

  /**
   * `insertICS` on the entries' states and the cursor: a key already observed
   * changes nothing; otherwise the entry under the cursor is re-keyed,
   * validated and its counters cleared, and the cursor advances.
   */
  function ICSInsertOf(s: seq<ScoreState>, ptr: nat, pc: nat, cID: int): (r: (seq<ScoreState>, nat))
    requires ptr < |s|
  {
    if ScoreKeyed(s, pc, cID) then (s, ptr)
    else (s[ptr := ScoreState(true, pc, cID, map[])], (ptr + 1) % |s|)
  }

  /**
   * After `insertICS` the key is observed, only the cursor's slot may have
   * changed, the cursor stays in range, and inserting the same key again
   * changes nothing.
   */
  lemma ICSInsertSettles(s: seq<ScoreState>, ptr: nat, pc: nat, cID: int)
    requires ptr < |s|
    ensures var r := ICSInsertOf(s, ptr, pc, cID);
            && |r.0| == |s| && r.1 < |s| && ScoreKeyed(r.0, pc, cID)
            && (forall i :: 0 <= i < |s| && i != ptr ==> r.0[i] == s[i])
            && ICSInsertOf(r.0, r.1, pc, cID) == r
  {
    var r := ICSInsertOf(s, ptr, pc, cID);
    if !ScoreKeyed(s, pc, cID) {
      assert r.0[ptr].valid && r.0[ptr].indexPc == pc && r.0[ptr].cID == cID;
    }
  }

  /** The states of a scoreboard observe a key exactly when a valid entry of it does. */
  lemma ScoreKeyedOf(t: seq<ICSEntry>, pc: nat, cID: int)
    ensures ScoreKeyed(ScoreStates(t), pc, cID) <==> ICSKeyed(t, pc, cID)
  {
    var s := ScoreStates(t);
    if ScoreKeyed(s, pc, cID) {
      var i :| 0 <= i < |s| && s[i].valid && s[i].indexPc == pc && s[i].cID == cID;
      assert t[i].valid && t[i].indexPc == pc && t[i].cID == cID;
    }
  }

  /**
   * What `ScoreboardVec.Insert` promises about the entries t, whose states
   * were s0 with the cursor at ptr, seen on their states: the new states and
   * cursor ptr' are `ICSInsertOf` of the old ones.
   */
  lemma ICSInsertView(t: seq<ICSEntry>, s0: seq<ScoreState>, ptr: nat, ptr': nat, pc: nat, cID: int)
    requires ptr < |t| == |s0|
    requires forall i :: 0 <= i < |t| && i != ptr ==> ScoreStateOf(t[i]) == s0[i]
    requires ScoreKeyed(s0, pc, cID) ==> ScoreStateOf(t[ptr]) == s0[ptr] && ptr' == ptr
    requires !ScoreKeyed(s0, pc, cID) ==>
               && t[ptr].indexPc == pc && t[ptr].cID == cID && t[ptr].valid && t[ptr].missCount == map[]
               && ptr' == (ptr + 1) % |t|
    ensures (ScoreStates(t), ptr') == ICSInsertOf(s0, ptr, pc, cID)
  {
    ScoreStatesUpdate(t, s0, ptr);
    if ScoreKeyed(s0, pc, cID) {
      assert s0[ptr := s0[ptr]] == s0;
    } else {
      assert ScoreStateOf(t[ptr]) == ScoreState(true, pc, cID, map[]);
    }
  }

  /** A scoreboard whose entries kept their states except slot p. */
  lemma ScoreStatesUpdate(t: seq<ICSEntry>, s0: seq<ScoreState>, p: nat)
    requires |s0| == |t| && p < |t|
    requires forall i :: 0 <= i < |t| && i != p ==> ScoreStateOf(t[i]) == s0[i]
    ensures ScoreStates(t) == s0[p := ScoreStateOf(t[p])]
  {
  }

  // ---------------------------------------------------------------------
  // Range table (a vector of `RangeTableEntry` objects)
  // ---------------------------------------------------------------------

  /** The range table: `4 * n` distinct, well-formed entries of which only the first `n` can be valid. */
  ghost predicate RangeTableOk(t: seq<RangeTableEntry>, n: nat)
    reads set e | e in t
  {
    && n >= 1
    && |t| == 4 * n
    && (forall i {:trigger t[i].Valid()} :: 0 <= i < |t| ==> t[i].Valid())
    && (forall i, j :: 0 <= i < |t| && 0 <= j < |t| && i != j ==> t[i] != t[j])
    && (forall i :: n <= i < |t| ==> !t[i].valid)
  }

  /** A valid entry of the range table samples (pc, cID). */
  ghost predicate RangeKeyed(t: seq<RangeTableEntry>, pc: nat, cID: int)
    reads set e | e in t
  {
    exists i :: 0 <= i < |t| && t[i].valid && t[i].targetPc == pc && t[i].cID == cID
  }

  /** The slot that write number k of `insertRG`'s loop goes to. */
  function Slot(ptr: nat, k: nat, n: nat): nat
    requires n > 0
  {
    (ptr + k) % n
  }

  /** The first write goes to the cursor's own slot. */
  lemma SlotFirst(ptr: nat, n: nat)
    requires ptr < n
    ensures Slot(ptr, 0, n) == ptr
  {
    DivModUnique(ptr, n, 0, ptr);
  }

  /**
   * Of the first m writes of `insertRG`'s loop, which go to slots ptr,
   * ptr+1, ... modulo n, the last one that lands on slot i.
   */
  function LastWrite(ptr: nat, n: nat, m: nat, i: nat): (r: Option<nat>)
    requires n > 0
    ensures r.Some? ==> r.value < m && Slot(ptr, r.value, n) == i
    ensures r.Some? ==> forall k :: r.value < k < m ==> Slot(ptr, k, n) != i
    ensures r.None? ==> forall k :: 0 <= k < m ==> Slot(ptr, k, n) != i
  {
    if m == 0 then None
    else if Slot(ptr, m - 1, n) == i then Some(m - 1)
    else LastWrite(ptr, n, m - 1, i)
  }

  /** The fields of a range-table entry that `insertRG` can change. */
  datatype RangeFields = RangeFields(targetPc: nat, cID: int, valid: bool, shiftTimes: nat,
                                     curTail: nat, curCount: nat, sampleCount: seq<nat>)

  function FieldsOf(e: RangeTableEntry): RangeFields
    reads e
  {
    RangeFields(e.targetPc, e.cID, e.valid, e.shiftTimes, e.curTail, e.curCount, e.sampleCount)
  }

  /** The fields of an entry of `level` buckets after `update(pc, addr, shift, cID).validate()`. */
  function Allocation(pc: nat, addr: nat, shift: nat, cID: int, level: nat): RangeFields
  {
    RangeFields(pc, cID, true, shift, ShiftRight(addr, shift), 0, Zeros(level))
  }

  /**
   * Slot i after the first m writes of `insertRG`'s loop, given its fields f
   * before the loop: the allocation of the last write that reached it, if any.
   */
  function AfterWrites(f: RangeFields, level: nat, ptr: nat, n: nat, shifts: seq<nat>, m: nat, i: nat,
                       addr: nat, pc: nat, cID: int): RangeFields
    requires n > 0 && m <= |shifts|
  {
    match LastWrite(ptr, n, m, i)
    case None => f
    case Some(k) => Allocation(pc, addr, shifts[k], cID, level)
  }

  /** The fields of every entry of t, in table order. */
  ghost function FieldsSeq(t: seq<RangeTableEntry>): (r: seq<RangeFields>)
    reads set e | e in t
    ensures |r| == |t| && forall i :: 0 <= i < |t| ==> r[i] == FieldsOf(t[i])
  {
    if |t| == 0 then [] else FieldsSeq(t[..|t| - 1]) + [FieldsOf(t[|t| - 1])]
  }

  /** What `rangeFilter` reads and changes of a range-table entry. */
  datatype SampleView = SampleView(valid: bool, targetPc: nat, cID: int, shiftTimes: nat,
                                   unit: nat, level: nat, state: SampleState)

  function SampleViewOf(e: RangeTableEntry): SampleView
    reads e
  {
    SampleView(e.valid, e.targetPc, e.cID, e.shiftTimes, e.unit, e.level, e.State())
  }

  /** The view of every entry of t, in table order. */
  ghost function SampleViews(t: seq<RangeTableEntry>): (r: seq<SampleView>)
    reads set e | e in t
    ensures |r| == |t| && forall i :: 0 <= i < |t| ==> r[i] == SampleViewOf(t[i])
  {
    if |t| == 0 then [] else SampleViews(t[..|t| - 1]) + [SampleViewOf(t[|t| - 1])]
  }

  /** A histogram configuration `updateSample` can work with. */
  predicate WellSized(v: SampleView)
  {
    v.unit >= 1 && v.level >= 1 && |v.state.hist| == v.level
  }

  /** The entry is a valid sampler of (pc, cID). */
  predicate Samples(v: SampleView, pc: nat, cID: int)
  {
    v.valid && v.targetPc == pc && v.cID == cID
  }

  /** Whether `addr`, shifted by the entry's shift, continues the entry's current run. */
  function ContinuesRun(v: SampleView, addr: nat): bool
  {
    Continues(v.state.tail, ShiftRight(addr, v.shiftTimes))
  }

  /** The entry after `rangeFilter(pc, addr, cID)`: a sampler of (pc, cID) takes one sample, any other entry is left alone. */
  function AfterFilter(v: SampleView, addr: nat, pc: nat, cID: int): (r: SampleView)
    requires WellSized(v)
    ensures WellSized(r)
  {
    if Samples(v, pc, cID) then v.(state := SampleStep(v.state, ShiftRight(addr, v.shiftTimes), v.unit, v.level).0)
    else v
  }

  /**
   * `rangeFilter(pc, addr, cID)`: every valid entry of (pc, cID) samples
   * `addr`; the result is true exactly when none of them sees `addr`
   * continue its current run (in particular when there is no such entry).
   */
  method FilterRanges(t: seq<RangeTableEntry>, n: nat, pc: nat, addr: nat, cID: int) returns (ret: bool)
    requires RangeTableOk(t, n) && addr < U64
    modifies set e | e in t
    ensures RangeTableOk(t, n)
    ensures forall i :: 0 <= i < |t| ==> old(t[i].Valid()) && SampleViewOf(t[i]) == AfterFilter(old(SampleViewOf(t[i])), addr, pc, cID)
    ensures ret <==> forall i :: 0 <= i < |t| && old(Samples(SampleViewOf(t[i]), pc, cID)) ==> !old(ContinuesRun(SampleViewOf(t[i]), addr))
  {
    ghost var vs := SampleViews(t);
    forall j | 0 <= j < |t|
      ensures WellSized(vs[j])
    {
      assert t[j].Valid();
    }
    ret := true;
    var i := 0;
    while i < |t|
      invariant 0 <= i <= |t|
      invariant RangeTableOk(t, n)
      invariant forall j {:trigger SampleViewOf(t[j])} :: 0 <= j < |t| ==>
                  SampleViewOf(t[j]) == if j < i then AfterFilter(vs[j], addr, pc, cID) else vs[j]
      invariant ret <==> forall j :: 0 <= j < i && Samples(vs[j], pc, cID) ==> !ContinuesRun(vs[j], addr)
    {
      ret := FilterStep(t, n, pc, addr, cID, i, vs, ret);
      i := i + 1;
    }
  }

  /** One pass of `rangeFilter`'s loop, on entry i. */
  method FilterStep(t: seq<RangeTableEntry>, n: nat, pc: nat, addr: nat, cID: int, i: nat,
                    ghost vs: seq<SampleView>, ret: bool) returns (ret': bool)
    requires RangeTableOk(t, n) && addr < U64 && i < |t| == |vs|
    requires forall j :: 0 <= j < |t| ==> WellSized(vs[j])
    requires forall j {:trigger SampleViewOf(t[j])} :: 0 <= j < |t| ==>
               SampleViewOf(t[j]) == if j < i then AfterFilter(vs[j], addr, pc, cID) else vs[j]
    requires ret <==> forall j :: 0 <= j < i && Samples(vs[j], pc, cID) ==> !ContinuesRun(vs[j], addr)
    modifies t[i]
    ensures RangeTableOk(t, n)
    ensures forall j {:trigger SampleViewOf(t[j])} :: 0 <= j < |t| ==>
              SampleViewOf(t[j]) == if j < i + 1 then AfterFilter(vs[j], addr, pc, cID) else vs[j]
    ensures ret' <==> forall j :: 0 <= j < i + 1 && Samples(vs[j], pc, cID) ==> !ContinuesRun(vs[j], addr)
  {
    assert SampleViewOf(t[i]) == vs[i];
    ret' := ret;
    if t[i].valid && t[i].targetPc == pc && t[i].cID == cID {
      var started := t[i].UpdateSample(addr);
      SampleStepEffect(vs[i].state, ShiftRight(addr, vs[i].shiftTimes), vs[i].unit, vs[i].level);
      ret' := ret && started;
    }
  }

  /** Some closed run has been recorded in the histogram (what `getRangeType` reports). */
  predicate HasSamples(h: seq<nat>)
  {
    exists b :: 0 <= b < |h| && h[b] > 0
  }

  /**
   * The range type `insertRT` gives a relation for index PC `pc`: some
   * entry of the range table for (pc, cID), valid or not, has samples.
   */
  ghost predicate RangeHas(t: seq<RangeTableEntry>, pc: nat, cID: int)
    reads set e | e in t
  {
    exists i :: 0 <= i < |t| && t[i].targetPc == pc && t[i].cID == cID && HasSamples(t[i].sampleCount)
  }

  /** The range-type loop of `insertRT`: the OR of `getRangeType` over the entries for (pc, cID). */
  method RangeTypeOf(t: seq<RangeTableEntry>, pc: nat, cID: int) returns (r: bool)
    requires forall i :: 0 <= i < |t| ==> t[i].Valid()
    ensures r <==> RangeHas(t, pc, cID)
  {
    r := false;
    var i := 0;
    while i < |t|
      invariant 0 <= i <= |t|
      invariant r <==> exists j :: 0 <= j < i && t[j].targetPc == pc && t[j].cID == cID && HasSamples(t[j].sampleCount)
    {
      if t[i].targetPc == pc && t[i].cID == cID {
        var has := t[i].GetRangeType();
        r := r || has;
      }
      i := i + 1;
    }
  }

  /** The search loop of `insertRG`: is (pc, cID) sampled by a valid entry? */
  method FindRange(t: seq<RangeTableEntry>, pc: nat, cID: int) returns (found: bool)
    ensures found <==> RangeKeyed(t, pc, cID)
  {
    var i := 0;
    while i < |t|
      invariant 0 <= i <= |t|
      invariant forall j :: 0 <= j < i ==> !(t[j].valid && t[j].targetPc == pc && t[j].cID == cID)
    {
      if t[i].valid && t[i].targetPc == pc && t[i].cID == cID {
        return true;
      }
      i := i + 1;
    }
    return false;
  }

  /**
   * The allocation loop of `insertRG`: one entry per shift value at
   * consecutive slots from `ptr` on, modulo `n`.
   */
  method AllocateRange(t: seq<RangeTableEntry>, n: nat, ptr: nat, shifts: seq<nat>, addr: nat, pc: nat, cID: int)
    returns (ptr': nat)
    requires ptr < n && RangeTableOk(t, n) && addr < U64
    modifies set e | e in t
    ensures RangeTableOk(t, n) && ptr' == (ptr + |shifts|) % n
    ensures forall i :: 0 <= i < |t| ==>
              FieldsOf(t[i]) == AfterWrites(old(FieldsOf(t[i])), t[i].level, ptr, n, shifts, |shifts|, i, addr, pc, cID)
    ensures |shifts| > 0 ==> RangeKeyed(t, pc, cID)
  {
    ghost var f0 := FieldsSeq(t);
    SlotFirst(ptr, n);
    ptr' := ptr;
    var si := 0;
    while si < |shifts|
      invariant 0 <= si <= |shifts|
      invariant ptr' == Slot(ptr, si, n)
      invariant RangeTableOk(t, n)
      invariant forall i {:trigger FieldsOf(t[i])} :: 0 <= i < |t| ==>
                  FieldsOf(t[i]) == AfterWrites(f0[i], t[i].level, ptr, n, shifts, si, i, addr, pc, cID)
    {
      ptr' := AllocateStep(t, n, ptr, shifts, si, ptr', addr, pc, cID, f0);
      si := si + 1;
    }
    if |shifts| > 0 {
      AllocatedIsKeyed(t, n, ptr, shifts, addr, pc, cID, f0);
    }
  }

  /** One pass of `insertRG`'s allocation loop: write number si goes to slot `Slot(ptr, si, n)`. */
  method AllocateStep(t: seq<RangeTableEntry>, n: nat, ptr: nat, shifts: seq<nat>, si: nat, p: nat,
                      addr: nat, pc: nat, cID: int, ghost f0: seq<RangeFields>) returns (p': nat)
    requires ptr < n && RangeTableOk(t, n) && addr < U64 && si < |shifts| && |f0| == |t|
    requires p == Slot(ptr, si, n)
    requires forall i {:trigger FieldsOf(t[i])} :: 0 <= i < |t| ==>
               FieldsOf(t[i]) == AfterWrites(f0[i], t[i].level, ptr, n, shifts, si, i, addr, pc, cID)
    modifies t[Slot(ptr, si, n)]
    ensures RangeTableOk(t, n)
    ensures forall i {:trigger FieldsOf(t[i])} :: 0 <= i < |t| ==>
              FieldsOf(t[i]) == AfterWrites(f0[i], t[i].level, ptr, n, shifts, si + 1, i, addr, pc, cID)
    ensures p' == Slot(ptr, si + 1, n)
  {
    t[p].Update(pc, addr, shifts[si], cID);
    t[p].Validate();
    ModSucc(ptr + si, n);
    p' := (p + 1) % n;
  }

  /** The slot of the last write of a non-empty allocation holds the new key. */
  lemma AllocatedIsKeyed(t: seq<RangeTableEntry>, n: nat, ptr: nat, shifts: seq<nat>, addr: nat, pc: nat, cID: int,
                         f0: seq<RangeFields>)
    requires n >= 1 && |t| == 4 * n && |shifts| > 0 && |f0| == |t|
    requires forall i :: 0 <= i < |t| ==>
               FieldsOf(t[i]) == AfterWrites(f0[i], t[i].level, ptr, n, shifts, |shifts|, i, addr, pc, cID)
    ensures RangeKeyed(t, pc, cID)
  {
    var last := Slot(ptr, |shifts| - 1, n);
    assert LastWrite(ptr, n, |shifts|, last) == Some(|shifts| - 1);
    assert FieldsOf(t[last]).valid;
  }

  /** The range table's `4 * n` fresh, invalid entries. */
  method NewRangeEntries(n: nat, unit: nat, level: nat) returns (t: seq<RangeTableEntry>)
    requires n >= 1 && unit >= 1 && level >= 1
    ensures RangeTableOk(t, n)
    ensures forall i :: 0 <= i < |t| ==> fresh(t[i]) && !t[i].valid
  {
    t := [];
    while |t| < 4 * n
      invariant |t| <= 4 * n
      invariant forall i :: 0 <= i < |t| ==> fresh(t[i]) && !t[i].valid && t[i].Valid()
      invariant forall i, j :: 0 <= i < |t| && 0 <= j < |t| && i != j ==> t[i] != t[j]
    {
      var e := new RangeTableEntry(unit, level, false);
      t := t + [e];
    }
  }

  /**
   * The range table with its cursor `rg_ptr`: `4 * entNum` entries of which
   * the cursor, moving modulo `entNum` (`rg_ent_num`), only ever reaches the first `entNum`.
   */
  class RangeTableVec {
    const entries: seq<RangeTableEntry>
    const entNum: nat
    var ptr: nat
    ghost const Repr: set<object>

    /** No entry is valid (the state right after construction). */
    ghost predicate Empty()
      reads this, Repr
    {
      forall i :: 0 <= i < |entries| ==> entries[i] in Repr && !entries[i].valid
    }

    ghost predicate Valid()
      reads this, Repr
    {
      && (forall i :: 0 <= i < |entries| ==> entries[i] in Repr)
      && RangeTableOk(entries, entNum)
      && ptr < entNum
    }

    constructor (entNum: nat, unit: nat, level: nat)
      requires entNum >= 1 && unit >= 1 && level >= 1
      ensures Valid() && fresh(Repr)
      ensures this.entNum == entNum && ptr == 0
      ensures Empty()
    {
      var t := NewRangeEntries(entNum, unit, level);
      entries := t;
      this.entNum := entNum;
      ptr := 0;
      Repr := set e: object | e in t;
    }

    /**
     * `insertRG`: unless a valid entry already samples (pc, cID), allocate
     * one entry per shift value at consecutive slots from the cursor on.
     */
    method Insert(shifts: seq<nat>, addr: nat, pc: nat, cID: int)
      requires Valid() && addr < U64
      modifies this, Repr
      ensures Valid()
      ensures old(RangeKeyed(entries, pc, cID)) || |shifts| > 0 ==> RangeKeyed(entries, pc, cID)
      ensures old(RangeKeyed(entries, pc, cID)) ==>
                ptr == old(ptr) && forall i :: 0 <= i < |entries| ==> unchanged(entries[i])
      ensures !old(RangeKeyed(entries, pc, cID)) ==>
                && ptr == (old(ptr) + |shifts|) % entNum
                && forall i :: 0 <= i < |entries| ==>
                     FieldsOf(entries[i]) ==
                       AfterWrites(old(FieldsOf(entries[i])), entries[i].level, old(ptr), entNum, shifts, |shifts|, i, addr, pc, cID)
    {
      var found := FindRange(entries, pc, cID);
      if !found {
        var p := AllocateRange(entries, entNum, ptr, shifts, addr, pc, cID);
        ptr := p;
      }
    }
  }

  /** The number of histogram buckets of every entry of t, in table order (fixed at construction). */
  function Levels(t: seq<RangeTableEntry>): (r: seq<nat>)
  {
    seq(|t|, i requires 0 <= i < |t| => t[i].level)
  }

  /** A valid entry samples (pc, cID). */
  predicate FieldsKeyed(fs: seq<RangeFields>, pc: nat, cID: int)
  {
    exists i :: 0 <= i < |fs| && fs[i].valid && fs[i].targetPc == pc && fs[i].cID == cID
  }

  /**
   * `insertRG` on the entries' fields (entry i having levels[i] buckets) and
   * the cursor: a key already sampled changes nothing; otherwise each slot
   * takes the allocation of the last of the |shifts| consecutive writes from
   * the cursor on that reaches it, and the cursor advances by |shifts|
   * modulo n.
   */
  function RangeInsertOf(fs: seq<RangeFields>, levels: seq<nat>, ptr: nat, n: nat, shifts: seq<nat>,
                         addr: nat, pc: nat, cID: int): (r: (seq<RangeFields>, nat))
    requires n > 0 && |levels| == |fs|
  {
    if FieldsKeyed(fs, pc, cID) then (fs, ptr)
    else (seq(|fs|, i requires 0 <= i < |fs| => AfterWrites(fs[i], levels[i], ptr, n, shifts, |shifts|, i, addr, pc, cID)),
          (ptr + |shifts|) % n)
  }

  /**
   * After `insertRG` with at least one shift value the key is sampled, the
   * cursor stays below n, the entries from n on are untouched, and inserting
   * the same key again changes nothing.
   */
  lemma RangeInsertSettles(fs: seq<RangeFields>, levels: seq<nat>, ptr: nat, n: nat, shifts: seq<nat>,
                           addr: nat, pc: nat, cID: int)
    requires 0 < n <= |fs| && |levels| == |fs| && ptr < n
    ensures var r := RangeInsertOf(fs, levels, ptr, n, shifts, addr, pc, cID);
            && |r.0| == |fs| && r.1 < n
            && (FieldsKeyed(fs, pc, cID) || |shifts| > 0 ==> FieldsKeyed(r.0, pc, cID))
            && (forall i :: n <= i < |fs| ==> r.0[i] == fs[i])
            && (FieldsKeyed(r.0, pc, cID) ==> RangeInsertOf(r.0, levels, r.1, n, shifts, addr, pc, cID) == r)
  {
    var r := RangeInsertOf(fs, levels, ptr, n, shifts, addr, pc, cID);
    if !FieldsKeyed(fs, pc, cID) {
      forall i | n <= i < |fs|
        ensures r.0[i] == fs[i]
      {
        assert LastWrite(ptr, n, |shifts|, i).None?;
      }
      if |shifts| > 0 {
        var last := Slot(ptr, |shifts| - 1, n);
        assert LastWrite(ptr, n, |shifts|, last) == Some(|shifts| - 1);
        assert r.0[last].valid && r.0[last].targetPc == pc && r.0[last].cID == cID;
      }
    }
  }

  /** The fields of a range table hold a key exactly when a valid entry of it samples the key. */
  lemma FieldsKeyedOf(t: seq<RangeTableEntry>, pc: nat, cID: int)
    ensures FieldsKeyed(FieldsSeq(t), pc, cID) <==> RangeKeyed(t, pc, cID)
  {
    var f := FieldsSeq(t);
    if FieldsKeyed(f, pc, cID) {
      var i :| 0 <= i < |f| && f[i].valid && f[i].targetPc == pc && f[i].cID == cID;
      assert t[i].valid && t[i].targetPc == pc && t[i].cID == cID;
    }
  }

  /**
   * What `RangeTableVec.Insert` promises about the entries t, whose fields
   * were f0 with the cursor at ptr, seen on their fields: the new fields and
   * cursor ptr' are `RangeInsertOf` of the old ones.
   */
  lemma RangeInsertView(t: seq<RangeTableEntry>, f0: seq<RangeFields>, ptr: nat, ptr': nat, n: nat,
                        shifts: seq<nat>, addr: nat, pc: nat, cID: int)
    requires n > 0 && |f0| == |t|
    requires FieldsKeyed(f0, pc, cID) ==> ptr' == ptr && forall i :: 0 <= i < |t| ==> FieldsOf(t[i]) == f0[i]
    requires !FieldsKeyed(f0, pc, cID) ==>
               && ptr' == (ptr + |shifts|) % n
               && forall i :: 0 <= i < |t| ==>
                    FieldsOf(t[i]) == AfterWrites(f0[i], t[i].level, ptr, n, shifts, |shifts|, i, addr, pc, cID)
    ensures (FieldsSeq(t), ptr') == RangeInsertOf(f0, Levels(t), ptr, n, shifts, addr, pc, cID)
  {
    var r := RangeInsertOf(f0, Levels(t), ptr, n, shifts, addr, pc, cID);
    assert FieldsSeq(t) == r.0;
  }
}
