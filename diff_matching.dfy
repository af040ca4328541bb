/**
 * The diff-matching prefetcher engine (`DiffMatching` in diff_matching.cc):
 * the index-data and target-address delta tables (IDDT, TADT), the range
 * table, the index queue, the indirect-candidate scoreboard (ICS) and the
 * relation table, each with its round-robin write cursor, and the event
 * handlers that update them.
 *
 * Parts of the source that are not shown are parameters of the engine:
 * `getWeight()` of an index-queue entry is the function `weight` of its
 * (tried, matched) counters, and the shift values `shift_v` are `shifts`.
 * The `assert`s of `insertRT` and `notifyL1Req` are modelled as an early
 * return with `ok == false`; the state at that point is then unspecified
 * beyond validity. The `assert`s that a packet is no longer than a block
 * (`notifyL1Resp`, `notifyFill`) are preconditions of the handlers.
 */
module DiffMatching {
  import opened Arith
  import opened PrefetchBase
  import opened DeltaTable
  import opened RangeTable
  import opened Scoreboard
  import opened MatchSpec
  import opened Tables

  /** A packet's optional fields, as the event handlers read them. */
  datatype Request = Request(pc: Option<nat>, vaddr: Option<nat>, cID: Option<int>)

  /** What the loop of `notifyL1Req` did with one target-address entry. */
  datatype RequestStep =
    | Skipped   // not valid, or of another PC
    | Aborted   // the address does not fit in `int64_t`
    | Repeated  // the address equals the entry's newest value
    | Filtered  // `rangeFilter` saw the address continue a run
    | Filled    // filled, and not ready afterwards
    | Matched(ok: bool)  // filled and ready: `diffMatching` ran

  /** `hasContextId() ? contextId() : 0`. */
  function ContextOf(r: Request): int
  {
    if r.cID.Some? then r.cID.value else 0
  }

  /** The PC a miss is reported with (`hasPC() ? pc() : 0`). */
  function MissPcOf(r: Request): nat
  {
    if r.pc.Some? then r.pc.value else 0
  }

  /** The address a miss is reported with (`hasVaddr() ? getVaddr() : 0`). */
  function MissAddrOf(r: Request): nat
  {
    if r.vaddr.Some? then r.vaddr.value else 0
  }

  /**
   * The four tables of the engine: each well formed and no two sharing an
   * object. (The widths of the two delta tables are fixed by the constructor;
   * they are kept out of this predicate so that the proofs stay generic in them.)
   */
  ghost predicate EngineTables(iddt: DeltaTableVec, tadt: DeltaTableVec, rg: RangeTableVec, ics: ScoreboardVec)
    reads iddt, iddt.Repr, tadt, tadt.Repr, rg, rg.Repr, ics, ics.Repr
  {
    && iddt.Valid() && tadt.Valid() && rg.Valid() && ics.Valid()
    && ({iddt} + iddt.Repr) !! ({tadt} + tadt.Repr) !! ({rg} + rg.Repr) !! ({ics} + ics.Repr)
  }

  /** The tables as the constructor allocates them, all entries invalid. */
  method NewEngineTables(iddtEntNum: nat, tadtEntNum: nat, rgEntNum: nat, icsEntNum: nat,
                         iddtDiffNum: nat, tadtDiffNum: nat, rangeUnit: nat, rangeLevel: nat, icsCandidateNum: nat)
    returns (iddt: DeltaTableVec, tadt: DeltaTableVec, rg: RangeTableVec, ics: ScoreboardVec)
    requires iddtEntNum >= 1 && tadtEntNum >= 1 && rgEntNum >= 1 && icsEntNum >= 1
    requires iddtDiffNum >= 1 && tadtDiffNum >= 1 && rangeUnit >= 1 && rangeLevel >= 1
    ensures EngineTables(iddt, tadt, rg, ics)
    ensures iddt.bits == 32 && tadt.bits == 64
    ensures fresh(iddt) && fresh(iddt.Repr) && fresh(tadt) && fresh(tadt.Repr)
    ensures fresh(rg) && fresh(rg.Repr) && fresh(ics) && fresh(ics.Repr)
    ensures |iddt.entries| == iddtEntNum && iddt.diffSize == iddtDiffNum
    ensures |tadt.entries| == tadtEntNum && tadt.diffSize == tadtDiffNum
    ensures rg.entNum == rgEntNum && |ics.entries| == icsEntNum && ics.candidateNum == icsCandidateNum
    ensures iddt.ptr == 0 && tadt.ptr == 0 && rg.ptr == 0 && ics.ptr == 0
    ensures iddt.Empty() && tadt.Empty() && rg.Empty() && ics.Empty()
  {
    iddt := new DeltaTableVec(iddtEntNum, iddtDiffNum, 32);
    tadt := new DeltaTableVec(tadtEntNum, tadtDiffNum, 64);
    rg := new RangeTableVec(rgEntNum, rangeUnit, rangeLevel);
    ics := new ScoreboardVec(icsEntNum, icsCandidateNum);
  }

  /**
   * What `diffMatching` and `insertRT` read of a delta-table entry: its key,
   * its newest value, the width of its values and its window (the deltas
   * oldest first, as `operator[]` indexes them). Nothing writes to the delta
   * tables while `diffMatching` runs, so reading the entry once is reading it
   * at every access.
   */
  datatype Snapshot = Snapshot(pc: nat, cID: int, last: int, bits: nat, window: seq<int>)

  /** A snapshot of a well-formed entry: a positive width holding the newest value. */
  predicate Sound(x: Snapshot)
  {
    x.bits >= 1 && -(Pow2(x.bits - 1) as int) <= x.last < Pow2(x.bits - 1)
  }

  /** Read an entry: its ring from the cursor on, and its key and newest value. */
  function SnapshotOf(e: DeltaTableEntry): (x: Snapshot)
    reads e, e.diff
    requires e.Valid()
    ensures Sound(x) && x.window == e.Window()
  {
    Snapshot(e.pc, e.cID, e.last, e.bits, Rotate(e.diff[..], e.diffPtr))
  }

  /**
   * The comparison loop of `diffMatching` for one start offset and one
   * shift: every target delta, shifted right, equals the index delta at the
   * same distance from the start offset.
   */
  method MatchAt(w: seq<int>, tgt: seq<int>, iStart: nat, shift: nat) returns (r: bool)
    requires iStart + |tgt| <= |w|
    ensures r <==> Matches(w, tgt, iStart, shift)
  {
    var t := 0;
    while t < |tgt|
      invariant 0 <= t <= |tgt|
      invariant forall u :: 0 <= u < t ==> w[iStart + u] == ShiftRight(tgt[u], shift)
    {
      if w[iStart + t] != ShiftRight(tgt[t], shift) {
        return false;
      }
      t := t + 1;
    }
    return true;
  }

  /**
   * The first loop of `insertRT`: starting from the newest index value,
   * subtract the index deltas from the match point on, in the entry's
   * width (`int32_t` for the index-data table).
   */
  method RecoverIndexData(x: Snapshot, mp: nat) returns (d: int)
    requires Sound(x) && mp <= |x.window|
    ensures d == RecoveredIndex(x.last, x.window, mp, x.bits)
  {
    var w := x.window;
    d := x.last;
    var i := mp;
    while i < |w|
      invariant mp <= i <= |w|
      invariant d == SubtractEach(x.last, w[mp..i], x.bits)
    {
      SubtractEachStep(x.last, w, mp, i, x.bits);
      d := Signed(d - w[i], x.bits);
      i := i + 1;
    }
    assert w[mp..i] == w[mp..];
    SubtractEachWraps(x.last, w[mp..], x.bits);
  }

  /**
   * The base address `insertRT` derives from index entry x and target entry y
   * at match point mp under a shift: the target's newest address minus the
   * index value recovered at the match point, shifted.
   */
  function RelationBase(x: Snapshot, y: Snapshot, mp: nat, shift: nat): int
    requires Sound(x) && Sound(y) && mp <= |x.window|
  {
    BaseAddress(y.last, RecoveredIndex(x.last, x.window, mp, x.bits), shift, x.bits, y.bits)
  }

  /**
   * The relation `insertRT` writes for index entry x and target entry y at
   * match point mp, given whether the range table samples the index PC and
   * the configured indirect range.
   */
  function NewRelation(x: Snapshot, y: Snapshot, ranged: bool, indirRange: nat, mp: nat, shift: nat): (r: RTEntry)
    requires Sound(x) && Sound(y) && mp <= |x.window|
    ensures r.valid && r.indexPc == x.pc && r.targetPc == y.pc && r.cID == y.cID
  {
    RTEntry(x.pc, y.pc, Unsigned(RelationBase(x, y, mp, shift), y.bits), shift, ranged, indirRange, y.cID, true)
  }

  /** The arithmetic of `insertRT`: recover the index value, then subtract it, shifted, from the address. */
  method ComputeBase(x: Snapshot, y: Snapshot, mp: nat, shift: nat) returns (base: int)
    requires Sound(x) && Sound(y) && mp <= |x.window|
    ensures base == RelationBase(x, y, mp, shift)
  {
    var data := RecoverIndexData(x, mp);
    base := Signed(y.last - Signed(data * Pow2(shift), x.bits), y.bits);
  }

  /**
   * The outcome of `insertRT` for the relation `rel` from `indexPc` to
   * `targetPc` in context `cID` whose base address is `base`: a blocked
   * relation changes nothing; otherwise the relation is written under the
   * cursor exactly when the base passes the source's assertion, and `ok`
   * reports whether it passed.
   */
  ghost predicate InsertedRelation(rt0: seq<RTEntry>, p0: nat, rt: seq<RTEntry>, p: nat, ok: bool,
                                   indexPc: nat, targetPc: nat, cID: int, base: int, bits: nat, rel: RTEntry)
    requires bits >= 1 && p0 < |rt0|
  {
    if RTBlocked(rt0, indexPc, targetPc, cID) then ok && rt == rt0 && p == p0
    else
      && (ok <==> BaseAccepted(base, bits))
      && (ok ==> rt == rt0[p0 := rel] && p == (p0 + 1) % |rt0|)
      && (!ok ==> rt == rt0 && p == p0)
  }

  /**
   * `insertRT` on a relation table and its cursor, for index entry x and
   * target entry y at match point mp; `rel` names the relation they determine.
   */
  method InsertRelation(rt: array<RTEntry>, ptr: nat, x: Snapshot, y: Snapshot,
                        ranges: seq<RangeTableEntry>, indirRange: nat, mp: nat, shift: nat, ghost rel: RTEntry)
    returns (ok: bool, ptr': nat)
    requires ptr < rt.Length && RTInvariant(rt[..])
    requires Sound(x) && Sound(y) && mp <= |x.window|
    requires forall i :: 0 <= i < |ranges| ==> ranges[i].Valid()
    requires rel == NewRelation(x, y, RangeHas(ranges, x.pc, y.cID), indirRange, mp, shift)
    modifies rt
    ensures ptr' < rt.Length && RTInvariant(rt[..])
    ensures InsertedRelation(old(rt[..]), ptr, rt[..], ptr', ok, x.pc, y.pc, y.cID, RelationBase(x, y, mp, shift), y.bits, rel)
    ensures ok ==> AtMostOneWrite(old(rt[..]), ptr, rt[..], ptr', [x.pc], y.pc, y.cID) && RTBlocked(rt[..], x.pc, y.pc, y.cID)
  {
    ghost var base := RelationBase(x, y, mp, shift);
    var blocked := FindRelation(rt, x.pc, y.pc, y.cID);
    if blocked {
      ok, ptr' := true, ptr;
      InsertedRelationEffect(rt[..], ptr, rt[..], ptr', ok, x.pc, y.pc, y.cID, base, y.bits, rel);
      return;
    }
    var b := ComputeBase(x, y, mp, shift);
    if Unsigned(b, y.bits) >= Pow2(y.bits - 1) {
      return false, ptr;
    }
    var range := RangeTypeOf(ranges, x.pc, y.cID);
    var r := RTEntry(x.pc, y.pc, Unsigned(b, y.bits), shift, range, indirRange, y.cID, true);
    InsertKeepsRTInvariant(rt[..], ptr, r);
    ghost var rt0 := rt[..];
    rt[ptr] := r;
    ptr' := (ptr + 1) % rt.Length;
    ok := true;
    InsertedRelationEffect(rt0, ptr, rt[..], ptr', ok, x.pc, y.pc, y.cID, base, y.bits, rel);
  }

  /**
   * A successful `insertRT` writes at most one relation, from the index PC
   * to the target, and leaves that relation blocked.
   */
  lemma InsertedRelationEffect(rt0: seq<RTEntry>, p0: nat, rt: seq<RTEntry>, p: nat, ok: bool,
                               indexPc: nat, targetPc: nat, cID: int, base: int, bits: nat, rel: RTEntry)
    requires bits >= 1 && p0 < |rt0|
    requires InsertedRelation(rt0, p0, rt, p, ok, indexPc, targetPc, cID, base, bits, rel)
    requires rel.valid && rel.indexPc == indexPc && rel.targetPc == targetPc && rel.cID == cID
    ensures ok ==> AtMostOneWrite(rt0, p0, rt, p, [indexPc], targetPc, cID) && RTBlocked(rt, indexPc, targetPc, cID)
    ensures !ok ==> rt == rt0 && p == p0
  {
    if ok && !RTBlocked(rt0, indexPc, targetPc, cID) {
      assert Blocks(rt[p0], indexPc, targetPc, cID);
    }
  }

  /**
   * `matchUpdate`: the first valid queue entry holding the index PC is
   * credited with a match, and the target PC is queued as a candidate index.
   */
  method MatchUpdate(q: array<IQEntry>, qp: nat, indexPc: nat, targetPc: nat, cID: int) returns (qp': nat)
    requires qp < q.Length && IQUnique(q[..])
    modifies q
    ensures qp' < q.Length && IQUnique(q[..])
    ensures (q[..], qp') == MatchUpdateOf(old(q[..]), qp, indexPc, targetPc, cID)
  {
    BumpMatchedKeepsKeys(q[..], indexPc, cID);
    QueueBumpMatched(q, indexPc, cID);
    IQInsertEffect(q[..], qp, targetPc, cID);
    qp' := QueueInsert(q, qp, targetPc, cID);
  }

  /** The relation table and the index queue are well formed, their write pointers in bounds. */
  ghost predicate TablesReady(rt: seq<RTEntry>, rp: nat, q: seq<IQEntry>, qp: nat)
  {
    rp < |rt| && RTInvariant(rt) && qp < |q| && IQUnique(q)
  }

  /**
   * One match reported by `diffMatching`: `insertRT` at the match point,
   * then `matchUpdate`. The relation table went from (rt0, rp0) to its
   * current state through the reports of `pcs`; the report of this match
   * extends that run by the index PC. `ok` is false when `insertRT` aborts,
   * and then the queue is untouched.
   */
  method Report(rt: array<RTEntry>, rp: nat, q: array<IQEntry>, qp: nat,
                x: Snapshot, y: Snapshot, ranges: seq<RangeTableEntry>, indirRange: nat, mp: nat, shift: nat,
                ghost rt0: seq<RTEntry>, ghost rp0: nat, ghost pcs: seq<nat>)
    returns (ok: bool, rp': nat, qp': nat)
    requires TablesReady(rt[..], rp, q[..], qp)
    requires Sound(x) && Sound(y) && mp <= |x.window|
    requires forall i :: 0 <= i < |ranges| ==> ranges[i].Valid()
    requires MatchEffect(rt0, rp0, rt[..], rp, q[..], pcs, y.pc, y.cID)
    modifies rt, q
    ensures TablesReady(rt[..], rp', q[..], qp')
    ensures ok ==> (q[..], qp') == MatchUpdateOf(old(q[..]), qp, x.pc, y.pc, y.cID)
    ensures !ok ==> q[..] == old(q[..]) && qp' == qp
    ensures ok ==> MatchEffect(rt0, rp0, rt[..], rp', q[..], pcs + [x.pc], y.pc, y.cID)
  {
    ghost var rel := NewRelation(x, y, RangeHas(ranges, x.pc, y.cID), indirRange, mp, shift);
    ghost var rt1 := rt[..];
    ok, rp' := InsertRelation(rt, rp, x, y, ranges, indirRange, mp, shift, rel);
    qp' := qp;
    if ok {
      qp' := MatchUpdate(q, qp, x.pc, y.pc, y.cID);
      MatchEffectExtend(rt0, rp0, rt1, rp, old(q[..]), rt[..], rp', q[..], pcs, x.pc, y.pc, y.cID);
    }
  }

  /**
   * One turn of the shift loop of `diffMatching`: try shift position s at
   * start offset iStart of index entry j (snapshot x) against the target y,
   * and report the match if there is one. The matches found so far are
   * `ms` followed by those of the earlier shift positions at this offset;
   * they took the relation table from (rt0, rp0) to its current state.
   * `ok` is false when `insertRT` aborts.
   */
  method TryShift(rt: array<RTEntry>, rp: nat, q: array<IQEntry>, qp: nat,
                  x: Snapshot, y: Snapshot, ranges: seq<RangeTableEntry>, indirRange: nat,
                  shifts: seq<nat>, j: nat, iStart: nat, s: nat,
                  ghost rt0: seq<RTEntry>, ghost rp0: nat,
                  ghost ms: seq<MatchPoint>, ghost cur: seq<MatchPoint>)
    returns (ok: bool, rp': nat, qp': nat, ghost cur': seq<MatchPoint>)
    requires TablesReady(rt[..], rp, q[..], qp)
    requires Sound(x) && Sound(y) && iStart + |y.window| <= |x.window| && s < |shifts|
    requires forall i :: 0 <= i < |ranges| ==> ranges[i].Valid()
    requires cur == ms + ShiftMatches(x.window, y.window, j, x.pc, iStart, shifts, s)
    requires MatchEffect(rt0, rp0, rt[..], rp, q[..], IndexPcs(cur), y.pc, y.cID)
    modifies rt, q
    ensures TablesReady(rt[..], rp', q[..], qp')
    ensures ok ==> cur' == ms + ShiftMatches(x.window, y.window, j, x.pc, iStart, shifts, s + 1)
    ensures ok ==> MatchEffect(rt0, rp0, rt[..], rp', q[..], IndexPcs(cur'), y.pc, y.cID)
  {
    var hit := MatchAt(x.window, y.window, iStart, shifts[s]);
    ok, rp', qp', cur' := true, rp, qp, cur;
    AppendAssoc(ms, ShiftMatches(x.window, y.window, j, x.pc, iStart, shifts, s),
                ShiftMatch(x.window, y.window, j, x.pc, iStart, shifts, s));
    if hit {
      ok, rp', qp' := Report(rt, rp, q, qp, x, y, ranges, indirRange, iStart + |y.window|, shifts[s],
                             rt0, rp0, IndexPcs(cur));
      var m := MatchPoint(j, x.pc, iStart, s);
      IndexPcsAppend(cur, [m]);
      assert IndexPcs([m]) == [x.pc];
      cur' := cur + [m];
    } else {
      assert cur + [] == cur;
    }
  }

  /**
   * The shift loop of `diffMatching` at one start offset: every shift under
   * which the target window matches the index window is reported to
   * `insertRT` and `matchUpdate`, in the order of `shift_v`. `ok` is false
   * when `insertRT` aborts.
   */
  method MatchShifts(rt: array<RTEntry>, rp: nat, q: array<IQEntry>, qp: nat,
                     x: Snapshot, y: Snapshot, ranges: seq<RangeTableEntry>, indirRange: nat,
                     shifts: seq<nat>, j: nat, iStart: nat,
                     ghost rt0: seq<RTEntry>, ghost rp0: nat,
                     ghost ms: seq<MatchPoint>)
    returns (ok: bool, rp': nat, qp': nat, ghost ms': seq<MatchPoint>)
    requires TablesReady(rt[..], rp, q[..], qp)
    requires Sound(x) && Sound(y) && iStart + |y.window| <= |x.window|
    requires forall i :: 0 <= i < |ranges| ==> ranges[i].Valid()
    requires MatchEffect(rt0, rp0, rt[..], rp, q[..], IndexPcs(ms), y.pc, y.cID)
    modifies rt, q
    ensures TablesReady(rt[..], rp', q[..], qp')
    ensures ok ==> ms' == ms + ShiftMatches(x.window, y.window, j, x.pc, iStart, shifts, |shifts|)
    ensures ok ==> MatchEffect(rt0, rp0, rt[..], rp', q[..], IndexPcs(ms'), y.pc, y.cID)
  {
    rp', qp', ok := rp, qp, true;
    assert ms + [] == ms;
    ms' := ms;
    var s := 0;
    while s < |shifts|
      invariant s <= |shifts|
      invariant TablesReady(rt[..], rp', q[..], qp')
      invariant ms' == ms + ShiftMatches(x.window, y.window, j, x.pc, iStart, shifts, s)
      invariant MatchEffect(rt0, rp0, rt[..], rp', q[..], IndexPcs(ms'), y.pc, y.cID)
    {
      ok, rp', qp', ms' := TryShift(rt, rp', q, qp', x, y, ranges, indirRange, shifts, j, iStart, s,
                                    rt0, rp0, ms, ms');
      if !ok {
        return;
      }
      s := s + 1;
    }
  }

  /**
   * One turn of the start-offset loop of `diffMatching`: the shift loop at
   * offset iStart of index entry j (snapshot x). The matches found so far
   * are `ms` followed by those of the earlier offsets. `ok` is false when
   * `insertRT` aborts.
   */
  method TryOffset(rt: array<RTEntry>, rp: nat, q: array<IQEntry>, qp: nat,
                   x: Snapshot, y: Snapshot, ranges: seq<RangeTableEntry>, indirRange: nat,
                   shifts: seq<nat>, j: nat, iStart: nat,
                   ghost rt0: seq<RTEntry>, ghost rp0: nat, ghost ms: seq<MatchPoint>, ghost cur: seq<MatchPoint>)
    returns (ok: bool, rp': nat, qp': nat, ghost cur': seq<MatchPoint>)
    requires TablesReady(rt[..], rp, q[..], qp)
    requires Sound(x) && Sound(y) && iStart < Offsets(x.window, y.window)
    requires forall i :: 0 <= i < |ranges| ==> ranges[i].Valid()
    requires cur == ms + StartMatches(x.window, y.window, j, x.pc, shifts, iStart)
    requires MatchEffect(rt0, rp0, rt[..], rp, q[..], IndexPcs(cur), y.pc, y.cID)
    modifies rt, q
    ensures TablesReady(rt[..], rp', q[..], qp')
    ensures ok ==> cur' == ms + StartMatches(x.window, y.window, j, x.pc, shifts, iStart + 1)
    ensures ok ==> MatchEffect(rt0, rp0, rt[..], rp', q[..], IndexPcs(cur'), y.pc, y.cID)
  {
    ok, rp', qp', cur' := MatchShifts(rt, rp, q, qp, x, y, ranges, indirRange, shifts, j, iStart, rt0, rp0, cur);
    AppendAssoc(ms, StartMatches(x.window, y.window, j, x.pc, shifts, iStart),
                ShiftMatches(x.window, y.window, j, x.pc, iStart, shifts, |shifts|));
  }

  /**
   * The start-offset loop of `diffMatching` for index entry j (snapshot x):
   * offsets 0 .. iddt_diff_num - tadt_diff_num, each through the shift loop.
   * `ok` is false when `insertRT` aborts.
   */
  method MatchOffsets(rt: array<RTEntry>, rp: nat, q: array<IQEntry>, qp: nat,
                      x: Snapshot, y: Snapshot, ranges: seq<RangeTableEntry>, indirRange: nat,
                      shifts: seq<nat>, j: nat,
                      ghost rt0: seq<RTEntry>, ghost rp0: nat,
                      ghost ms: seq<MatchPoint>)
    returns (ok: bool, rp': nat, qp': nat, ghost ms': seq<MatchPoint>)
    requires TablesReady(rt[..], rp, q[..], qp)
    requires Sound(x) && Sound(y)
    requires forall i :: 0 <= i < |ranges| ==> ranges[i].Valid()
    requires MatchEffect(rt0, rp0, rt[..], rp, q[..], IndexPcs(ms), y.pc, y.cID)
    modifies rt, q
    ensures TablesReady(rt[..], rp', q[..], qp')
    ensures ok ==> ms' == ms + StartMatches(x.window, y.window, j, x.pc, shifts, Offsets(x.window, y.window))
    ensures ok ==> MatchEffect(rt0, rp0, rt[..], rp', q[..], IndexPcs(ms'), y.pc, y.cID)
  {
    rp', qp', ok := rp, qp, true;
    assert ms + [] == ms;
    ms' := ms;
    var n := Offsets(x.window, y.window);
    var iStart := 0;
    while iStart < n
      invariant iStart <= n
      invariant TablesReady(rt[..], rp', q[..], qp')
      invariant ms' == ms + StartMatches(x.window, y.window, j, x.pc, shifts, iStart)
      invariant MatchEffect(rt0, rp0, rt[..], rp', q[..], IndexPcs(ms'), y.pc, y.cID)
    {
      ok, rp', qp', ms' := TryOffset(rt, rp', q, qp', x, y, ranges, indirRange, shifts, j, iStart,
                                     rt0, rp0, ms, ms');
      if !ok {
        return;
      }
      iStart := iStart + 1;
    }
  }

  /** What `diffMatching` sees of an index-table entry. */
  ghost function View(e: DeltaTableEntry): StreamView
    reads e, e.diff
    requires e.Valid()
  {
    StreamView(e.pc, e.cID, e.valid && e.IsReady(), e.Window())
  }

  /**
   * One turn of the entry loop of `diffMatching`: index entry j, seen as
   * `views[j]`, is skipped when it is not valid, not ready or of another
   * context, and is otherwise matched at every start offset against the
   * target y. The matches found so far, `cur`, are those of the entries
   * before j. `ok` is false when `insertRT` aborts.
   */
  method MatchEntry(rt: array<RTEntry>, rp: nat, q: array<IQEntry>, qp: nat,
                    e: DeltaTableEntry, ghost views: seq<StreamView>, y: Snapshot,
                    ranges: seq<RangeTableEntry>, indirRange: nat, shifts: seq<nat>, j: nat,
                    ghost rt0: seq<RTEntry>, ghost rp0: nat, ghost cur: seq<MatchPoint>)
    returns (ok: bool, rp': nat, qp': nat, ghost cur': seq<MatchPoint>)
    requires TablesReady(rt[..], rp, q[..], qp)
    requires e.Valid() && j < |views| && views[j] == View(e) && Sound(y)
    requires forall i :: 0 <= i < |ranges| ==> ranges[i].Valid()
    requires cur == AllMatches(views, y.window, y.cID, shifts, j)
    requires MatchEffect(rt0, rp0, rt[..], rp, q[..], IndexPcs(cur), y.pc, y.cID)
    modifies rt, q
    ensures TablesReady(rt[..], rp', q[..], qp')
    ensures ok ==> cur' == AllMatches(views, y.window, y.cID, shifts, j + 1)
    ensures ok ==> MatchEffect(rt0, rp0, rt[..], rp', q[..], IndexPcs(cur'), y.pc, y.cID)
  {
    if !e.valid || !e.IsReady() || y.cID != e.cID {
      assert cur + [] == cur;
      return true, rp, qp, cur;
    }
    var x := SnapshotOf(e);
    ok, rp', qp', cur' := MatchOffsets(rt, rp, q, qp, x, y, ranges, indirRange, shifts, j, rt0, rp0, cur);
  }

  /** What `diffMatching` sees of the entries of an index-data table, in table order. */
  ghost function ViewsOf(t: seq<DeltaTableEntry>): (vs: seq<StreamView>)
    reads set e | e in t, set e | e in t :: e.diff
    requires forall k :: 0 <= k < |t| ==> t[k].Valid()
    ensures |vs| == |t|
  {
    if |t| == 0 then [] else ViewsOf(t[..|t| - 1]) + [View(t[|t| - 1])]
  }

  /** Entry k is seen as the k-th view. */
  lemma {:induction false} ViewsOfSeen(t: seq<DeltaTableEntry>)
    requires forall k :: 0 <= k < |t| ==> t[k].Valid()
    ensures SeenAs(t, ViewsOf(t))
  {
    if |t| > 0 {
      ViewsOfSeen(t[..|t| - 1]);
    }
  }

  /** The entries of `t` are well formed and `diffMatching` sees them as `views`. */
  ghost predicate SeenAs(t: seq<DeltaTableEntry>, views: seq<StreamView>)
    reads set e | e in t, set e | e in t :: e.diff
  {
    |views| == |t| && forall k :: 0 <= k < |t| ==> t[k].Valid() && views[k] == View(t[k])
  }

  /**
   * The entry loop of `diffMatching` over the index-data table `t`, whose
   * entries `diffMatching` sees as `views`: every match of the target y is
   * reported, entry by entry, and together the reports write at most one
   * relation. `ok` is false when `insertRT` aborts.
   */
  method MatchEntries(rt: array<RTEntry>, rp: nat, q: array<IQEntry>, qp: nat,
                      t: seq<DeltaTableEntry>, ghost views: seq<StreamView>, y: Snapshot,
                      ranges: seq<RangeTableEntry>, indirRange: nat, shifts: seq<nat>)
    returns (ok: bool, rp': nat, qp': nat, ghost ms: seq<MatchPoint>)
    requires TablesReady(rt[..], rp, q[..], qp)
    requires Sound(y) && SeenAs(t, views)
    requires forall i :: 0 <= i < |ranges| ==> ranges[i].Valid()
    modifies rt, q
    ensures TablesReady(rt[..], rp', q[..], qp')
    ensures ok ==> ms == AllMatches(views, y.window, y.cID, shifts, |t|)
    ensures ok ==> MatchEffect(old(rt[..]), rp, rt[..], rp', q[..], IndexPcs(ms), y.pc, y.cID)
  {
    ghost var rt0 := rt[..];
    rp', qp', ok := rp, qp, true;
    ms := [];
    var j := 0;
    while j < |t|
      invariant j <= |t|
      invariant TablesReady(rt[..], rp', q[..], qp')
      invariant ms == AllMatches(views, y.window, y.cID, shifts, j)
      invariant MatchEffect(rt0, rp, rt[..], rp', q[..], IndexPcs(ms), y.pc, y.cID)
    {
      ok, rp', qp', ms := MatchEntry(rt, rp', q, qp', t[j], views, y, ranges, indirRange, shifts, j, rt0, rp, ms);
      if !ok {
        return;
      }
      j := j + 1;
    }
  }

  /**
   * The body of `pickIndexPC` on the three structures it touches: the queue,
   * the scoreboard and the index-data table.
   */
  method PickIndex(q: array<IQEntry>, ics: ScoreboardVec, iddt: DeltaTableVec,
                   weight: (nat, nat) -> real, weightFloor: real) returns (picked: Option<nat>)
    requires IQUnique(q[..]) && ics.Valid() && iddt.Valid()
    requires q !in ics.Repr && q !in iddt.Repr && ({ics} + ics.Repr) !! ({iddt} + iddt.Repr)
    modifies q, ics, ics.Repr, iddt, iddt.Repr
    ensures IQUnique(q[..]) && ics.Valid() && iddt.Valid()
    ensures picked.None? ==>
              && NoPick(old(q[..]), weight, weightFloor) && q[..] == old(q[..])
              && unchanged(ics, ics.Repr, iddt, iddt.Repr)
    ensures picked.Some? ==>
              var j := picked.value;
              && IsPick(old(q[..]), weight, weightFloor, j)
              && q[..] == old(q[..])[j := old(q[j]).(tried := old(q[j]).tried + 1)]
              && ICSKeyed(ics.entries, old(q[j]).indexPc, old(q[j]).cID)
              && DeltaKeyed(iddt.entries, old(q[j]).indexPc, old(q[j]).cID)
    ensures picked.Some? ==>
              forall i :: 0 <= i < |ics.entries| && i != old(ics.ptr) ==> unchanged(ics.entries[i])
    ensures picked.Some? ==>
              var e := old(q[picked.value]);
              old(ICSKeyed(ics.entries, e.indexPc, e.cID)) ==> unchanged(ics.entries[ics.ptr]) && ics.ptr == old(ics.ptr)
    ensures picked.Some? ==>
              var e := old(q[picked.value]);
              !old(ICSKeyed(ics.entries, e.indexPc, e.cID)) ==>
                && ics.entries[old(ics.ptr)].indexPc == e.indexPc && ics.entries[old(ics.ptr)].cID == e.cID
                && ics.entries[old(ics.ptr)].valid && ics.entries[old(ics.ptr)].missCount == map[]
                && ics.ptr == (old(ics.ptr) + 1) % |ics.entries|
    ensures picked.Some? ==>
              forall i :: 0 <= i < |iddt.entries| ==> unchanged(iddt.entries[i].diff)
    ensures picked.Some? ==>
              forall i :: 0 <= i < |iddt.entries| && i != old(iddt.ptr) ==> unchanged(iddt.entries[i])
    ensures picked.Some? ==>
              var e := old(q[picked.value]);
              old(DeltaKeyed(iddt.entries, e.indexPc, e.cID)) ==> unchanged(iddt.entries[iddt.ptr]) && iddt.ptr == old(iddt.ptr)
    ensures picked.Some? ==>
              var e := old(q[picked.value]);
              !old(DeltaKeyed(iddt.entries, e.indexPc, e.cID)) ==>
                && Allocated(iddt.entries[old(iddt.ptr)], e.indexPc, e.cID)
                && iddt.entries[old(iddt.ptr)].last == old(iddt.entries[iddt.ptr].last)
                && iddt.ptr == (old(iddt.ptr) + 1) % |iddt.entries|
  {
    picked := ChooseIndex(q[..], weight, weightFloor);
    if picked.Some? {
      var j := picked.value;
      var e := q[j];
      ghost var s0 := q[..];
      TriedKeepsKeys(s0, j);
      q[j] := e.(tried := e.tried + 1);
      assert q[..] == s0[j := e.(tried := e.tried + 1)];
      Observe(q, ics, iddt, e.indexPc, e.cID);
    }
  }

  /** The scoreboard and the index-data table start observing (pc, cID). */
  method Observe(q: array<IQEntry>, ics: ScoreboardVec, iddt: DeltaTableVec, pc: nat, cID: int)
    requires ics.Valid() && iddt.Valid() && ({ics} + ics.Repr) !! ({iddt} + iddt.Repr)
    requires q !in ics.Repr && q !in iddt.Repr
    modifies ics, ics.Repr, iddt, iddt.Repr
    ensures ics.Valid() && iddt.Valid() && q[..] == old(q[..])
    ensures ICSKeyed(ics.entries, pc, cID) && DeltaKeyed(iddt.entries, pc, cID)
    ensures forall i :: 0 <= i < |ics.entries| && i != old(ics.ptr) ==> unchanged(ics.entries[i])
    ensures old(ICSKeyed(ics.entries, pc, cID)) ==> unchanged(ics.entries[ics.ptr]) && ics.ptr == old(ics.ptr)
    ensures !old(ICSKeyed(ics.entries, pc, cID)) ==>
              && ics.entries[old(ics.ptr)].indexPc == pc && ics.entries[old(ics.ptr)].cID == cID
              && ics.entries[old(ics.ptr)].valid && ics.entries[old(ics.ptr)].missCount == map[]
              && ics.ptr == (old(ics.ptr) + 1) % |ics.entries|
    ensures forall i :: 0 <= i < |iddt.entries| ==> unchanged(iddt.entries[i].diff)
    ensures forall i :: 0 <= i < |iddt.entries| && i != old(iddt.ptr) ==> unchanged(iddt.entries[i])
    ensures old(DeltaKeyed(iddt.entries, pc, cID)) ==> unchanged(iddt.entries[iddt.ptr]) && iddt.ptr == old(iddt.ptr)
    ensures !old(DeltaKeyed(iddt.entries, pc, cID)) ==>
              && Allocated(iddt.entries[old(iddt.ptr)], pc, cID)
              && iddt.entries[old(iddt.ptr)].last == old(iddt.entries[iddt.ptr].last)
              && iddt.ptr == (old(iddt.ptr) + 1) % |iddt.entries|
  {
    ics.Insert(pc, cID);
    iddt.Insert(pc, cID);
  }

  /** The counting part of `notifyICSMiss`: only the scoreboard changes. */
  method CountMiss(ics: ScoreboardVec, tadt: DeltaTableVec, rg: RangeTableVec, missPc: nat, cID: int) returns (selected: bool)
    requires ics.Valid() && tadt.Valid() && rg.Valid()
    requires ({ics} + ics.Repr) !! ({tadt} + tadt.Repr) !! ({rg} + rg.Repr)
    modifies ics.Repr
    ensures ics.Valid() && tadt.Valid() && rg.Valid()
    ensures var r := MissSweep(old(MissViews(ics.entries)), missPc, cID, ics.candidateNum, ics.candidateNum);
            selected == r.1 && forall i :: 0 <= i < |ics.entries| ==> ics.entries[i].missCount == r.0[i]
    ensures unchanged(tadt, tadt.Repr, rg, rg.Repr)
    ensures forall i :: 0 <= i < |rg.entries| ==> FieldsOf(rg.entries[i]) == old(FieldsOf(rg.entries[i]))
    ensures forall i :: 0 <= i < |tadt.entries| ==> unchanged(tadt.entries[i])
    ensures DeltaKeyed(tadt.entries, missPc, cID) == old(DeltaKeyed(tadt.entries, missPc, cID))
    ensures RangeKeyed(rg.entries, missPc, cID) == old(RangeKeyed(rg.entries, missPc, cID))
  {
    selected := SweepMisses(ics.entries, ics.candidateNum, missPc, cID);
    assert forall i :: 0 <= i < |rg.entries| ==> rg.entries[i] in rg.Repr;
  }

  /**
   * `notifyICSMiss` on the tables: the scoreboard counts the miss of
   * (missPc, cID), and once an entry reports it, missPc becomes a target
   * that the target-address table and the range table observe.
   */
  method MissEvent(ics: ScoreboardVec, tadt: DeltaTableVec, rg: RangeTableVec, shifts: seq<nat>,
                   missAddr: nat, missPc: nat, cID: int) returns (selected: bool)
    requires ics.Valid() && tadt.Valid() && rg.Valid() && missAddr < U64
    requires ({ics} + ics.Repr) !! ({tadt} + tadt.Repr) !! ({rg} + rg.Repr)
    modifies ics.Repr, tadt, tadt.Repr, rg, rg.Repr
    ensures ics.Valid() && tadt.Valid() && rg.Valid()
    ensures var r := MissSweep(old(MissViews(ics.entries)), missPc, cID, ics.candidateNum, ics.candidateNum);
            selected == r.1 && forall i :: 0 <= i < |ics.entries| ==> ics.entries[i].missCount == r.0[i]
    ensures selected ==> DeltaKeyed(tadt.entries, missPc, cID)
    ensures selected && |shifts| > 0 ==> RangeKeyed(rg.entries, missPc, cID)
    ensures !selected ==> unchanged(tadt, tadt.Repr, rg, rg.Repr)
    ensures selected ==>
              forall i :: 0 <= i < |tadt.entries| ==> unchanged(tadt.entries[i].diff)
    ensures selected ==>
              forall i :: 0 <= i < |tadt.entries| && i != old(tadt.ptr) ==> unchanged(tadt.entries[i])
    ensures selected ==>
              old(DeltaKeyed(tadt.entries, missPc, cID)) ==> unchanged(tadt.entries[tadt.ptr]) && tadt.ptr == old(tadt.ptr)
    ensures selected ==>
              !old(DeltaKeyed(tadt.entries, missPc, cID)) ==>
                && Allocated(tadt.entries[old(tadt.ptr)], missPc, cID)
                && tadt.entries[old(tadt.ptr)].last == old(tadt.entries[tadt.ptr].last)
                && tadt.ptr == (old(tadt.ptr) + 1) % |tadt.entries|
    ensures selected ==>
              old(RangeKeyed(rg.entries, missPc, cID)) ==>
                rg.ptr == old(rg.ptr) && forall i :: 0 <= i < |rg.entries| ==> unchanged(rg.entries[i])
    ensures selected ==>
              !old(RangeKeyed(rg.entries, missPc, cID)) ==>
                && rg.ptr == (old(rg.ptr) + |shifts|) % rg.entNum
                && forall i :: 0 <= i < |rg.entries| ==>
                     FieldsOf(rg.entries[i]) ==
                       AfterWrites(old(FieldsOf(rg.entries[i])), rg.entries[i].level, old(rg.ptr), rg.entNum,
                                   shifts, |shifts|, i, missAddr, missPc, cID)
  {
    selected := CountMiss(ics, tadt, rg, missPc, cID);
    if selected {
      Promote(tadt, rg, shifts, missAddr, missPc, cID);
    }
  }

  /** `insertTADT(pc, cID)` and `insertRG(addr, pc, cID)`: the target-side tables start observing (pc, cID). */
  method Promote(tadt: DeltaTableVec, rg: RangeTableVec, shifts: seq<nat>, addr: nat, pc: nat, cID: int)
    requires tadt.Valid() && rg.Valid() && addr < U64 && ({tadt} + tadt.Repr) !! ({rg} + rg.Repr)
    modifies tadt, tadt.Repr, rg, rg.Repr
    ensures tadt.Valid() && rg.Valid()
    ensures DeltaKeyed(tadt.entries, pc, cID)
    ensures |shifts| > 0 ==> RangeKeyed(rg.entries, pc, cID)
    ensures forall i :: 0 <= i < |tadt.entries| ==> unchanged(tadt.entries[i].diff)
    ensures forall i :: 0 <= i < |tadt.entries| && i != old(tadt.ptr) ==> unchanged(tadt.entries[i])
    ensures old(DeltaKeyed(tadt.entries, pc, cID)) ==> unchanged(tadt.entries[tadt.ptr]) && tadt.ptr == old(tadt.ptr)
    ensures !old(DeltaKeyed(tadt.entries, pc, cID)) ==>
              && Allocated(tadt.entries[old(tadt.ptr)], pc, cID)
              && tadt.entries[old(tadt.ptr)].last == old(tadt.entries[tadt.ptr].last)
              && tadt.ptr == (old(tadt.ptr) + 1) % |tadt.entries|
    ensures old(RangeKeyed(rg.entries, pc, cID)) ==>
              rg.ptr == old(rg.ptr) && forall i :: 0 <= i < |rg.entries| ==> unchanged(rg.entries[i])
    ensures !old(RangeKeyed(rg.entries, pc, cID)) ==>
              && rg.ptr == (old(rg.ptr) + |shifts|) % rg.entNum
              && forall i :: 0 <= i < |rg.entries| ==>
                   FieldsOf(rg.entries[i]) ==
                     AfterWrites(old(FieldsOf(rg.entries[i])), rg.entries[i].level, old(rg.ptr), rg.entNum,
                                 shifts, |shifts|, i, addr, pc, cID)
  {
    tadt.Insert(pc, cID);
    rg.Insert(shifts, addr, pc, cID);
  }

  /**
   * What the loop of `notifyL1Req` does with target-address entry e before
   * any matching, given the range table t as it stands.
   */
  ghost function Sampled(e: DeltaTableEntry, t: seq<RangeTableEntry>, pc: nat, addr: nat, cID: int): RequestStep
    reads e, set r | r in t
  {
    SampleOutcome(TargetStateOf(e), SampleViews(t), pc, addr, cID)
  }

  /** What a turn of `notifyL1Req`'s loop reads and writes of a target-address entry. */
  datatype TargetState = TargetState(valid: bool, pc: nat, cID: int, last: int, fills: nat, history: seq<int>)

  ghost function TargetStateOf(e: DeltaTableEntry): TargetState
    reads e
  {
    TargetState(e.valid, e.pc, e.cID, e.last, e.fills, e.history)
  }

  /** The state of every entry of t, in table order. */
  ghost function TargetStates(t: seq<DeltaTableEntry>): (r: seq<TargetState>)
    reads set e | e in t
    ensures |r| == |t| && forall i :: 0 <= i < |t| ==> r[i] == TargetStateOf(t[i])
  {
    if |t| == 0 then [] else TargetStates(t[..|t| - 1]) + [TargetStateOf(t[|t| - 1])]
  }

  /** The states of a table whose first m entries are in the states a and whose others are in their states in s0. */
  lemma TargetStatesJoin(t: seq<DeltaTableEntry>, a: seq<TargetState>, s0: seq<TargetState>, m: nat)
    requires |a| == m <= |t| == |s0|
    requires forall j :: 0 <= j < m ==> TargetStateOf(t[j]) == a[j]
    requires forall j :: m <= j < |t| ==> TargetStateOf(t[j]) == s0[j]
    ensures TargetStates(t) == a + s0[m..]
  {
    var r := TargetStates(t);
    forall j | 0 <= j < |t|
      ensures r[j] == (a + s0[m..])[j]
    {
      if j >= m {
        assert (a + s0[m..])[j] == s0[j];
      }
    }
  }

  /**
   * The target entries t and the range table rs are as the first k turns
   * of the fold left them, from the states s0 and the views v0: the first
   * k entries in their states after their turns, the others as in s0.
   */
  ghost predicate TurnsTaken(t: seq<DeltaTableEntry>, rs: seq<RangeTableEntry>, k: nat, r: Turns,
                             s0: seq<TargetState>, v0: seq<SampleView>, pc: nat, addr: nat, cID: int)
    reads set e | e in t, set e | e in rs
  {
    && k <= |t| == |s0| && |v0| == |rs|
    && r == RequestTurns(s0[..k], v0, pc, addr, cID)
    && (forall j :: 0 <= j < k ==> TargetStateOf(t[j]) == r.states[j])
    && (forall j :: k <= j < |t| ==> TargetStateOf(t[j]) == s0[j])
    && (forall i :: 0 <= i < |rs| ==> SampleViewOf(rs[i]) == r.views[i])
  }

  /** The tables after k turns, as sequences of states and of views. */
  lemma TurnsTakenStates(t: seq<DeltaTableEntry>, rs: seq<RangeTableEntry>, k: nat, r: Turns,
                         s0: seq<TargetState>, v0: seq<SampleView>, pc: nat, addr: nat, cID: int)
    requires TurnsTaken(t, rs, k, r, s0, v0, pc, addr, cID)
    ensures r == RequestTurns(s0[..k], v0, pc, addr, cID)
    ensures TargetStates(t) == r.states + s0[k..] && SampleViews(rs) == r.views
  {
    TargetStatesJoin(t, r.states, s0, k);
    SampleViewsAre(rs, r.views);
  }

  /**
   * Turn k + 1 taken: the entry of the turn holds its new state, the other
   * entries hold what they held after k turns (`st`), and the range table
   * holds the new views.
   */
  lemma TurnsTakenNext(t: seq<DeltaTableEntry>, rs: seq<RangeTableEntry>, k: nat, r: Turns, r': Turns, st: seq<TargetState>,
                       s0: seq<TargetState>, v0: seq<SampleView>, pc: nat, addr: nat, cID: int)
    requires k < |t| == |s0| && |v0| == |rs| && |r.states| == k
    requires st == r.states + s0[k..]
    requires r' == RequestTurns(s0[..k + 1], v0, pc, addr, cID) && r'.states[..k] == r.states
    requires forall j :: 0 <= j < |t| && j != k ==> TargetStateOf(t[j]) == st[j]
    requires TargetStateOf(t[k]) == r'.states[k]
    requires forall i :: 0 <= i < |rs| ==> SampleViewOf(rs[i]) == r'.views[i]
    ensures TurnsTaken(t, rs, k + 1, r', s0, v0, pc, addr, cID)
  {
    forall j | 0 <= j < k
      ensures TargetStateOf(t[j]) == r'.states[j]
    {
      assert st[j] == r.states[j];
      assert r'.states[j] == r'.states[..k][j];
    }
    forall j | k + 1 <= j < |t|
      ensures TargetStateOf(t[j]) == s0[j]
    {
      assert st[j] == s0[k..][j - k];
    }
  }

  lemma TurnsExtend(r: Turns, r': Turns, k: nat, diffSize: nat)
    requires |r.steps| == |r.states| == k && |r'.steps| == |r'.states| == k + 1
    requires r'.steps[..k] == r.steps && r'.states[..k] == r.states
    ensures forall j :: 0 <= j < k ==> (Ready(r', j, diffSize) <==> Ready(r, j, diffSize))
    ensures Aborted !in r'.steps <==> Aborted !in r.steps && r'.steps[k] != Aborted
    ensures Aborted !in r.steps ==> Aborted !in r'.steps[..k]
    ensures (forall j :: 0 <= j < k ==> !Ready(r, j, diffSize)) && !Ready(r', k, diffSize) ==>
              forall j :: 0 <= j < k + 1 ==> !Ready(r', j, diffSize)
  {
    assert r'.steps == r.steps + [r'.steps[k]];
  }

  /** The views of a range table whose entries have the views vs, one by one. */
  lemma SampleViewsAre(t: seq<RangeTableEntry>, vs: seq<SampleView>)
    requires |t| == |vs| && forall i :: 0 <= i < |t| ==> SampleViewOf(t[i]) == vs[i]
    ensures SampleViews(t) == vs
  {
  }

  /**
   * The checks of a turn on an entry in state s, with the range table
   * seen as vs: the entry is skipped unless it is a valid entry of `pc`,
   * the turn aborts on an address that does not fit in `int64_t`, a
   * repeated address is dropped, and otherwise the range filter decides.
   */
  function SampleOutcome(s: TargetState, vs: seq<SampleView>, pc: nat, addr: nat, cID: int): RequestStep
  {
    if !(s.valid && s.pc == pc) then Skipped
    else if addr >= Pow2(63) then Aborted
    else if s.last == addr then Repeated
    else if exists i :: 0 <= i < |vs| && Samples(vs[i], pc, cID) && ContinuesRun(vs[i], addr) then Filtered
    else Filled
  }

  /** `fill(addr, cID)` on the state of a target-address entry, whose deltas are `int64_t`. */
  function FilledState(s: TargetState, addr: nat, cID: int): TargetState
  {
    if cID == s.cID then s.(last := addr, fills := s.fills + 1, history := s.history + [Signed(addr - s.last, 64)])
    else s
  }

  /** `rangeFilter(pc, addr, cID)` on every entry of the range table (whose entries are always well sized). */
  function FilterAll(vs: seq<SampleView>, addr: nat, pc: nat, cID: int): (r: seq<SampleView>)
    ensures |r| == |vs|
  {
    seq(|vs|, i requires 0 <= i < |vs| => if WellSized(vs[i]) then AfterFilter(vs[i], addr, pc, cID) else vs[i])
  }

  /** The outcome of one turn before any matching, the entry's new state and the range table's new views. */
  datatype Turn = Turn(step: RequestStep, state: TargetState, views: seq<SampleView>)

  /**
   * One turn of `notifyL1Req`'s loop, up to `diffMatching`: the checks, then
   * the range filter when they pass, then the fill when the filter passes.
   */
  function RequestTurn(s: TargetState, vs: seq<SampleView>, pc: nat, addr: nat, cID: int): (r: Turn)
    ensures |r.views| == |vs|
    ensures r.step in {Skipped, Aborted, Repeated, Filtered, Filled}
    ensures r.state.valid == s.valid && r.state.pc == s.pc && r.state.cID == s.cID
    ensures r.step != Filled ==> r.state == s
    ensures r.step in {Skipped, Aborted, Repeated} ==> r.views == vs
  {
    var step := SampleOutcome(s, vs, pc, addr, cID);
    Turn(step,
         if step == Filled then FilledState(s, addr, cID) else s,
         if step == Filtered || step == Filled then FilterAll(vs, addr, pc, cID) else vs)
  }

  /** Every turn's outcome, every entry's state after its turn, and the range table's views at the end. */
  datatype Turns = Turns(steps: seq<RequestStep>, states: seq<TargetState>, views: seq<SampleView>)

  /** The turns of `notifyL1Req`'s loop over entries in states ss, in table order, from range views vs. */
  function RequestTurns(ss: seq<TargetState>, vs: seq<SampleView>, pc: nat, addr: nat, cID: int): (r: Turns)
    decreases |ss|
    ensures |r.steps| == |ss| && |r.states| == |ss| && |r.views| == |vs|
    ensures forall j :: 0 <= j < |ss| ==>
              && r.states[j].valid == ss[j].valid && r.states[j].pc == ss[j].pc && r.states[j].cID == ss[j].cID
              && (!(ss[j].valid && ss[j].pc == pc) ==> r.steps[j] == Skipped && r.states[j] == ss[j])
  {
    if |ss| == 0 then Turns([], [], vs)
    else
      var p := RequestTurns(ss[..|ss| - 1], vs, pc, addr, cID);
      var t := RequestTurn(ss[|ss| - 1], p.views, pc, addr, cID);
      Turns(p.steps + [t.step], p.states + [t.state], t.views)
  }

  /** Turn j filled its entry and left it ready, so `diffMatching` ran. */
  predicate Ready(r: Turns, j: nat, diffSize: nat)
  {
    j < |r.steps| && j < |r.states| && r.steps[j] == Filled && r.states[j].fills >= diffSize
  }

  /** The turns over a prefix of the entries are the first turns over all of them. */
  lemma {:induction false} RequestTurnsPrefix(ss: seq<TargetState>, k: nat, vs: seq<SampleView>, pc: nat, addr: nat, cID: int)
    requires k < |ss|
    ensures var p := RequestTurns(ss[..k], vs, pc, addr, cID);
            var t := RequestTurn(ss[k], p.views, pc, addr, cID);
            RequestTurns(ss[..k + 1], vs, pc, addr, cID) == Turns(p.steps + [t.step], p.states + [t.state], t.views)
  {
    assert ss[..k + 1][..k] == ss[..k];
  }

  /**
   * A turn aborts exactly on a valid entry of the PC when the address does
   * not fit in `int64_t`; such an address leaves every entry and the range
   * table as they were.
   */
  lemma {:induction false} RequestTurnsAbort(ss: seq<TargetState>, vs: seq<SampleView>, pc: nat, addr: nat, cID: int)
    ensures var r := RequestTurns(ss, vs, pc, addr, cID);
            && (forall j :: 0 <= j < |ss| ==> (r.steps[j] == Aborted <==> ss[j].valid && ss[j].pc == pc && addr >= Pow2(63)))
            && (addr >= Pow2(63) ==> r.states == ss && r.views == vs)
    decreases |ss|
  {
    if |ss| > 0 {
      RequestTurnsAbort(ss[..|ss| - 1], vs, pc, addr, cID);
      assert ss == ss[..|ss| - 1] + [ss[|ss| - 1]];
    }
  }

  /**
   * The part of a turn of `notifyL1Req`'s loop before `diffMatching`: the
   * checks on target-address entry k, the range filter and the fill.
   */
  method RequestSample(tadt: DeltaTableVec, rg: RangeTableVec, k: nat, pc: nat, addr: nat, cID: int)
    returns (step: RequestStep)
    requires tadt.Valid() && rg.Valid() && tadt.bits == 64 && k < |tadt.entries| && addr < U64
    requires ({tadt} + tadt.Repr) !! ({rg} + rg.Repr)
    modifies tadt.entries[k], tadt.entries[k].diff, rg.Repr
    ensures tadt.Valid() && rg.Valid()
    ensures step == old(Sampled(tadt.entries[k], rg.entries, pc, addr, cID))
    ensures step in {Skipped, Aborted, Repeated} ==> unchanged(rg.Repr)
    ensures step in {Filtered, Filled} ==>
              forall i :: 0 <= i < |rg.entries| ==>
                old(rg.entries[i].Valid()) &&
                SampleViewOf(rg.entries[i]) == AfterFilter(old(SampleViewOf(rg.entries[i])), addr, pc, cID)
    ensures step != Filled ==> unchanged(tadt.entries[k], tadt.entries[k].diff)
    ensures step == Filled ==>
              var e := tadt.entries[k];
              && e.valid
              && (cID == old(e.cID) ==> e.last == addr && e.history == old(e.history) + [Signed(addr - old(e.last), tadt.bits)])
              && (cID != old(e.cID) ==> unchanged(e))
    ensures TargetStateOf(tadt.entries[k]) ==
              if step == Filled then FilledState(old(TargetStateOf(tadt.entries[k])), addr, cID)
              else old(TargetStateOf(tadt.entries[k]))
    ensures forall j :: 0 <= j < |tadt.entries| && j != k ==> TargetStateOf(tadt.entries[j]) == old(TargetStateOf(tadt.entries[j]))
    ensures var t := RequestTurn(old(TargetStateOf(tadt.entries[k])), old(SampleViews(rg.entries)), pc, addr, cID);
            && step == t.step
            && TargetStateOf(tadt.entries[k]) == t.state
            && forall i :: 0 <= i < |rg.entries| ==> SampleViewOf(rg.entries[i]) == t.views[i]
  {
    var e := tadt.entries[k];
    if !(e.valid && e.pc == pc) {
      return Skipped;
    }
    if addr >= Pow2(tadt.bits - 1) {
      return Aborted;
    }
    if e.last == addr {
      return Repeated;
    }
    var pass := FilterAndFill(tadt, rg, k, pc, addr, cID);
    step := if pass then Filled else Filtered;
  }

  /**
   * The range filter, and the fill of target-address entry k when the
   * filter passes, for an entry that has passed the checks of `notifyL1Req`.
   */
  method FilterAndFill(tadt: DeltaTableVec, rg: RangeTableVec, k: nat, pc: nat, addr: nat, cID: int)
    returns (pass: bool)
    requires tadt.Valid() && rg.Valid() && tadt.bits == 64 && k < |tadt.entries| && tadt.entries[k].InWidth(addr) && addr < U64
    requires ({tadt} + tadt.Repr) !! ({rg} + rg.Repr)
    modifies tadt.entries[k], tadt.entries[k].diff, rg.Repr
    ensures tadt.Valid() && rg.Valid()
    ensures pass <==> !exists i :: 0 <= i < |rg.entries| &&
                        old(Samples(SampleViewOf(rg.entries[i]), pc, cID)) && old(ContinuesRun(SampleViewOf(rg.entries[i]), addr))
    ensures forall i :: 0 <= i < |rg.entries| ==>
              old(rg.entries[i].Valid()) &&
              SampleViewOf(rg.entries[i]) == AfterFilter(old(SampleViewOf(rg.entries[i])), addr, pc, cID)
    ensures !pass ==> unchanged(tadt.entries[k], tadt.entries[k].diff)
    ensures pass ==>
              var e := tadt.entries[k];
              && e.pc == old(e.pc) && e.cID == old(e.cID) && e.valid == old(e.valid)
              && (cID == old(e.cID) ==> e.last == addr && e.history == old(e.history) + [Signed(addr - old(e.last), tadt.bits)])
              && (cID != old(e.cID) ==> unchanged(e))
    ensures pass ==> TargetStateOf(tadt.entries[k]) == FilledState(old(TargetStateOf(tadt.entries[k])), addr, cID)
    ensures forall j :: 0 <= j < |tadt.entries| && j != k ==> TargetStateOf(tadt.entries[j]) == old(TargetStateOf(tadt.entries[j]))
  {
    pass := FilterRanges(rg.entries, rg.entNum, pc, addr, cID);
    assert unchanged(tadt, tadt.Repr);
    if pass {
      label Filtering:
      tadt.FillEntry(k, addr, cID);
      assert unchanged@Filtering(rg, rg.Repr);
    }
  }

  /**
   * The word `notifyL1Resp` reads from a response, taken from the packet's
   * own bytes: it always fits in `int64_t`, so the handler's assert holds,
   * and the `int32_t` value stored from it keeps all four bytes.
   */
  lemma {:induction false} ResponseWordFits(data: seq<Byte>)
    ensures ResponseWord(data) <= I64Max
    ensures Unsigned(Signed(ResponseWord(data), 32), 32) == ResponseWord(data)
  {
    Pow2Values();
    UnsignedOfSigned(ResponseWord(data), 32);
  }

  /**
   * The body of `notifyL1Resp` once the response has a PC and data: the
   * word is decoded from the packet's bytes, narrowed to `IndexData`, and
   * recorded by the index-data table.
   */
  method ReadResponse(iddt: DeltaTableVec, pc: nat, data: seq<Byte>, cID: int)
    requires iddt.Valid() && iddt.bits == 32
    modifies iddt.Repr
    ensures iddt.Valid()
    ensures var v := Signed(ResponseWord(data), iddt.bits);
            forall i :: 0 <= i < |iddt.entries| ==>
              RingStateOf(iddt.entries[i]) == AfterResponse(old(RingStateOf(iddt.entries[i])), pc, v, cID, iddt.bits)
  {
    var word := DecodeResponse(data);
    assert word <= I64Max by { Pow2Values(); }
    var v := Signed(word, iddt.bits);
    RecordResponse(iddt, pc, v, cID);
  }

  /**
   * The loops of `notifyFill` over the relation table and over the words of
   * the filled block: for each valid entry indexed by `pc`, the candidate of
   * every whole word from block offset `off` to the entry's range end.
   */
  method CollectFill(rt: array<RTEntry>, pc: nat, off: nat, data: seq<Byte>, lBlkSize: nat)
    returns (cands: seq<Candidate>)
    requires |data| == Pow2(lBlkSize)
    ensures cands == FillCandidates(rt[..], pc, off, data, lBlkSize)
  {
    cands := [];
    var n := rt.Length;
    var j := 0;
    while j < n
      invariant j <= n
      invariant cands == FillCandidates(rt[..j], pc, off, data, lBlkSize)
    {
      assert rt[..j + 1][..j] == rt[..j];
      var e := rt[j];
      if e.valid && e.indexPc == pc {
        var words := EntryWords(e, data, off, lBlkSize);
        cands := cands + words;
      }
      j := j + 1;
    }
    assert rt[..n] == rt[..];
  }

  /** The inner loop of `notifyFill` for one entry: the candidates of its words, in offset order. */
  method EntryWords(e: RTEntry, data: seq<Byte>, off: nat, lBlkSize: nat) returns (cands: seq<Candidate>)
    requires |data| == Pow2(lBlkSize)
    ensures cands == WordCandidates(e, data, off, EntryEnd(e, off, lBlkSize), lBlkSize)
  {
    var end := EntryEnd(e, off, lBlkSize);
    cands := [];
    var i := off;
    while i + 4 <= end
      invariant off <= i
      invariant cands + WordCandidates(e, data, i, end, lBlkSize) == WordCandidates(e, data, off, end, lBlkSize)
      decreases end as int - i
    {
      var c := WordAt(e, data, i, lBlkSize);
      assert WordCandidates(e, data, i, end, lBlkSize) == [c] + WordCandidates(e, data, i + 4, end, lBlkSize);
      cands := cands + [c];
      i := i + 4;
    }
    assert WordCandidates(e, data, i, end, lBlkSize) == [];
  }

  /**
   * One word of the inner loop of `notifyFill`: the little-endian word at
   * offset i, shifted and rebased by the entry, as a block address for the
   * entry's target PC.
   */
  method WordAt(e: RTEntry, data: seq<Byte>, i: nat, lBlkSize: nat) returns (c: Candidate)
    requires i + 4 <= |data|
    ensures c == WordCandidate(e, data, i, lBlkSize)
  {
    var v := DecodeLE32(data, i);
    c := Candidate(BlockAddress(RawAddress(v, e.shift, e.targetBase, 64), lBlkSize), e.targetPc, e.cID);
  }

  class Prefetcher {
    /** `shift_v`. */
    const shifts: seq<nat>
    const indirRange: nat
    /** `lBlkSize`, the base-2 logarithm of the block size. */
    const lBlkSize: nat
    /** `getWeight()` of an index-queue entry, as a function of (tried, matched). */
    const weight: (nat, nat) -> real
    /** The starting weight of `pickIndexPC` (`numeric_limits<float>::min()`). */
    const weightFloor: real

    /** `indexDataDeltaTable` and `iddt_ptr`; its ring size is `iddt_diff_num`. */
    const iddt: DeltaTableVec
    /** `targetAddrDeltaTable` and `tadt_ptr`; its ring size is `tadt_diff_num`. */
    const tadt: DeltaTableVec
    /** `rangeTable` and `rg_ptr`. */
    const rangeTable: RangeTableVec
    /** `indirectCandidateScoreboard` and `ics_ptr`. */
    const ics: ScoreboardVec
    const indexQueue: array<IQEntry>
    const relationTable: array<RTEntry>

    var iqPtr: nat
    var rtPtr: nat

    ghost predicate Valid()
      reads this, iddt, iddt.Repr, tadt, tadt.Repr, rangeTable, rangeTable.Repr, ics, ics.Repr
      reads indexQueue, relationTable
    {
      TablesOk() && QueueOk() && RelationsOk()
    }

    /** The four tables are well formed and apart from the prefetcher's own state. */
    ghost predicate TablesOk()
      reads iddt, iddt.Repr, tadt, tadt.Repr, rangeTable, rangeTable.Repr, ics, ics.Repr
    {
      && EngineTables(iddt, tadt, rangeTable, ics)
      && {this, indexQueue, relationTable} !! iddt.Repr + tadt.Repr + rangeTable.Repr + ics.Repr
    }

    /** The index queue holds each (PC, context) at most once among its valid entries. */
    ghost predicate QueueOk()
      reads this`iqPtr, indexQueue
    {
      indexQueue.Length >= 1 && IQUnique(indexQueue[..]) && iqPtr < indexQueue.Length
    }

    /** The relation table keeps its invariants. */
    ghost predicate RelationsOk()
      reads this`rtPtr, relationTable
    {
      relationTable.Length >= 1 && RTInvariant(relationTable[..]) && rtPtr < relationTable.Length
    }

    /** The constructor without the manual seeding of its `!auto_detect` branch. */
    constructor (iddtEntNum: nat, tadtEntNum: nat, iqEntNum: nat, rgEntNum: nat, icsEntNum: nat, rtEntNum: nat,
                 indirRange: nat, iddtDiffNum: nat, tadtDiffNum: nat, rangeUnit: nat, rangeLevel: nat,
                 icsCandidateNum: nat, shifts: seq<nat>, lBlkSize: nat,
                 weight: (nat, nat) -> real, weightFloor: real)
      requires iddtEntNum >= 1 && tadtEntNum >= 1 && iqEntNum >= 1 && rgEntNum >= 1 && icsEntNum >= 1 && rtEntNum >= 1
      requires iddtDiffNum >= 1 && tadtDiffNum >= 1 && rangeUnit >= 1 && rangeLevel >= 1
      ensures Valid()
      ensures iddt.bits == 32 && tadt.bits == 64
      ensures |iddt.entries| == iddtEntNum && iddt.diffSize == iddtDiffNum
      ensures |tadt.entries| == tadtEntNum && tadt.diffSize == tadtDiffNum
      ensures rangeTable.entNum == rgEntNum && |ics.entries| == icsEntNum && ics.candidateNum == icsCandidateNum
      ensures indexQueue.Length == iqEntNum && relationTable.Length == rtEntNum
      ensures this.shifts == shifts && this.indirRange == indirRange && this.lBlkSize == lBlkSize
      ensures this.weight == weight && this.weightFloor == weightFloor
      ensures iddt.ptr == 0 && tadt.ptr == 0 && rangeTable.ptr == 0 && ics.ptr == 0 && iqPtr == 0 && rtPtr == 0
      ensures iddt.Empty() && tadt.Empty() && rangeTable.Empty() && ics.Empty()
      ensures forall i :: 0 <= i < indexQueue.Length ==> !indexQueue[i].valid
      ensures forall i :: 0 <= i < relationTable.Length ==> !relationTable[i].valid
    {
      this.shifts := shifts;
      this.indirRange := indirRange;
      this.lBlkSize := lBlkSize;
      this.weight := weight;
      this.weightFloor := weightFloor;
      var d, t, g, c := NewEngineTables(iddtEntNum, tadtEntNum, rgEntNum, icsEntNum,
                                        iddtDiffNum, tadtDiffNum, rangeUnit, rangeLevel, icsCandidateNum);
      iddt, tadt, rangeTable, ics := d, t, g, c;
      var q := NewIndexQueue(iqEntNum);
      var r := NewRelationTable(rtEntNum);
      indexQueue, relationTable := q, r;
      iqPtr := 0;
      rtPtr := 0;
    }

    // -------------------------------------------------------------------
    // The index queue
    // -------------------------------------------------------------------

    /** `insertIndexQueue`. */
    method InsertIndexQueue(pc: nat, cID: int)
      requires Valid()
      modifies this`iqPtr, indexQueue
      ensures Valid()
      ensures (indexQueue[..], iqPtr) == IQInsert(old(indexQueue[..]), old(iqPtr), pc, cID)
    {
      IQInsertEffect(indexQueue[..], iqPtr, pc, cID);
      iqPtr := QueueInsert(indexQueue, iqPtr, pc, cID);
    }

    /**
     * `pickIndexPC`: the valid queue entry of greatest weight (the first of
     * equals, and heavier than the starting weight) has its `tried` counter
     * raised, and its (PC, context) is put under observation in the
     * scoreboard and the index-data table. Nothing changes when no entry
     * qualifies.
     */
    method PickIndexPC() returns (picked: Option<nat>)
      requires Valid()
      modifies indexQueue, ics, ics.Repr, iddt, iddt.Repr
      ensures Valid()
      ensures picked.None? ==> NoPick(old(indexQueue[..]), weight, weightFloor) && indexQueue[..] == old(indexQueue[..])
      ensures picked.Some? ==>
                var j := picked.value;
                && IsPick(old(indexQueue[..]), weight, weightFloor, j)
                && indexQueue[..] == old(indexQueue[..])[j := old(indexQueue[j]).(tried := old(indexQueue[j]).tried + 1)]
                && ICSKeyed(ics.entries, indexQueue[j].indexPc, indexQueue[j].cID)
                && DeltaKeyed(iddt.entries, indexQueue[j].indexPc, indexQueue[j].cID)
      ensures picked.None? ==> unchanged(ics, ics.Repr, iddt, iddt.Repr)
      ensures picked.Some? ==>
                forall i :: 0 <= i < |ics.entries| && i != old(ics.ptr) ==> unchanged(ics.entries[i])
      ensures picked.Some? ==>
                var e := old(indexQueue[picked.value]);
                old(ICSKeyed(ics.entries, e.indexPc, e.cID)) ==> unchanged(ics.entries[ics.ptr]) && ics.ptr == old(ics.ptr)
      ensures picked.Some? ==>
                var e := old(indexQueue[picked.value]);
                !old(ICSKeyed(ics.entries, e.indexPc, e.cID)) ==>
                  && ics.entries[old(ics.ptr)].indexPc == e.indexPc && ics.entries[old(ics.ptr)].cID == e.cID
                  && ics.entries[old(ics.ptr)].valid && ics.entries[old(ics.ptr)].missCount == map[]
                  && ics.ptr == (old(ics.ptr) + 1) % |ics.entries|
      ensures picked.Some? ==>
                forall i :: 0 <= i < |iddt.entries| ==> unchanged(iddt.entries[i].diff)
      ensures picked.Some? ==>
                forall i :: 0 <= i < |iddt.entries| && i != old(iddt.ptr) ==> unchanged(iddt.entries[i])
      ensures picked.Some? ==>
                var e := old(indexQueue[picked.value]);
                old(DeltaKeyed(iddt.entries, e.indexPc, e.cID)) ==> unchanged(iddt.entries[iddt.ptr]) && iddt.ptr == old(iddt.ptr)
      ensures picked.Some? ==>
                var e := old(indexQueue[picked.value]);
                !old(DeltaKeyed(iddt.entries, e.indexPc, e.cID)) ==>
                  && Allocated(iddt.entries[old(iddt.ptr)], e.indexPc, e.cID)
                  && iddt.entries[old(iddt.ptr)].last == old(iddt.entries[iddt.ptr].last)
                  && iddt.ptr == (old(iddt.ptr) + 1) % |iddt.entries|
    {
      picked := PickIndex(indexQueue, ics, iddt, weight, weightFloor);
    }

    // -------------------------------------------------------------------
    // Cache misses
    // -------------------------------------------------------------------

    /**
     * `notifyICSMiss(missAddr, missPc, cID)`: the valid scoreboard entries of
     * context cID count the miss, in table order, until one reports missPc;
     * then missPc is inserted into the target-address table and the range
     * table. A miss that nobody reports changes only the counters.
     */
    method NotifyICSMiss(missAddr: nat, missPc: nat, cID: int) returns (selected: bool)
      requires Valid() && missAddr < U64
      modifies ics.Repr, tadt, tadt.Repr, rangeTable, rangeTable.Repr
      ensures Valid()
      ensures var r := MissSweep(old(MissViews(ics.entries)), missPc, cID, ics.candidateNum, ics.candidateNum);
              selected == r.1 && forall i :: 0 <= i < |ics.entries| ==> ics.entries[i].missCount == r.0[i]
      ensures selected ==> DeltaKeyed(tadt.entries, missPc, cID)
      ensures selected && |shifts| > 0 ==> RangeKeyed(rangeTable.entries, missPc, cID)
      ensures !selected ==> unchanged(tadt, tadt.Repr, rangeTable, rangeTable.Repr)
      ensures selected ==>
                forall i :: 0 <= i < |tadt.entries| ==> unchanged(tadt.entries[i].diff)
      ensures selected ==>
                forall i :: 0 <= i < |tadt.entries| && i != old(tadt.ptr) ==> unchanged(tadt.entries[i])
      ensures selected ==>
                old(DeltaKeyed(tadt.entries, missPc, cID)) ==> unchanged(tadt.entries[tadt.ptr]) && tadt.ptr == old(tadt.ptr)
      ensures selected ==>
                !old(DeltaKeyed(tadt.entries, missPc, cID)) ==>
                  && Allocated(tadt.entries[old(tadt.ptr)], missPc, cID)
                  && tadt.entries[old(tadt.ptr)].last == old(tadt.entries[tadt.ptr].last)
                  && tadt.ptr == (old(tadt.ptr) + 1) % |tadt.entries|
      ensures selected ==>
                old(RangeKeyed(rangeTable.entries, missPc, cID)) ==>
                  rangeTable.ptr == old(rangeTable.ptr) && forall i :: 0 <= i < |rangeTable.entries| ==> unchanged(rangeTable.entries[i])
      ensures selected ==>
                !old(RangeKeyed(rangeTable.entries, missPc, cID)) ==>
                  && rangeTable.ptr == (old(rangeTable.ptr) + |shifts|) % rangeTable.entNum
                  && forall i :: 0 <= i < |rangeTable.entries| ==>
                       FieldsOf(rangeTable.entries[i]) ==
                         AfterWrites(old(FieldsOf(rangeTable.entries[i])), rangeTable.entries[i].level, old(rangeTable.ptr), rangeTable.entNum,
                                     shifts, |shifts|, i, missAddr, missPc, cID)
    {
      selected := MissEvent(ics, tadt, rangeTable, shifts, missAddr, missPc, cID);
    }

    // -------------------------------------------------------------------
    // Level-one requests
    // -------------------------------------------------------------------

    /**
     * The checks, the range filter and the fill of one turn of the loop of
     * `notifyL1Req`, for a request of `pc` at `addr` in context cID, on
     * target-address entry k.
     */
    method SampleEntry(k: nat, pc: nat, addr: nat, cID: int) returns (step: RequestStep)
      requires Valid() && tadt.bits == 64 && k < |tadt.entries| && addr < U64
      modifies tadt.entries[k], tadt.entries[k].diff, rangeTable.Repr
      ensures Valid()
      ensures var t := RequestTurn(old(TargetStateOf(tadt.entries[k])), old(SampleViews(rangeTable.entries)), pc, addr, cID);
              && step == t.step
              && TargetStateOf(tadt.entries[k]) == t.state
              && forall i :: 0 <= i < |rangeTable.entries| ==> SampleViewOf(rangeTable.entries[i]) == t.views[i]
      ensures step != Filled ==> unchanged(tadt.entries[k], tadt.entries[k].diff)
      ensures step in {Skipped, Aborted, Repeated} ==> unchanged(rangeTable.Repr)
      ensures unchanged(iddt, iddt.Repr)
      ensures forall j :: 0 <= j < |tadt.entries| && j != k ==> TargetStateOf(tadt.entries[j]) == old(TargetStateOf(tadt.entries[j]))
    {
      step := RequestSample(tadt, rangeTable, k, pc, addr, cID);
      assert unchanged(iddt, iddt.Repr, ics, ics.Repr, relationTable, indexQueue);
      assert iddt.Valid() && ics.Valid();
      assert QueueOk() && RelationsOk();
    }

    /**
     * `notifyL1Req`: a request without a PC or a virtual address changes
     * nothing; otherwise every target-address entry takes its turn
     * (`RequestEntry`), in table order, with the request's context, and the
     * handler stops after the first turn that aborts: the address does not
     * fit in `int64_t`, or `insertRT` aborts inside `diffMatching`. The
     * ghost `turns` is the fold `RequestTurns` over the entries that took a
     * turn: the target entries and the range table are as it leaves them,
     * the entries after them are untouched, and `ok` is false exactly when
     * the last turn aborted. The relation table and the queue stay as they
     * were unless some turn matched (`matched`).
     */
    method NotifyL1Req(req: Request) returns (ok: bool, ghost turns: Turns, ghost matched: bool)
      requires Valid() && tadt.bits == 64
      requires req.vaddr.Some? ==> req.vaddr.value < U64
      modifies tadt.Repr, rangeTable.Repr, this`rtPtr, this`iqPtr, relationTable, indexQueue
      ensures Valid()
      ensures req.pc.None? || req.vaddr.None? ==>
                ok && !matched && unchanged(tadt.Repr, rangeTable.Repr, this, relationTable, indexQueue)
      ensures |turns.steps| <= |tadt.entries|
      ensures req.pc.Some? && req.vaddr.Some? ==>
                turns == RequestTurns(old(TargetStates(tadt.entries))[..|turns.steps|], old(SampleViews(rangeTable.entries)),
                                      req.pc.value, req.vaddr.value, ContextOf(req))
      ensures req.pc.Some? && req.vaddr.Some? ==>
                && TargetStates(tadt.entries) == turns.states + old(TargetStates(tadt.entries))[|turns.steps|..]
                && SampleViews(rangeTable.entries) == turns.views
      ensures req.pc.Some? && req.vaddr.Some? ==>
                && (ok ==> |turns.steps| == |tadt.entries| && Aborted !in turns.steps)
                && (!ok ==> 0 < |turns.steps| && Aborted !in turns.steps[..|turns.steps| - 1] &&
                            (turns.steps[|turns.steps| - 1] == Aborted || Ready(turns, |turns.steps| - 1, tadt.diffSize)))
      ensures !matched <==> forall j :: 0 <= j < |turns.steps| ==> !Ready(turns, j, tadt.diffSize)
      ensures !matched ==> unchanged(this`rtPtr, this`iqPtr, relationTable, indexQueue)
    {
      ok, turns, matched := true, Turns([], [], []), false;
      if req.pc.None? || req.vaddr.None? {
        return;
      }
      ok, turns, matched := RequestLoop(req.pc.value, req.vaddr.value, ContextOf(req));
    }

    /**
     * The loop of `notifyL1Req` for a request of `pc` at `addr` in context
     * cID, as the fold `RequestTurns` over the entries that took a turn:
     * those entries and the range table end as it leaves them, the other
     * entries as they were.
     */
    method RequestLoop(pc: nat, addr: nat, cID: int) returns (ok: bool, ghost turns: Turns, ghost matched: bool)
      requires Valid() && tadt.bits == 64 && addr < U64
      modifies tadt.Repr, rangeTable.Repr, this`rtPtr, this`iqPtr, relationTable, indexQueue
      ensures Valid()
      ensures |turns.steps| <= |tadt.entries|
      ensures turns == RequestTurns(old(TargetStates(tadt.entries))[..|turns.steps|], old(SampleViews(rangeTable.entries)), pc, addr, cID)
      ensures TargetStates(tadt.entries) == turns.states + old(TargetStates(tadt.entries))[|turns.steps|..]
      ensures SampleViews(rangeTable.entries) == turns.views
      ensures ok ==> |turns.steps| == |tadt.entries| && Aborted !in turns.steps
      ensures !ok ==> 0 < |turns.steps| && Aborted !in turns.steps[..|turns.steps| - 1] &&
                      (turns.steps[|turns.steps| - 1] == Aborted || Ready(turns, |turns.steps| - 1, tadt.diffSize))
      ensures !matched <==> forall j :: 0 <= j < |turns.steps| ==> !Ready(turns, j, tadt.diffSize)
      ensures !matched ==> unchanged(this`rtPtr, this`iqPtr, relationTable, indexQueue)
    {
      ghost var s0, v0 := TargetStates(tadt.entries), SampleViews(rangeTable.entries);
      ok, turns, matched := TakeTurns(pc, addr, cID);
      TurnsTakenStates(tadt.entries, rangeTable.entries, |turns.steps|, turns, s0, v0, pc, addr, cID);
    }

    /**
     * The turns of the loop of `notifyL1Req`, one per target-address entry
     * until one aborts, each proved to take the next step of the fold.
     */
    method TakeTurns(pc: nat, addr: nat, cID: int) returns (ok: bool, ghost turns: Turns, ghost matched: bool)
      requires Valid() && tadt.bits == 64 && addr < U64
      modifies tadt.Repr, rangeTable.Repr, this`rtPtr, this`iqPtr, relationTable, indexQueue
      ensures Valid()
      ensures TurnsTaken(tadt.entries, rangeTable.entries, |turns.steps|, turns,
                         old(TargetStates(tadt.entries)), old(SampleViews(rangeTable.entries)), pc, addr, cID)
      ensures ok ==> |turns.steps| == |tadt.entries| && Aborted !in turns.steps
      ensures !ok ==> 0 < |turns.steps| && Aborted !in turns.steps[..|turns.steps| - 1] &&
                      (turns.steps[|turns.steps| - 1] == Aborted || Ready(turns, |turns.steps| - 1, tadt.diffSize))
      ensures !matched <==> forall j :: 0 <= j < |turns.steps| ==> !Ready(turns, j, tadt.diffSize)
      ensures !matched ==> unchanged(this`rtPtr, this`iqPtr, relationTable, indexQueue)
    {
      ok, matched := true, false;
      var n := |tadt.entries|;
      ghost var s0, v0 := TargetStates(tadt.entries), SampleViews(rangeTable.entries);
      turns := RequestTurns(s0[..0], v0, pc, addr, cID);
      ghost var at := 0;
      var k := 0;
      while k < n && ok
        invariant k <= n && Valid()
        invariant TurnsTaken(tadt.entries, rangeTable.entries, k, turns, s0, v0, pc, addr, cID)
        invariant ok ==> Aborted !in turns.steps
        invariant !ok ==> 0 < k && Aborted !in turns.steps[..k - 1] &&
                          (turns.steps[k - 1] == Aborted || Ready(turns, k - 1, tadt.diffSize))
        invariant matched ==> at < k && Ready(turns, at, tadt.diffSize)
        invariant !matched ==> forall j :: 0 <= j < k ==> !Ready(turns, j, tadt.diffSize)
        invariant !matched ==> unchanged(this`rtPtr, this`iqPtr, relationTable, indexQueue)
      {
        var step;
        ghost var r0 := turns;
        TurnsTakenStates(tadt.entries, rangeTable.entries, k, turns, s0, v0, pc, addr, cID);
        ghost var st := TargetStates(tadt.entries);
        step, turns := TakeTurn(k, pc, addr, cID, s0, v0, turns);
        TurnsTakenNext(tadt.entries, rangeTable.entries, k, r0, turns, st, s0, v0, pc, addr, cID);
        assert TurnsTaken(tadt.entries, rangeTable.entries, k + 1, turns, s0, v0, pc, addr, cID);
        TurnsExtend(r0, turns, k, tadt.diffSize);
        if step.Matched? {
          matched, at := true, k;
        }
        ok := !(step == Aborted || step == Matched(false));
        k := k + 1;
      }
    }

    /**
     * Turn k of the loop of `notifyL1Req` (`RequestEntry`), taken on the
     * tables the first k turns of the fold `RequestTurns` left: afterwards
     * the tables are those of the first k + 1 turns.
     */
    method TakeTurn(k: nat, pc: nat, addr: nat, cID: int, ghost s0: seq<TargetState>, ghost v0: seq<SampleView>, ghost r: Turns)
      returns (step: RequestStep, ghost r': Turns)
      requires Valid() && tadt.bits == 64 && addr < U64 && k < |tadt.entries|
      requires TurnsTaken(tadt.entries, rangeTable.entries, k, r, s0, v0, pc, addr, cID)
      modifies tadt.entries[k], tadt.entries[k].diff, rangeTable.Repr, this`rtPtr, this`iqPtr, relationTable, indexQueue
      ensures Valid()
      ensures forall j :: 0 <= j < |tadt.entries| && j != k ==> TargetStateOf(tadt.entries[j]) == old(TargetStates(tadt.entries))[j]
      ensures r' == RequestTurns(s0[..k + 1], v0, pc, addr, cID)
      ensures TargetStateOf(tadt.entries[k]) == r'.states[k]
      ensures forall i :: 0 <= i < |rangeTable.entries| ==> SampleViewOf(rangeTable.entries[i]) == r'.views[i]
      ensures |r'.steps| == |r'.states| == k + 1 && r'.steps[..k] == r.steps && r'.states[..k] == r.states
      ensures step.Matched? <==> Ready(r', k, tadt.diffSize)
      ensures !step.Matched? ==> step == r'.steps[k]
      ensures !step.Matched? ==> unchanged(this`rtPtr, this`iqPtr, relationTable, indexQueue)
    {
      SampleViewsAre(rangeTable.entries, r.views);
      ghost var t := RequestTurn(s0[k], r.views, pc, addr, cID);
      assert t == RequestTurn(TargetStateOf(tadt.entries[k]), SampleViews(rangeTable.entries), pc, addr, cID);
      step := RequestEntry(k, pc, addr, cID);
      RequestTurnsPrefix(s0, k, v0, pc, addr, cID);
      r' := Turns(r.steps + [t.step], r.states + [t.state], t.views);
      assert r'.steps[..k] == r.steps && r'.states[..k] == r.states;
    }

    /**
     * One turn of the loop of `notifyL1Req` for a request of `pc` at `addr`
     * in context cID, on target-address entry k: an entry that is valid and
     * of this PC, and whose newest value is not `addr`, runs the range
     * filter; when the filter passes, the entry is filled with `addr` and,
     * if it is ready afterwards, matched against the index-data table.
     */
    method RequestEntry(k: nat, pc: nat, addr: nat, cID: int) returns (step: RequestStep)
      requires Valid() && tadt.bits == 64 && k < |tadt.entries| && addr < U64
      modifies tadt.entries[k], tadt.entries[k].diff, rangeTable.Repr, this`rtPtr, this`iqPtr, relationTable, indexQueue
      ensures Valid()
      ensures var t := RequestTurn(old(TargetStateOf(tadt.entries[k])), old(SampleViews(rangeTable.entries)), pc, addr, cID);
              && (step.Matched? <==> t.step == Filled && t.state.fills >= tadt.diffSize)
              && (!step.Matched? ==> step == t.step)
              && TargetStateOf(tadt.entries[k]) == t.state
              && forall i :: 0 <= i < |rangeTable.entries| ==> SampleViewOf(rangeTable.entries[i]) == t.views[i]
      ensures step != Filled && !step.Matched? ==> unchanged(tadt.entries[k], tadt.entries[k].diff)
      ensures step in {Skipped, Aborted, Repeated} ==> unchanged(rangeTable.Repr)
      ensures forall j :: 0 <= j < |tadt.entries| && j != k ==> TargetStateOf(tadt.entries[j]) == old(TargetStateOf(tadt.entries[j]))
      ensures !step.Matched? ==> unchanged(this`rtPtr, this`iqPtr, relationTable, indexQueue)
      ensures step == Matched(true) ==>
                var y := SnapshotOf(tadt.entries[k]);
                MatchEffect(old(relationTable[..]), old(rtPtr), relationTable[..], rtPtr, indexQueue[..],
                            IndexPcs(AllMatches(old(ViewsOf(iddt.entries)), y.window, y.cID, shifts, |iddt.entries|)),
                            y.pc, y.cID)
    {
      ghost var views := ViewsOf(iddt.entries);
      step := SampleEntry(k, pc, addr, cID);
      assert ViewsOf(iddt.entries) == views;
      if step == Filled && tadt.entries[k].IsReady() {
        var ok := MatchTarget(k);
        step := Matched(ok);
      }
    }

    /** `diffMatching` on target-address entry k, which is valid and ready, against the index-data table as it stands. */
    method MatchTarget(k: nat) returns (ok: bool)
      requires Valid() && k < |tadt.entries| && tadt.entries[k].valid && tadt.entries[k].IsReady()
      modifies this`rtPtr, this`iqPtr, relationTable, indexQueue
      ensures Valid()
      ensures unchanged(tadt, tadt.Repr, rangeTable, rangeTable.Repr)
      ensures ok ==> var y := SnapshotOf(tadt.entries[k]);
                     MatchEffect(old(relationTable[..]), old(rtPtr), relationTable[..], rtPtr, indexQueue[..],
                                 IndexPcs(AllMatches(old(ViewsOf(iddt.entries)), y.window, y.cID, shifts, |iddt.entries|)),
                                 y.pc, y.cID)
    {
      assert tadt.entries[k].Valid();
      ghost var views := ViewsOf(iddt.entries);
      ViewsOfSeen(iddt.entries);
      ghost var ms, target;
      ok, ms, target := DiffMatching(k, views);
    }

    // -------------------------------------------------------------------
    // Level-one responses
    // -------------------------------------------------------------------

    /**
     * `notifyL1Resp`, for a packet no longer than a block (the handler's
     * `assert`): a response without a PC or without data changes nothing; otherwise its bytes, at most four, read little-endian as an
     * `int32_t` (`ResponseWord`), are recorded by every valid index-data entry of the PC
     * whose newest value differs (`AfterResponse`), in the response's context.
     */
    method NotifyL1Resp(req: Request, data: Option<seq<Byte>>)
      requires Valid() && iddt.bits == 32
      requires data.Some? ==> |data.value| <= Pow2(lBlkSize)
      modifies iddt.Repr
      ensures Valid()
      ensures req.pc.None? || data.None? ==> unchanged(iddt.Repr)
      ensures req.pc.Some? && data.Some? ==>
                var v := Signed(ResponseWord(data.value), iddt.bits);
                forall i :: 0 <= i < |iddt.entries| ==>
                  RingStateOf(iddt.entries[i]) ==
                  AfterResponse(old(RingStateOf(iddt.entries[i])), req.pc.value, v, ContextOf(req), iddt.bits)
    {
      if req.pc.None? || data.None? {
        return;
      }
      ReadResponse(iddt, req.pc.value, data.value, ContextOf(req));
      assert unchanged(this, tadt, tadt.Repr, rangeTable, rangeTable.Repr, ics, ics.Repr, indexQueue, relationTable);
    }

    // -------------------------------------------------------------------
    // Fills and the notification entry points
    // -------------------------------------------------------------------

    /**
     * `notifyFill`: a fill without a PC or without data yields nothing;
     * otherwise the packet's bytes `data` (at most a block) are written to
     * the start of a block-sized buffer whose other bytes are `stale`, and
     * the candidates, decoded from block offset `paddr & (blkSize-1)`, are
     * those of every relation indexed by the PC. Each is a block-aligned
     * 64-bit address derived from a word of the buffer by a valid relation
     * of that PC, and is issued for that relation's target PC in its context.
     */
    method NotifyFill(req: Request, paddr: nat, data: Option<seq<Byte>>, stale: seq<Byte>) returns (cands: seq<Candidate>)
      requires Valid()
      requires |stale| == Pow2(lBlkSize)
      requires data.Some? ==> |data.value| <= Pow2(lBlkSize)
      ensures req.pc.None? || data.None? ==> cands == []
      ensures req.pc.Some? && data.Some? ==>
                cands == FillCandidates(relationTable[..], req.pc.value, paddr % Pow2(lBlkSize), FillBuffer(data.value, stale), lBlkSize)
      ensures forall c :: c in cands ==>
                && c.addr % Pow2(lBlkSize) == 0 && c.addr < U64
                && exists j :: 0 <= j < relationTable.Length && Some(relationTable[j].indexPc) == req.pc
                     && relationTable[j].valid && c.pc == relationTable[j].targetPc && c.cID == relationTable[j].cID
    {
      if req.pc.None? || data.None? {
        return [];
      }
      var off := paddr % Pow2(lBlkSize);
      var buffer := data.value + stale[|data.value|..];
      cands := CollectFill(relationTable, req.pc.value, off, buffer, lBlkSize);
      FillCandidatesSound(relationTable[..], req.pc.value, off, buffer, lBlkSize);
    }

    /**
     * `notify`: a miss goes to `notifyICSMiss` with the request's address,
     * PC and context (0 for each one missing), anything else to `notifyFill`
     * with the packet's bytes and the stale bytes of its buffer.
     */
    method Notify(req: Request, miss: bool, paddr: nat, data: Option<seq<Byte>>, stale: seq<Byte>)
      returns (selected: bool, cands: seq<Candidate>)
      requires Valid()
      requires req.vaddr.Some? ==> req.vaddr.value < U64
      requires |stale| == Pow2(lBlkSize)
      requires data.Some? ==> |data.value| <= Pow2(lBlkSize)
      modifies ics.Repr, tadt, tadt.Repr, rangeTable, rangeTable.Repr
      ensures Valid()
      ensures miss ==>
                var r := MissSweep(old(MissViews(ics.entries)), MissPcOf(req), ContextOf(req), ics.candidateNum, ics.candidateNum);
                && selected == r.1 && cands == []
                && (forall i :: 0 <= i < |ics.entries| ==> ics.entries[i].missCount == r.0[i])
                && (selected ==> DeltaKeyed(tadt.entries, MissPcOf(req), ContextOf(req)))
                && (selected && |shifts| > 0 ==> RangeKeyed(rangeTable.entries, MissPcOf(req), ContextOf(req)))
                && (!selected ==> unchanged(tadt, tadt.Repr, rangeTable, rangeTable.Repr))
      ensures miss && selected ==>
                forall i :: 0 <= i < |tadt.entries| ==> unchanged(tadt.entries[i].diff)
      ensures miss && selected ==>
                forall i :: 0 <= i < |tadt.entries| && i != old(tadt.ptr) ==> unchanged(tadt.entries[i])
      ensures miss && selected ==>
                old(DeltaKeyed(tadt.entries, MissPcOf(req), ContextOf(req))) ==> unchanged(tadt.entries[tadt.ptr]) && tadt.ptr == old(tadt.ptr)
      ensures miss && selected ==>
                !old(DeltaKeyed(tadt.entries, MissPcOf(req), ContextOf(req))) ==>
                  && Allocated(tadt.entries[old(tadt.ptr)], MissPcOf(req), ContextOf(req))
                  && tadt.entries[old(tadt.ptr)].last == old(tadt.entries[tadt.ptr].last)
                  && tadt.ptr == (old(tadt.ptr) + 1) % |tadt.entries|
      ensures miss && selected ==>
                old(RangeKeyed(rangeTable.entries, MissPcOf(req), ContextOf(req))) ==>
                  rangeTable.ptr == old(rangeTable.ptr) && forall i :: 0 <= i < |rangeTable.entries| ==> unchanged(rangeTable.entries[i])
      ensures miss && selected ==>
                !old(RangeKeyed(rangeTable.entries, MissPcOf(req), ContextOf(req))) ==>
                  && rangeTable.ptr == (old(rangeTable.ptr) + |shifts|) % rangeTable.entNum
                  && forall i :: 0 <= i < |rangeTable.entries| ==>
                       FieldsOf(rangeTable.entries[i]) ==
                         AfterWrites(old(FieldsOf(rangeTable.entries[i])), rangeTable.entries[i].level, old(rangeTable.ptr), rangeTable.entNum,
                                     shifts, |shifts|, i, MissAddrOf(req), MissPcOf(req), ContextOf(req))
      ensures !miss ==>
                && !selected
                && unchanged(ics.Repr, tadt, tadt.Repr, rangeTable, rangeTable.Repr)
                && (req.pc.None? || data.None? ==> cands == [])
                && (req.pc.Some? && data.Some? ==>
                      cands == FillCandidates(relationTable[..], req.pc.value, paddr % Pow2(lBlkSize), FillBuffer(data.value, stale), lBlkSize))
    {
      if miss {
        selected := NotifyICSMiss(MissAddrOf(req), MissPcOf(req), ContextOf(req));
        cands := [];
      } else {
        selected := false;
        cands := NotifyFill(req, paddr, data, stale);
      }
    }

    /** `callReadytoIssue`: the PC of an issued prefetch, with its context, joins the index queue. */
    method CallReadyToIssue(pc: nat, cID: int)
      requires Valid()
      modifies this`iqPtr, indexQueue
      ensures Valid()
      ensures (indexQueue[..], iqPtr) == IQInsert(old(indexQueue[..]), old(iqPtr), pc, cID)
    {
      InsertIndexQueue(pc, cID);
    }

    // -------------------------------------------------------------------
    // The relation table
    // -------------------------------------------------------------------


    // -------------------------------------------------------------------
    // Difference matching
    // -------------------------------------------------------------------

    /**
     * `diffMatching(tadt_ent)` for target entry k, which must be valid and
     * ready: every match of its window against the valid, ready index
     * entries of its context is reported to `insertRT` and `matchUpdate`,
     * in loop order, and nothing else is. Together the reports write at most
     * one relation, every reported relation is blocked afterwards, and the
     * target is queued once anything was reported. `ok` is false when
     * `insertRT` aborts.
     */
    method DiffMatching(k: nat, ghost views: seq<StreamView>) returns (ok: bool, ghost ms: seq<MatchPoint>, ghost target: Snapshot)
      requires Valid() && k < |tadt.entries| && SeenAs(iddt.entries, views)
      requires tadt.entries[k].Valid() && tadt.entries[k].valid && tadt.entries[k].IsReady()
      modifies this`rtPtr, this`iqPtr, relationTable, indexQueue
      ensures Valid()
      ensures target == old(SnapshotOf(tadt.entries[k]))
      ensures ok ==> ms == AllMatches(views, target.window, target.cID, shifts, |iddt.entries|)
      ensures ok ==> forall m :: m in ms <==> IsMatch(views, target.window, target.cID, shifts, m)
      ensures ok ==> MatchEffect(old(relationTable[..]), old(rtPtr), relationTable[..], rtPtr, indexQueue[..],
                                 IndexPcs(ms), target.pc, target.cID)
    {
      var y := SnapshotOf(tadt.entries[k]);
      target := y;
      ok, rtPtr, iqPtr, ms := MatchEntries(relationTable, rtPtr, indexQueue, iqPtr, iddt.entries, views, y,
                                           rangeTable.entries, indirRange, shifts);
      assert unchanged(iddt, iddt.Repr, tadt, tadt.Repr, rangeTable, rangeTable.Repr, ics, ics.Repr);
      AllMatchesSpec(views, y.window, y.cID, shifts, |iddt.entries|);
    }

  }
}
