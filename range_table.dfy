/**
 * The range table entry (`DiffMatching::RangeTableEntry` in diff_matching.cc):
 * a continuity sampler over the shifted addresses of one target PC, with a
 * quantised histogram of the lengths of the contiguous runs it has seen.
 *
 * The entry's declaration is not part of this model; the fields are the ones
 * the .cc reads and writes. Two of its members are used but not shown, and
 * are modelled under these stated assumptions:
 * - the constructor `RangeTableEntry(unit, level, valid)` sizes the histogram
 *   to `level` zero buckets (the .cc indexes it with `sampled_level - 1`,
 *   where `sampled_level` ranges over 1..level);
 * - `update(target_pc, addr, shift, cID)` replaces the key, seeds the tail
 *   with the shifted address, and clears the run counter and the histogram.
 */
module RangeTable {
  import opened Arith

  /** The part of an entry that `updateSample` changes. */
  datatype SampleState = SampleState(tail: nat, count: nat, hist: seq<nat>)

  /**
   * The bucket a closed run of `count` continuations falls into: the source's
   * `sampled_level - 1`, where `sampled_level` is `(count + unit) / unit`
   * capped at `level`. Bucket b collects counts in [b*unit, (b+1)*unit), the
   * last bucket everything from (level-1)*unit up.
   */
  function Bucket(count: nat, unit: nat, level: nat): (b: nat)
    requires count > 0 && unit >= 1 && level >= 1
    ensures b < level
    ensures b * unit <= count
    ensures b < level - 1 ==> count < (b + 1) * unit
    ensures b == Min(level, count / unit + 1) - 1
  {
    DivFacts(count, unit);
    var q := count / unit;
    DivModUnique(count + unit, unit, q + 1, count - q * unit);
    if count >= level * unit then
      assert q >= level by {
        if q < level {
          MulAtLeast(level - q, unit);
        }
      }
      assert (level - 1) * unit <= count by {
        assert (level - 1) * unit == level * unit - unit;
      }
      level - 1
    else
      assert q < level by {
        if q >= level {
          NonNegProduct(q - level, unit);
        }
      }
      (count + unit) / unit - 1
  }

  /** The histogram after one more run has been recorded in bucket b. */
  function Record(hist: seq<nat>, b: nat): (r: seq<nat>)
    requires b < |hist|
    ensures |r| == |hist|
  {
    hist[b := hist[b] + 1]
  }

  /** Whether `a` continues the run ending at `tail`; `cur_tail + 1` is computed in `uint64_t`. */
  predicate Continues(tail: nat, a: nat)
  {
    a == (tail + 1) % U64
  }

  /**
   * `updateSample` on an already shifted address `a`: the new state and the
   * returned flag (true when `a` starts a new run).
   */
  function SampleStep(st: SampleState, a: nat, unit: nat, level: nat): (r: (SampleState, bool))
    requires unit >= 1 && level >= 1 && |st.hist| == level
    ensures |r.0.hist| == level && r.0.tail == a
  {
    if Continues(st.tail, a) then
      (SampleState(a, st.count + 1, st.hist), false)
    else if st.count > 0 then
      (SampleState(a, 0, Record(st.hist, Bucket(st.count, unit, level))), true)
    else
      (SampleState(a, 0, st.hist), true)
  }

  /** Sum of the histogram buckets (the loop of `getRangeType`). */
  function Total(s: seq<nat>): nat
  {
    if |s| == 0 then 0 else Total(s[..|s| - 1]) + s[|s| - 1]
  }

  lemma {:induction false} TotalRecord(s: seq<nat>, b: nat)
    requires b < |s|
    ensures Total(Record(s, b)) == Total(s) + 1
  {
    var r := Record(s, b);
    var n := |s| - 1;
    if b < n {
      assert r[..n] == Record(s[..n], b);
      TotalRecord(s[..n], b);
    } else {
      assert r[..n] == s[..n];
    }
  }

  lemma {:induction false} TotalPositive(s: seq<nat>)
    ensures Total(s) > 0 <==> exists i :: 0 <= i < |s| && s[i] > 0
  {
    if |s| > 0 {
      var n := |s| - 1;
      TotalPositive(s[..n]);
      if Total(s[..n]) > 0 {
        var i :| 0 <= i < n && s[..n][i] > 0;
        assert s[i] > 0;
      }
      if exists i :: 0 <= i < |s| && s[i] > 0 {
        var i :| 0 <= i < |s| && s[i] > 0;
        if i < n {
          assert s[..n][i] > 0;
        }
      }
    }
  }

  /**
   * A sample either continues the run (result false, counter + 1, histogram
   * unchanged) or starts a new one (result true, counter reset); the
   * histogram total grows by exactly one iff a run of positive length closes.
   */
  lemma SampleStepEffect(st: SampleState, a: nat, unit: nat, level: nat)
    requires unit >= 1 && level >= 1 && |st.hist| == level
    ensures var (st', started) := SampleStep(st, a, unit, level);
      && (started <==> !Continues(st.tail, a))
      && (started ==> st'.count == 0)
      && (!started ==> st'.count == st.count + 1 && st'.hist == st.hist)
      && Total(st'.hist) == Total(st.hist) + (if started && st.count > 0 then 1 else 0)
      && (forall i :: 0 <= i < level ==> st'.hist[i] >= st.hist[i])
  {
    if !Continues(st.tail, a) && st.count > 0 {
      TotalRecord(st.hist, Bucket(st.count, unit, level));
    }
  }

  /** Feeds a sequence of shifted addresses, returning the final state and the flags. */
  function SampleAll(st: SampleState, addrs: seq<nat>, unit: nat, level: nat): (r: (SampleState, seq<bool>))
    requires unit >= 1 && level >= 1 && |st.hist| == level
    ensures |r.0.hist| == level && |r.1| == |addrs|
    decreases |addrs|
  {
    if |addrs| == 0 then (st, [])
    else
      var (st1, b) := SampleStep(st, addrs[0], unit, level);
      var (st2, bs) := SampleAll(st1, addrs[1..], unit, level);
      (st2, [b] + bs)
  }

  /**
   * The run 100, 101, 102 followed by 200, 201 (shift 0, unit 1, four levels),
   * from a fresh entry whose tail does not precede 100: one run with two
   * continuations closes at 200 and lands in bucket 2 (`sampled_level` 3,
   * the run's length), after which the entry is a range type.
   */
  lemma RunScenario(t0: nat)
    requires t0 < U64 && t0 != 99
    ensures var (st, flags) := SampleAll(SampleState(t0, 0, [0, 0, 0, 0]), [100, 101, 102, 200, 201], 1, 4);
      && flags == [true, false, false, true, false]
      && st.hist == [0, 0, 1, 0]
      && st.tail == 201 && st.count == 1
      && Total(st.hist) > 0
  {
    var h := [0, 0, 0, 0];
    assert !Continues(t0, 100);
    var s1 := SampleState(100, 0, h);
    assert SampleStep(SampleState(t0, 0, h), 100, 1, 4) == (s1, true);
    var s2 := SampleState(101, 1, h);
    assert SampleStep(s1, 101, 1, 4) == (s2, false);
    var s3 := SampleState(102, 2, h);
    assert SampleStep(s2, 102, 1, 4) == (s3, false);
    assert Bucket(2, 1, 4) == 2;
    assert Record(h, 2) == [0, 0, 1, 0];
    var s4 := SampleState(200, 0, [0, 0, 1, 0]);
    assert SampleStep(s3, 200, 1, 4) == (s4, true);
    var s5 := SampleState(201, 1, [0, 0, 1, 0]);
    assert SampleStep(s4, 201, 1, 4) == (s5, false);
    assert SampleAll(s5, [], 1, 4) == (s5, []);
    assert [200, 201][1..] == [201];
    assert [102, 200, 201][1..] == [200, 201];
    assert [101, 102, 200, 201][1..] == [102, 200, 201];
    assert [100, 101, 102, 200, 201][1..] == [101, 102, 200, 201];
    TotalPositive([0, 0, 1, 0]);
    assert [0, 0, 1, 0][2] > 0;
  }

  function Zeros(n: nat): (r: seq<nat>)
    ensures |r| == n && forall i :: 0 <= i < n ==> r[i] == 0
  {
    seq(n, _ => 0)
  }

  class RangeTableEntry {
    var targetPc: nat
    var cID: int
    var valid: bool
    var shiftTimes: nat
    var curTail: nat
    var curCount: nat
    var sampleCount: seq<nat>
    /** `range_quant_unit` and `range_quant_level`. */
    const unit: nat
    const level: nat

    ghost predicate Valid()
      reads this
    {
      unit >= 1 && level >= 1 && |sampleCount| == level && curTail < U64
    }

    function State(): SampleState
      reads this
    {
      SampleState(curTail, curCount, sampleCount)
    }

    constructor (unit: nat, level: nat, valid: bool)
      requires unit >= 1 && level >= 1
      ensures Valid()
      ensures this.unit == unit && this.level == level && this.valid == valid
      ensures targetPc == 0 && cID == 0 && shiftTimes == 0
      ensures curTail == 0 && curCount == 0 && sampleCount == Zeros(level)
    {
      this.unit := unit;
      this.level := level;
      this.valid := valid;
      targetPc := 0;
      cID := 0;
      shiftTimes := 0;
      curTail := 0;
      curCount := 0;
      sampleCount := Zeros(level);
    }

    /** Allocation to a new (target PC, shift, context), seeded with the missed address. */
    method Update(targetPcIn: nat, addrIn: nat, shift: nat, cIDIn: int)
      requires Valid() && addrIn < U64
      modifies this
      ensures Valid()
      ensures targetPc == targetPcIn && cID == cIDIn && shiftTimes == shift
      ensures curTail == ShiftRight(addrIn, shift) && curCount == 0 && sampleCount == Zeros(level)
      ensures valid == old(valid)
    {
      targetPc := targetPcIn;
      cID := cIDIn;
      shiftTimes := shift;
      curTail := ShiftRight(addrIn, shift);
      curCount := 0;
      sampleCount := Zeros(level);
    }

    method Validate()
      modifies this
      ensures valid
      ensures targetPc == old(targetPc) && cID == old(cID) && shiftTimes == old(shiftTimes)
      ensures State() == old(State())
    {
      valid := true;
    }

    /** `updateSample`: returns true when the address starts a new run. */
    method UpdateSample(addrIn: nat) returns (r: bool)
      requires Valid() && addrIn < U64
      modifies this
      ensures Valid()
      ensures (State(), r) == SampleStep(old(State()), ShiftRight(addrIn, shiftTimes), unit, level)
      ensures targetPc == old(targetPc) && cID == old(cID) && valid == old(valid)
      ensures shiftTimes == old(shiftTimes)
    {
      var addrShifted := ShiftRight(addrIn, shiftTimes);
      if addrShifted == (curTail + 1) % U64 {
        curCount := curCount + 1;
        curTail := addrShifted;
        return false;
      }
      if curCount > 0 {
        var sampledLevel: nat;
        if curCount >= level * unit {
          sampledLevel := level;
        } else {
          sampledLevel := (curCount + unit) / unit;
        }
        assert sampledLevel - 1 == Bucket(curCount, unit, level);
        sampleCount := sampleCount[sampledLevel - 1 := sampleCount[sampledLevel - 1] + 1];
        curCount := 0;
      }
      curTail := addrShifted;
      return true;
    }

    /** `getRangeType`: some closed run has been recorded. */
    method GetRangeType() returns (r: bool)
      requires Valid()
      ensures r <==> exists i :: 0 <= i < |sampleCount| && sampleCount[i] > 0
    {
      var sum := 0;
      var i := 0;
      while i < |sampleCount|
        invariant 0 <= i <= |sampleCount|
        invariant sum == Total(sampleCount[..i])
      {
        assert sampleCount[..i + 1][..i] == sampleCount[..i];
        sum := sum + sampleCount[i];
        i := i + 1;
      }
      assert sampleCount[..i] == sampleCount;
      TotalPositive(sampleCount);
      r := sum > 0;
    }
  }
}
