/**
 * One entry of a delta table (`DeltaTableEntry<T>` in diff_matching.hh): the
 * per-PC ring of the last `diffSize` differences of a value stream.
 *
 * The same class serves both instantiations: the index-data table stores
 * `int32_t` values (`bits == 32`) and the target-address table 64-bit values
 * (`bits == 64`); a difference is narrowed to the entry's width as the C++
 * assignment into `T` does.
 *
 * The header that was shipped with the source predates the .cc that uses it:
 * the .cc also calls `update(pc, cID)`, `validate()`, `isReady()`,
 * `getContextId()` and a two-argument `fill(value, cID)`, whose bodies are not
 * available. They are modelled here under these stated assumptions:
 * - the entry records a context identifier `cID`; `fill(v, c)` does nothing
 *   when `c` differs from it and otherwise behaves as the one-argument `fill`;
 * - `isReady()` holds once the entry has been filled at least `diffSize`
 *   times since it was last allocated by `update`, that is, once its ring
 *   has been filled completely;
 * - `update(pc, cID)` replaces the key, resets the ring cursor and the fill
 *   count, and leaves `last` and the stored deltas alone (it has no `last`
 *   argument); `validate()` sets `valid`.
 */
module DeltaTable {
  import opened Arith

  class DeltaTableEntry {
    var pc: nat
    var cID: int
    var valid: bool
    var last: int
    var diffPtr: nat
    const diffSize: nat
    const diff: array<int>

    /** Width of `T` in bits. */
    const bits: nat
    /** Fills since allocation (the state behind `isReady()`). */
    var fills: nat

    /** Every delta written since the ring cursor was last reset, oldest first. */
    ghost var history: seq<int>

    /** A value of type `T`. */
    predicate InWidth(x: int)
    {
      bits >= 1 && -(Pow2(bits - 1) as int) <= x < Pow2(bits - 1)
    }

    ghost predicate Valid()
      reads this, diff
    {
      && diffSize >= 1
      && bits >= 1
      && diff.Length == diffSize
      && diffPtr < diffSize
      && InWidth(last)
      && (forall i :: 0 <= i < diffSize ==> InWidth(diff[i]))
      && RecentMatches(Window(), history)
    }

    /** The ring read from the cursor on: oldest stored delta first, newest last. */
    ghost function Window(): (w: seq<int>)
      reads this`diffPtr, diff
      requires diff.Length == diffSize && diffPtr < diffSize
      ensures |w| == diffSize
    {
      Rotate(diff[..], diffPtr)
    }

    constructor (pc: nat, last: int, diffSize: nat, valid: bool, bits: nat)
      requires diffSize >= 1 && bits >= 1
      requires -(Pow2(bits - 1) as int) <= last < Pow2(bits - 1)
      ensures Valid() && fresh(diff)
      ensures this.pc == pc && this.last == last && this.valid == valid && cID == 0
      ensures this.diffSize == diffSize && this.bits == bits
      ensures diffPtr == 0 && fills == 0 && history == []
      ensures forall i :: 0 <= i < diffSize ==> diff[i] == 0
    {
      this.pc := pc;
      this.last := last;
      this.valid := valid;
      this.diffSize := diffSize;
      this.bits := bits;
      cID := 0;
      diffPtr := 0;
      fills := 0;
      diff := new int[diffSize](_ => 0);
      history := [];
    }

    /** `operator[]`: the delta `index` places after the oldest one, modulo the ring size. */
    function Get(index: nat): (r: int)
      reads this, diff
      requires Valid()
      ensures InWidth(r)
      ensures index < diffSize ==> r == Window()[index]
      ensures index < diffSize && diffSize - index <= |history| ==>
                r == history[|history| - diffSize + index]
    {
      var k := (diffPtr + index) % diffSize;
      GetAgreesWithWindow(index);
      diff[k]
    }

    lemma GetAgreesWithWindow(index: nat)
      requires Valid()
      ensures index < diffSize ==> diff[(diffPtr + index) % diffSize] == Window()[index]
      ensures index < diffSize && diffSize - index <= |history| ==>
                diff[(diffPtr + index) % diffSize] == history[|history| - diffSize + index]
    {
      if index < diffSize {
        RotateAt(diff[..], diffPtr, index);
        if diffSize - index <= |history| {
          var j := |history| - diffSize + index;
          assert Window()[diffSize - |history| + j] == history[j];
        }
      }
    }

    predicate IsReady()
      reads this
    {
      fills >= diffSize
    }

    method Invalidate()
      requires Valid()
      modifies this
      ensures Valid()
      ensures !valid && diffPtr == 0 && history == []
      ensures pc == old(pc) && cID == old(cID) && last == old(last) && fills == old(fills)
      ensures diff[..] == old(diff[..])
    {
      diffPtr := 0;
      valid := false;
      history := [];
    }

    method Renew(pcNew: nat, lastNew: int, validNew: bool)
      requires Valid() && InWidth(lastNew)
      modifies this
      ensures Valid()
      ensures pc == pcNew && last == lastNew && valid == validNew && diffPtr == 0 && history == []
      ensures cID == old(cID) && fills == old(fills)
      ensures diff[..] == old(diff[..])
    {
      pc := pcNew;
      last := lastNew;
      valid := validNew;
      diffPtr := 0;
      history := [];
    }

    /** Allocation of the entry to a new (pc, context) (the `update` of the .cc). */
    method Update(pcNew: nat, cIDNew: int)
      requires Valid()
      modifies this
      ensures Valid()
      ensures pc == pcNew && cID == cIDNew && diffPtr == 0 && fills == 0 && history == []
      ensures valid == old(valid) && last == old(last)
      ensures diff[..] == old(diff[..])
    {
      pc := pcNew;
      cID := cIDNew;
      diffPtr := 0;
      fills := 0;
      history := [];
    }

    method Validate()
      requires Valid()
      modifies this
      ensures Valid() && valid
      ensures pc == old(pc) && cID == old(cID) && last == old(last) && diffPtr == old(diffPtr)
      ensures fills == old(fills) && history == old(history)
    {
      valid := true;
    }

    /**
     * Record `lastIn` from context `c`: the difference to the previous value
     * overwrites the oldest delta, so the window drops its first element and
     * gains the new difference at the end.
     */
    method Fill(lastIn: int, c: int)
      requires Valid() && InWidth(lastIn)
      modifies this, diff
      ensures Valid()
      ensures c != old(cID) ==> unchanged(this) && diff[..] == old(diff[..])
      ensures c == old(cID) ==>
                && last == lastIn
                && fills == old(fills) + 1
                && history == old(history) + [Signed(lastIn - old(last), bits)]
                && Window() == old(Window())[1..] + [Signed(lastIn - old(last), bits)]
                && diff[..] == old(diff[..])[old(diffPtr) := Signed(lastIn - old(last), bits)]
                && diffPtr == (old(diffPtr) + 1) % diffSize
      ensures pc == old(pc) && cID == old(cID) && valid == old(valid)
    {
      if c != cID {
        return;
      }
      ghost var w0 := Window();
      ghost var s0 := diff[..];
      ghost var p := diffPtr;
      var d := Signed(lastIn - last, bits);
      diff[diffPtr] := d;
      diffPtr := (diffPtr + 1) % diffSize;
      last := lastIn;
      fills := fills + 1;
      history := history + [d];
      assert diff[..] == s0[p := d];
      RotateWrite(s0, p, d);
      RecentMatchesExtend(w0, old(history), d);
    }
  }

  /**
   * Once the entry has received at least `diffSize` deltas since its cursor
   * was reset, the window is exactly the last `diffSize` deltas in arrival order.
   */
  lemma WindowIsRecentHistory(e: DeltaTableEntry)
    requires e.Valid() && |e.history| >= e.diffSize
    ensures e.Window() == e.history[|e.history| - e.diffSize..]
  {
    var w := e.Window();
    var h := e.history[|e.history| - e.diffSize..];
    forall i | 0 <= i < e.diffSize
      ensures w[i] == h[i]
    {
      var j := |e.history| - e.diffSize + i;
      assert w[e.diffSize - |e.history| + j] == e.history[j];
    }
  }

  /** The ring read from position p on, wrapping around. */
  function Rotate(s: seq<int>, p: nat): (r: seq<int>)
    requires p < |s|
    ensures |r| == |s|
  {
    s[p..] + s[..p]
  }

  lemma RotateAt(s: seq<int>, p: nat, i: nat)
    requires p < |s| && i < |s|
    ensures Rotate(s, p)[i] == s[(p + i) % |s|]
  {
    if p + i < |s| {
      DivModUnique(p + i, |s|, 0, p + i);
    } else {
      DivModUnique(p + i, |s|, 1, p + i - |s|);
    }
  }

  /** Overwriting the oldest slot and advancing the cursor drops the oldest value and appends the new one. */
  lemma RotateWrite(s: seq<int>, p: nat, d: int)
    requires p < |s|
    ensures Rotate(s[p := d], (p + 1) % |s|) == Rotate(s, p)[1..] + [d]
  {
    var t := s[p := d];
    if p + 1 == |s| {
      DivModUnique(p + 1, |s|, 1, 0);
      assert Rotate(t, 0) == t;
      assert t == s[..p] + [d];
      assert Rotate(s, p)[1..] == s[..p];
    } else {
      DivModUnique(p + 1, |s|, 0, p + 1);
      assert t[p + 1..] == s[p + 1..];
      assert t[..p + 1] == s[..p] + [d];
      assert Rotate(s, p)[1..] == s[p + 1..] + s[..p];
    }
  }

  /** The last |w| (or fewer) values of h sit, in order, at the end of w. */
  ghost predicate RecentMatches(w: seq<int>, h: seq<int>)
  {
    forall j :: 0 <= j < |h| && |h| - |w| <= j ==> w[|w| - |h| + j] == h[j]
  }

  lemma RecentMatchesExtend(w: seq<int>, h: seq<int>, d: int)
    requires |w| >= 1 && RecentMatches(w, h)
    ensures RecentMatches(w[1..] + [d], h + [d])
  {
    var w' := w[1..] + [d];
    var h' := h + [d];
    forall j | 0 <= j < |h'| && |h'| - |w'| <= j
      ensures w'[|w'| - |h'| + j] == h'[j]
    {
      if j < |h| {
        assert w'[|w'| - |h'| + j] == w[|w| - |h| + j];
      }
    }
  }
}
