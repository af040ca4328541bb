/**
 * The arithmetic of the diff-matching prefetcher (diff_matching.cc), as pure
 * functions: the match predicate of `diffMatching`, the recovery of the index
 * value and the base address in `insertRT`, the little-endian decode of
 * `notifyL1Resp`/`notifyFill`, and the candidate addresses `notifyFill`
 * generates from a filled block.
 *
 * Index values are `int32_t`; target values are taken to be `int64_t` (the
 * type `TargetAddr` is not part of this model, and the source asserts every
 * target value fits it), so `>>` on a target delta is an arithmetic shift:
 * floor division by 2^s.
 */
module MatchSpec {
  import opened Arith
  import opened PrefetchBase

  /**
   * The comparison in `diffMatching`: the target deltas, each shifted right
   * by s, equal the index deltas starting at `iStart`.
   */
  predicate Matches(idx: seq<int>, tgt: seq<int>, iStart: nat, s: nat)
    requires iStart + |tgt| <= |idx|
  {
    forall t :: 0 <= t < |tgt| ==> idx[iStart + t] == ShiftRight(tgt[t], s)
  }

  /**
   * A match found by `diffMatching`: the index-table entry, its PC, the start
   * offset in its window and the position of the shift value in `shift_v`.
   */
  datatype MatchPoint = MatchPoint(entry: nat, indexPc: nat, iStart: nat, shiftIndex: nat)

  /** The index PCs of a list of matches, in order (the `matchUpdate` calls they cause). */
  function IndexPcs(ms: seq<MatchPoint>): (r: seq<nat>)
    ensures |r| == |ms|
  {
    seq(|ms|, i requires 0 <= i < |ms| => ms[i].indexPc)
  }

  lemma AppendAssoc<T>(a: seq<T>, b: seq<T>, c: seq<T>)
    ensures a + b + c == a + (b + c)
  {
  }

  lemma IndexPcsAppend(a: seq<MatchPoint>, b: seq<MatchPoint>)
    ensures IndexPcs(a + b) == IndexPcs(a) + IndexPcs(b)
  {
    assert forall i :: 0 <= i < |a| + |b| ==> IndexPcs(a + b)[i] == (IndexPcs(a) + IndexPcs(b))[i];
  }

  /** Loop order of `diffMatching`: by entry, then start offset, then shift position. */
  predicate Before(a: MatchPoint, b: MatchPoint)
  {
    || a.entry < b.entry
    || (a.entry == b.entry && a.iStart < b.iStart)
    || (a.entry == b.entry && a.iStart == b.iStart && a.shiftIndex < b.shiftIndex)
  }

  predicate InLoopOrder(ms: seq<MatchPoint>)
  {
    forall i, j :: 0 <= i < j < |ms| ==> Before(ms[i], ms[j])
  }

  /** Concatenating two runs in loop order, every match of the first before every match of the second. */
  lemma InLoopOrderAppend(a: seq<MatchPoint>, b: seq<MatchPoint>)
    requires InLoopOrder(a) && InLoopOrder(b)
    requires forall x, y :: x in a && y in b ==> Before(x, y)
    ensures InLoopOrder(a + b)
  {
    var c := a + b;
    forall i, j | 0 <= i < j < |c|
      ensures Before(c[i], c[j])
    {
      if j < |a| {
        assert c[i] == a[i] && c[j] == a[j];
      } else if i >= |a| {
        assert c[i] == b[i - |a|] && c[j] == b[j - |a|];
      } else {
        assert c[i] in a && c[j] in b;
      }
    }
  }

  /**
   * What `diffMatching` sees of one index-table entry: its PC, its context,
   * whether it is valid and ready, and its window of deltas, oldest first.
   */
  datatype StreamView = StreamView(pc: nat, cID: int, eligible: bool, window: seq<int>)

  /**
   * m is a match of the target window `tgt` (context cID) against the index
   * entry seen as v: the entry is valid, ready and of the same context, the
   * target window fits at the start offset, and under the shift every target
   * delta equals the index delta at the same distance from the start offset.
   */
  predicate ViewMatch(v: StreamView, tgt: seq<int>, cID: int, shifts: seq<nat>, m: MatchPoint)
  {
    && v.eligible && v.cID == cID && v.pc == m.indexPc
    && m.iStart + |tgt| <= |v.window| && m.shiftIndex < |shifts|
    && Matches(v.window, tgt, m.iStart, shifts[m.shiftIndex])
  }

  /** m is a match against one of the index views. */
  predicate IsMatch(views: seq<StreamView>, tgt: seq<int>, cID: int, shifts: seq<nat>, m: MatchPoint)
  {
    m.entry < |views| && ViewMatch(views[m.entry], tgt, cID, shifts, m)
  }

  /** The match, if any, at one start offset under shift position s. */
  function ShiftMatch(w: seq<int>, tgt: seq<int>, entry: nat, pc: nat, iStart: nat, shifts: seq<nat>, s: nat): seq<MatchPoint>
    requires iStart + |tgt| <= |w| && s < |shifts|
  {
    if Matches(w, tgt, iStart, shifts[s]) then [MatchPoint(entry, pc, iStart, s)] else []
  }

  /** The matches at one start offset over the first n shift values, in the order they are tried. */
  function ShiftMatches(w: seq<int>, tgt: seq<int>, entry: nat, pc: nat, iStart: nat, shifts: seq<nat>, n: nat): seq<MatchPoint>
    requires iStart + |tgt| <= |w| && n <= |shifts|
  {
    if n == 0 then []
    else
      ShiftMatches(w, tgt, entry, pc, iStart, shifts, n - 1) + ShiftMatch(w, tgt, entry, pc, iStart, shifts, n - 1)
  }

  /** The matches of one index window over its first n start offsets. */
  function StartMatches(w: seq<int>, tgt: seq<int>, entry: nat, pc: nat, shifts: seq<nat>, n: nat): seq<MatchPoint>
    requires n > 0 ==> n - 1 + |tgt| <= |w|
  {
    if n == 0 then []
    else StartMatches(w, tgt, entry, pc, shifts, n - 1) + ShiftMatches(w, tgt, entry, pc, n - 1, shifts, |shifts|)
  }

  /** The start offsets `diffMatching` tries: those where the target window fits. */
  function Offsets(w: seq<int>, tgt: seq<int>): nat
  {
    if |tgt| <= |w| then |w| - |tgt| + 1 else 0
  }

  /** The matches of one index entry: none unless it is valid, ready and of the target's context. */
  function EntryMatches(v: StreamView, tgt: seq<int>, cID: int, entry: nat, shifts: seq<nat>): seq<MatchPoint>
  {
    if v.eligible && v.cID == cID then StartMatches(v.window, tgt, entry, v.pc, shifts, Offsets(v.window, tgt)) else []
  }

  /** The matches `diffMatching` reports over the first n index entries, in loop order. */
  function AllMatches(views: seq<StreamView>, tgt: seq<int>, cID: int, shifts: seq<nat>, n: nat): seq<MatchPoint>
    requires n <= |views|
  {
    if n == 0 then []
    else AllMatches(views, tgt, cID, shifts, n - 1) + EntryMatches(views[n - 1], tgt, cID, n - 1, shifts)
  }

  /** The shift loop reports exactly the shift positions under which the windows match, in order. */
  lemma {:induction false} ShiftMatchesSpec(w: seq<int>, tgt: seq<int>, entry: nat, pc: nat, iStart: nat, shifts: seq<nat>, n: nat)
    requires iStart + |tgt| <= |w| && n <= |shifts|
    ensures forall m :: m in ShiftMatches(w, tgt, entry, pc, iStart, shifts, n) <==>
              && m.entry == entry && m.indexPc == pc && m.iStart == iStart && m.shiftIndex < n
              && Matches(w, tgt, iStart, shifts[m.shiftIndex])
    ensures InLoopOrder(ShiftMatches(w, tgt, entry, pc, iStart, shifts, n))
  {
    if n > 0 {
      ShiftMatchesSpec(w, tgt, entry, pc, iStart, shifts, n - 1);
      var a := ShiftMatches(w, tgt, entry, pc, iStart, shifts, n - 1);
      var b := if Matches(w, tgt, iStart, shifts[n - 1]) then [MatchPoint(entry, pc, iStart, n - 1)] else [];
      InLoopOrderAppend(a, b);
    }
  }

  /** The offset loop reports exactly the (offset, shift) pairs under which the windows match, in order. */
  lemma {:induction false} StartMatchesSpec(w: seq<int>, tgt: seq<int>, entry: nat, pc: nat, shifts: seq<nat>, n: nat)
    requires n > 0 ==> n - 1 + |tgt| <= |w|
    ensures forall m :: m in StartMatches(w, tgt, entry, pc, shifts, n) <==>
              && m.entry == entry && m.indexPc == pc && m.iStart < n && m.shiftIndex < |shifts|
              && Matches(w, tgt, m.iStart, shifts[m.shiftIndex])
    ensures InLoopOrder(StartMatches(w, tgt, entry, pc, shifts, n))
  {
    if n > 0 {
      StartMatchesSpec(w, tgt, entry, pc, shifts, n - 1);
      ShiftMatchesSpec(w, tgt, entry, pc, n - 1, shifts, |shifts|);
      InLoopOrderAppend(StartMatches(w, tgt, entry, pc, shifts, n - 1), ShiftMatches(w, tgt, entry, pc, n - 1, shifts, |shifts|));
    }
  }

  /** The matches reported for one index entry are exactly its matches, in loop order. */
  lemma EntryMatchesSpec(v: StreamView, tgt: seq<int>, cID: int, entry: nat, shifts: seq<nat>)
    ensures forall m :: m in EntryMatches(v, tgt, cID, entry, shifts) <==> m.entry == entry && ViewMatch(v, tgt, cID, shifts, m)
    ensures InLoopOrder(EntryMatches(v, tgt, cID, entry, shifts))
  {
    if v.eligible && v.cID == cID {
      StartMatchesSpec(v.window, tgt, entry, v.pc, shifts, Offsets(v.window, tgt));
    }
  }

  /** The matches reported for one index entry are exactly its matches. */
  lemma EntryMatchesMembers(v: StreamView, tgt: seq<int>, cID: int, entry: nat, shifts: seq<nat>)
    ensures forall m :: m in EntryMatches(v, tgt, cID, entry, shifts) <==> m.entry == entry && ViewMatch(v, tgt, cID, shifts, m)
  {
    EntryMatchesSpec(v, tgt, cID, entry, shifts);
  }

  /**
   * `diffMatching` reports every match of the target window against the
   * index entries, each exactly where its loops reach it, and nothing else.
   */
  lemma {:induction false} AllMatchesSpec(views: seq<StreamView>, tgt: seq<int>, cID: int, shifts: seq<nat>, n: nat)
    requires n <= |views|
    ensures forall m :: m in AllMatches(views, tgt, cID, shifts, n) <==> m.entry < n && IsMatch(views, tgt, cID, shifts, m)
    ensures InLoopOrder(AllMatches(views, tgt, cID, shifts, n))
  {
    AllMatchesMembers(views, tgt, cID, shifts, n);
    AllMatchesOrder(views, tgt, cID, shifts, n);
  }

  lemma {:induction false} AllMatchesMembers(views: seq<StreamView>, tgt: seq<int>, cID: int, shifts: seq<nat>, n: nat)
    requires n <= |views|
    ensures forall m :: m in AllMatches(views, tgt, cID, shifts, n) <==> m.entry < n && IsMatch(views, tgt, cID, shifts, m)
  {
    if n > 0 {
      var a: seq<MatchPoint> := AllMatches(views, tgt, cID, shifts, n - 1);
      var e: seq<MatchPoint> := EntryMatches(views[n - 1], tgt, cID, n - 1, shifts);
      AllMatchesMembers(views, tgt, cID, shifts, n - 1);
      EntryMatchesMembers(views[n - 1], tgt, cID, n - 1, shifts);
      assert AllMatches(views, tgt, cID, shifts, n) == a + e;
      forall m: MatchPoint
        ensures m in a + e <==> m.entry < n && IsMatch(views, tgt, cID, shifts, m)
      {
        assert m in a + e <==> m in a || m in e;
      }
    }
  }

  lemma {:induction false} AllMatchesOrder(views: seq<StreamView>, tgt: seq<int>, cID: int, shifts: seq<nat>, n: nat)
    requires n <= |views|
    ensures InLoopOrder(AllMatches(views, tgt, cID, shifts, n))
  {
    if n > 0 {
      var a: seq<MatchPoint> := AllMatches(views, tgt, cID, shifts, n - 1);
      var e: seq<MatchPoint> := EntryMatches(views[n - 1], tgt, cID, n - 1, shifts);
      AllMatchesOrder(views, tgt, cID, shifts, n - 1);
      AllMatchesBelow(views, tgt, cID, shifts, n - 1);
      EntryMatchesAt(views[n - 1], tgt, cID, n - 1, shifts);
      OrderedAppend(a, e, n - 1);
    }
  }

  /** Every match over the first n entries comes from one of them. */
  lemma {:induction false} AllMatchesBelow(views: seq<StreamView>, tgt: seq<int>, cID: int, shifts: seq<nat>, n: nat)
    requires n <= |views|
    ensures forall i :: 0 <= i < |AllMatches(views, tgt, cID, shifts, n)| ==> AllMatches(views, tgt, cID, shifts, n)[i].entry < n
  {
    if n > 0 {
      var a: seq<MatchPoint> := AllMatches(views, tgt, cID, shifts, n - 1);
      var e: seq<MatchPoint> := EntryMatches(views[n - 1], tgt, cID, n - 1, shifts);
      AllMatchesBelow(views, tgt, cID, shifts, n - 1);
      EntryMatchesAt(views[n - 1], tgt, cID, n - 1, shifts);
      assert AllMatches(views, tgt, cID, shifts, n) == a + e;
      forall i | 0 <= i < |a + e|
        ensures (a + e)[i].entry < n
      {
        if i < |a| {
          assert (a + e)[i] == a[i];
        } else {
          assert (a + e)[i] == e[i - |a|];
        }
      }
    }
  }

  /** The matches of one entry all carry its index and come in loop order. */
  lemma EntryMatchesAt(v: StreamView, tgt: seq<int>, cID: int, entry: nat, shifts: seq<nat>)
    ensures forall i :: 0 <= i < |EntryMatches(v, tgt, cID, entry, shifts)| ==> EntryMatches(v, tgt, cID, entry, shifts)[i].entry == entry
    ensures InLoopOrder(EntryMatches(v, tgt, cID, entry, shifts))
  {
    var e := EntryMatches(v, tgt, cID, entry, shifts);
    EntryMatchesSpec(v, tgt, cID, entry, shifts);
    forall i | 0 <= i < |e|
      ensures e[i].entry == entry
    {
      assert e[i] in e;
    }
  }

  /** A run of entries below k followed by a run of entry k, each in loop order, is in loop order. */
  lemma OrderedAppend(a: seq<MatchPoint>, b: seq<MatchPoint>, k: nat)
    requires InLoopOrder(a) && InLoopOrder(b)
    requires forall i :: 0 <= i < |a| ==> a[i].entry < k
    requires forall i :: 0 <= i < |b| ==> b[i].entry == k
    ensures InLoopOrder(a + b)
  {
    forall x, y | x in a && y in b
      ensures Before(x, y)
    {
      var i :| 0 <= i < |a| && a[i] == x;
      var j :| 0 <= j < |b| && b[j] == y;
    }
    InLoopOrderAppend(a, b);
  }


  /** Sum of a sequence of deltas. */
  function Sum(s: seq<int>): int
  {
    if |s| == 0 then 0 else Sum(s[..|s| - 1]) + s[|s| - 1]
  }

  lemma SumSnoc(s: seq<int>, i: nat, j: nat)
    requires i <= j < |s|
    ensures Sum(s[i..j + 1]) == Sum(s[i..j]) + s[j]
  {
    assert s[i..j + 1][..j - i] == s[i..j];
  }

  /**
   * The index value as of the match point: the newest value minus the deltas
   * from the match point on, narrowed to the index data type (`int32_t`,
   * `bits == 32`).
   */
  function RecoveredIndex(last: int, window: seq<int>, matchPoint: nat, bits: nat): (r: int)
    requires matchPoint <= |window| && bits >= 1
    ensures -(Pow2(bits - 1) as int) <= r < Pow2(bits - 1)
  {
    Signed(last - Sum(window[matchPoint..]), bits)
  }

  /** The subtraction loop of `insertRT`: each delta in turn, narrowed after every step. */
  function SubtractEach(d: int, ds: seq<int>, bits: nat): int
    requires bits >= 1
  {
    if |ds| == 0 then d else Signed(SubtractEach(d, ds[..|ds| - 1], bits) - ds[|ds| - 1], bits)
  }

  lemma SubtractEachStep(d: int, w: seq<int>, lo: nat, hi: nat, bits: nat)
    requires lo <= hi < |w| && bits >= 1
    ensures SubtractEach(d, w[lo..hi + 1], bits) == Signed(SubtractEach(d, w[lo..hi], bits) - w[hi], bits)
  {
    var ds := w[lo..hi + 1];
    assert ds[..|ds| - 1] == w[lo..hi] && ds[|ds| - 1] == w[hi];
  }

  /** Narrowing after every step gives the same value as subtracting the total and narrowing once. */
  lemma {:induction false} SubtractEachWraps(d: int, ds: seq<int>, bits: nat)
    requires bits >= 1 && -(Pow2(bits - 1) as int) <= d < Pow2(bits - 1)
    ensures SubtractEach(d, ds, bits) == Signed(d - Sum(ds), bits)
  {
    if |ds| == 0 {
      SignedInRange(d, bits);
    } else {
      var p := ds[..|ds| - 1];
      var x := ds[|ds| - 1];
      assert Sum(ds) == Sum(p) + x;
      SubtractEachWraps(d, p, bits);
      WrapStep(SubtractEach(d, p, bits), d - Sum(p), x, d - Sum(ds), bits);
    }
  }

  /** One narrowed subtraction after a narrowed total is the narrowed new total. */
  lemma WrapStep(prev: int, a: int, x: int, total: int, bits: nat)
    requires bits >= 1 && prev == Signed(a, bits) && total == a - x
    ensures Signed(prev - x, bits) == Signed(total, bits)
  {
    SignedSubtract(a, x, bits);
  }

  /**
   * If `values` is the stream the deltas were taken from (no wrap-around),
   * subtracting the deltas after position `mp` from the newest value gives
   * back the value at `mp`.
   */
  lemma {:induction false} Telescope(values: seq<int>, deltas: seq<int>, mp: nat, e: nat)
    requires |values| == |deltas| + 1
    requires forall i :: 0 <= i < |deltas| ==> deltas[i] == values[i + 1] - values[i]
    requires mp <= e <= |deltas|
    ensures values[e] - Sum(deltas[mp..e]) == values[mp]
    decreases e
  {
    if e > mp {
      Telescope(values, deltas, mp, e - 1);
      SumSnoc(deltas, mp, e - 1);
    }
  }

  /**
   * `addr_match - (data_match << shift)`: the shift is done in the index data
   * type (`int32_t`, `ib == 32`), the subtraction in the target type (64 bits,
   * `ab == 64`).
   */
  function BaseAddress(addrMatch: int, dataMatch: int, shift: nat, ib: nat, ab: nat): (r: int)
    requires ib >= 1 && ab >= 1
    ensures -(Pow2(ab - 1) as int) <= r < Pow2(ab - 1)
  {
    Signed(addrMatch - Signed(dataMatch * Pow2(shift), ib), ab)
  }

  /**
   * The assertion in `insertRT` compares the base, as a `uint64_t`, with
   * `INT64_MAX` (`2^(ab-1) - 1`).
   */
  predicate BaseAccepted(base: int, ab: nat)
    requires ab >= 1
  {
    Unsigned(base, ab) < Pow2(ab - 1)
  }

  /** The assertion holds exactly when the signed base is not negative. */
  lemma BaseAcceptedIff(base: int, ab: nat)
    requires ab >= 1 && -(Pow2(ab - 1) as int) <= base < Pow2(ab - 1)
    ensures BaseAccepted(base, ab) <==> base >= 0
  {
    assert Pow2(ab) == 2 * Pow2(ab - 1);
    if base >= 0 {
      DivModUnique(base, Pow2(ab), 0, base);
    } else {
      DivModUnique(base, Pow2(ab), -1, base + Pow2(ab));
    }
  }

  /** The generator's address before block alignment: `(v << shift) + base` in `uint64_t` (`ab == 64`). */
  function RawAddress(v: nat, shift: nat, base: nat, ab: nat): (r: nat)
    ensures r < Pow2(ab)
  {
    Unsigned(v * Pow2(shift) + base, ab)
  }

  /**
   * The generator inverts the base computation: fed the index value of the
   * match point, it reproduces the target address seen there, provided
   * nothing wrapped.
   */
  lemma ReconstructsMatchedAddress(addrMatch: nat, dataMatch: nat, shift: nat, ib: nat, ab: nat)
    requires 1 <= ib <= ab
    requires addrMatch < Pow2(ab - 1)
    requires dataMatch * Pow2(shift) < Pow2(ib - 1)
    requires BaseAddress(addrMatch, dataMatch, shift, ib, ab) >= 0
    ensures RawAddress(dataMatch, shift, BaseAddress(addrMatch, dataMatch, shift, ib, ab), ab) == addrMatch
  {
    var x := dataMatch * Pow2(shift);
    NonNegProduct(dataMatch, Pow2(shift));
    Pow2Monotone(ib - 1, ab - 1);
    SignedInRange(x, ib);
    SignedInRange(addrMatch - x, ab);
    DivModUnique(addrMatch, Pow2(ab), 0, addrMatch);
  }

  /**
   * Index values 10, 11, 12, 13 and target addresses 1000, 1004, 1008, 1012
   * (three deltas each) match at offset 0 under shift 2; the match point is
   * the end of the index window, so the recovered index is 13 and the base
   * is 1012 - (13 << 2) = 960, from which the generator predicts 1012 again.
   */
  lemma ScenarioRoundTrip()
    ensures RawAddress(13, 2, 960, 64) == 1012
  {
    ScenarioBase();
    Pow2Values();
    ReconstructsMatchedAddress(1012, 13, 2, 32, 64);
  }

  lemma ScenarioMatch()
    ensures Matches([1, 1, 1], [4, 4, 4], 0, 2)
  {
    assert Pow2(2) == 4;
    assert ShiftRight(4, 2) == 1;
  }

  lemma ScenarioRecovered()
    ensures RecoveredIndex(13, [1, 1, 1], 3, 32) == 13
  {
    Pow2Values();
    assert [1, 1, 1][3..] == [];
    SignedInRange(13, 32);
  }

  lemma ScenarioBase()
    ensures BaseAddress(1012, 13, 2, 32, 64) == 960 && BaseAccepted(960, 64) && 13 * Pow2(2) == 52
  {
    Pow2Values();
    assert Pow2(2) == 4;
    SignedInRange(52, 32);
    assert Pow2(64) == 2 * Pow2(63);
    SignedInRange(960, 64);
    BaseAcceptedIff(960, 64);
  }

  /** Little-endian value of a byte string. */
  function LittleEndian(b: seq<Byte>): (r: nat)
  {
    if |b| == 0 then 0 else b[0] + 256 * LittleEndian(b[1..])
  }

  lemma {:induction false} LittleEndianBound(b: seq<Byte>)
    ensures LittleEndian(b) < Pow2(8 * |b|)
  {
    if |b| > 0 {
      LittleEndianBound(b[1..]);
      Pow2Byte(|b| - 1);
      assert 8 * |b| == 8 * (|b| - 1) + 8;
    }
  }

  /**
   * The byte loop of `notifyL1Resp` and `notifyFill`: four bytes from `off`,
   * most significant first, shifted in one byte at a time.
   */
  method DecodeLE32(data: seq<Byte>, off: nat) returns (v: nat)
    requires off + 4 <= |data|
    ensures v == LittleEndian(data[off..off + 4])
    ensures v < U32
  {
    v := 0;
    var i := 4;
    while i > 0
      invariant 0 <= i <= 4
      invariant v == LittleEndian(data[off + i..off + 4])
    {
      i := i - 1;
      assert data[off + i..off + 4][1..] == data[off + i + 1..off + 4];
      v := v * 256 + data[off + i];
    }
    LittleEndianBound(data[off..off + 4]);
    Pow2Values();
  }

  /**
   * The word `notifyL1Resp` reads, as written: the buffer is sized to the
   * packet, but the loop always reads its bytes 0..3. A packet shorter than
   * four bytes contributes its own bytes, and the rest are whatever follows
   * the buffer (`beyond`).
   */
  function ResponseWordAsWritten(data: seq<Byte>, beyond: seq<Byte>): (r: nat)
    requires |data| + |beyond| >= 4
    ensures r < U32
  {
    LittleEndianBound((data + beyond)[..4]);
    Pow2Values();
    LittleEndian((data + beyond)[..4])
  }

  /**
   * A one-byte response carrying 7 is read as 7 only when the three bytes
   * after the buffer happen to be zero: with 1, 0, 0 there it becomes 263.
   */
  lemma ResponseWordOverreads()
    ensures ResponseWordAsWritten([7], [1, 0, 0]) == 263
    ensures ResponseWordAsWritten([7], [0, 0, 0]) == 7
    ensures ResponseWord([7]) == 7
  {
    var hi: seq<Byte> := [1, 0, 0];
    var zs: seq<Byte> := [0, 0, 0];
    assert ([7] + hi)[..4] == [7] + hi;
    assert ([7] + zs)[..4] == [7] + zs;
    assert ([7] + hi)[1..] == hi && hi[1..] == zs[1..] && zs[1..][1..] == [0] && [0][1..] == [];
    assert ([7] + zs)[1..] == zs;
    assert LittleEndian(zs) == 0;
    assert LittleEndian(hi) == 1 + 256 * LittleEndian(zs[1..]);
    assert LittleEndian([7] + hi) == 263;
    assert [7][..Min(1, 4)] == [7];
  }

  /** The word of a response read from the packet's own bytes only: at most four, the missing high bytes zero. */
  function ResponseWord(data: seq<Byte>): (r: nat)
    ensures r < U32
  {
    var n := Min(|data|, 4);
    LittleEndianZeroExtend(data[..n], 4 - n);
    LittleEndianBound(data[..n] + ZeroBytes(4 - n));
    Pow2Values();
    LittleEndian(data[..n])
  }

  /** `n` zero bytes. */
  function ZeroBytes(n: nat): (r: seq<Byte>)
    ensures |r| == n && forall i :: 0 <= i < n ==> r[i] == 0
  {
    seq(n, _ => 0)
  }

  /** Zero bytes appended at the high end do not change a little-endian value. */
  lemma {:induction false} LittleEndianZeroExtend(b: seq<Byte>, n: nat)
    ensures LittleEndian(b + ZeroBytes(n)) == LittleEndian(b)
    decreases |b| + n
  {
    if |b| > 0 {
      assert (b + ZeroBytes(n))[1..] == b[1..] + ZeroBytes(n);
      LittleEndianZeroExtend(b[1..], n);
    } else if n > 0 {
      assert (b + ZeroBytes(n))[1..] == [] + ZeroBytes(n - 1);
      LittleEndianZeroExtend(b, n - 1);
    }
  }

  /**
   * The corrected read agrees with the source wherever the source reads
   * inside the packet (a packet of at least four bytes, whatever follows
   * it), and it is the source's read with zero bytes after the buffer.
   */
  lemma ResponseWordCorrects(data: seq<Byte>, beyond: seq<Byte>)
    ensures |data| >= 4 && |data| + |beyond| >= 4 ==> ResponseWordAsWritten(data, beyond) == ResponseWord(data)
    ensures ResponseWordAsWritten(data, ZeroBytes(4)) == ResponseWord(data)
  {
    if |data| >= 4 {
      assert (data + beyond)[..4] == data[..4];
      assert (data + ZeroBytes(4))[..4] == data[..4];
    } else {
      assert (data + ZeroBytes(4))[..4] == data + ZeroBytes(4 - |data|);
      assert data[..Min(|data|, 4)] == data;
      LittleEndianZeroExtend(data, 4 - |data|);
    }
  }

  /** The corrected byte loop: the packet's bytes, followed by zeros, go through the source's loop. */
  method DecodeResponse(data: seq<Byte>) returns (v: nat)
    ensures v == ResponseWord(data)
  {
    var n := Min(|data|, 4);
    var word := data[..n] + ZeroBytes(4 - n);
    v := DecodeLE32(word, 0);
    assert word[0..4] == word;
    LittleEndianZeroExtend(data[..n], 4 - n);
  }

  /** A relation-table entry (`RelationTableEntry` in diff_matching.hh, plus its `valid` flag). */
  datatype RTEntry = RTEntry(
    indexPc: nat,
    targetPc: nat,
    targetBase: nat,
    shift: nat,
    range: bool,
    rangeDegree: nat,
    cID: int,
    valid: bool)

  /** A prefetch candidate: the block address, the PC it is issued for, and the context. */
  datatype Candidate = Candidate(addr: nat, pc: nat, cID: int)

  /** `range_end`: one word, or up to `range_degree` words clipped at the block end. */
  function RangeEnd(off: nat, range: bool, degree: nat, blkSize: nat): nat
  {
    if range then Min(off + 4 * degree, blkSize) else off + 4
  }

  /** The offsets the source's loop visits: from `off` in steps of 4 while below `end`. */
  function WalkAsWritten(i: nat, end: nat): (r: seq<nat>)
    ensures forall k :: 0 <= k < |r| ==> r[k] == i + 4 * k && r[k] < end
    decreases end - i
  {
    if i < end then [i] + WalkAsWritten(i + 4, end) else []
  }

  /**
   * The loop visits an offset whose word extends past the block: with a
   * 64-byte block, a single-word entry filled at offset 62 reads bytes
   * 62..65, and a range entry filled at offset 61 (its end clipped to 64)
   * reads bytes 61..64. The walk over whole words visits neither.
   */
  lemma WalkAsWrittenOverruns()
    ensures WalkAsWritten(62, RangeEnd(62, false, 0, 64)) == [62] && 62 + 4 > 64
    ensures WalkAsWritten(61, RangeEnd(61, true, 1, 64)) == [61] && 61 + 4 > 64
    ensures Walk(62, 64) == [] && Walk(61, 64) == []
  {
    assert WalkAsWritten(66, 66) == [];
    assert WalkAsWritten(65, 64) == [];
  }

  /** The offsets of whole words between `i` and `end` (both clipped to the block). */
  function Walk(i: nat, end: nat): (r: seq<nat>)
    ensures forall k :: 0 <= k < |r| ==> i <= r[k] && r[k] + 4 <= end
    decreases end - i
  {
    if i + 4 <= end then [i] + Walk(i + 4, end) else []
  }

  /** For word-aligned offsets in a block whose size is a multiple of 4, both walks visit the same offsets. */
  lemma {:induction false} WalksAgreeWhenAligned(i: nat, end: nat)
    requires i % 4 == 0 && end % 4 == 0
    ensures WalkAsWritten(i, end) == Walk(i, end)
    decreases end - i
  {
    if i < end {
      assert i + 4 <= end by {
        DivModUnique(i, 4, i / 4, 0);
        DivModUnique(end, 4, end / 4, 0);
        assert i / 4 < end / 4;
      }
      DivModUnique(i + 4, 4, i / 4 + 1, 0);
      WalksAgreeWhenAligned(i + 4, end);
    }
  }

  /** The number of words a range entry reads: `range_degree`, or fewer at the block end. */
  lemma {:induction false} WalkLength(i: nat, n: nat, end: nat)
    requires i + 4 * n <= end
    ensures |Walk(i, end)| >= n
    decreases end - i
  {
    if n > 0 {
      WalkLength(i + 4, n - 1, end);
    }
  }

  /** The candidate for the word at offset i of the block. */
  function WordCandidate(e: RTEntry, data: seq<Byte>, i: nat, lBlkSize: nat): (c: Candidate)
    requires i + 4 <= |data|
  {
    Candidate(BlockAddress(RawAddress(LittleEndian(data[i..i + 4]), e.shift, e.targetBase, 64), lBlkSize), e.targetPc, e.cID)
  }

  /** A word's candidate is a block-aligned 64-bit address. */
  lemma WordCandidateAligned(e: RTEntry, data: seq<Byte>, i: nat, lBlkSize: nat)
    requires i + 4 <= |data|
    ensures WordCandidate(e, data, i, lBlkSize).addr % Pow2(lBlkSize) == 0
    ensures WordCandidate(e, data, i, lBlkSize).addr < U64
  {
    Pow2Values();
  }

  /** The candidates one entry generates from offset i up to `end`. */
  function WordCandidates(e: RTEntry, data: seq<Byte>, i: nat, end: nat, lBlkSize: nat): seq<Candidate>
    requires end <= |data|
    decreases end - i
  {
    if i + 4 <= end then [WordCandidate(e, data, i, lBlkSize)] + WordCandidates(e, data, i + 4, end, lBlkSize)
    else []
  }

  /** An entry's candidates are, one for one, the candidates of the words of its walk. */
  lemma {:induction false} WordCandidatesWalk(e: RTEntry, data: seq<Byte>, i: nat, end: nat, lBlkSize: nat)
    requires end <= |data|
    ensures var r := WordCandidates(e, data, i, end, lBlkSize);
            |r| == |Walk(i, end)| && forall k :: 0 <= k < |r| ==> r[k] == WordCandidate(e, data, Walk(i, end)[k], lBlkSize)
    decreases end - i
  {
    if i + 4 <= end {
      WordCandidatesWalk(e, data, i + 4, end, lBlkSize);
    }
  }

  /** The word walk of one entry, clipped to the block. */
  function EntryEnd(e: RTEntry, off: nat, lBlkSize: nat): nat
  {
    Min(RangeEnd(off, e.range, e.rangeDegree, Pow2(lBlkSize)), Pow2(lBlkSize))
  }

  /** Whether an entry reacts to a fill by `pc`. */
  predicate Triggered(e: RTEntry, pc: nat)
  {
    e.valid && e.indexPc == pc
  }

  /**
   * All candidates of a fill by `pc` at block offset `off`, in table order:
   * for each valid entry indexed by `pc`, the candidates of its words.
   */
  function FillCandidates(rt: seq<RTEntry>, pc: nat, off: nat, data: seq<Byte>, lBlkSize: nat): (r: seq<Candidate>)
    requires |data| == Pow2(lBlkSize)
  {
    if |rt| == 0 then []
    else
      var e := rt[|rt| - 1];
      FillCandidates(rt[..|rt| - 1], pc, off, data, lBlkSize)
        + (if Triggered(e, pc) then WordCandidates(e, data, off, EntryEnd(e, off, lBlkSize), lBlkSize) else [])
  }

  /**
   * The `fill_data` buffer of `notifyFill`: `blkSize` bytes, of which
   * `writeData` sets the first `getSize()` to the packet's bytes; the others
   * keep whatever the stack held, given here as `stale`.
   */
  function FillBuffer(pkt: seq<Byte>, stale: seq<Byte>): (r: seq<Byte>)
    requires |pkt| <= |stale|
    ensures |r| == |stale|
    ensures forall i :: 0 <= i < |pkt| ==> r[i] == pkt[i]
    ensures forall i :: |pkt| <= i < |stale| ==> r[i] == stale[i]
  {
    pkt + stale[|pkt|..]
  }

  /** A packet that fills the whole block leaves no stale byte: the buffer is the packet. */
  lemma FillBufferFull(pkt: seq<Byte>, stale: seq<Byte>)
    requires |pkt| == |stale|
    ensures FillBuffer(pkt, stale) == pkt
  {
    assert stale[|pkt|..] == [];
  }

  /** One entry's candidates read only the bytes from offset i on. */
  lemma {:induction false} WordCandidatesFrom(e: RTEntry, a: seq<Byte>, b: seq<Byte>, i: nat, end: nat, lBlkSize: nat)
    requires end <= |a| == |b| && i <= |a|
    requires a[i..] == b[i..]
    ensures WordCandidates(e, a, i, end, lBlkSize) == WordCandidates(e, b, i, end, lBlkSize)
    decreases end - i
  {
    if i + 4 <= end {
      assert a[i..i + 4] == a[i..][..4] == b[i..][..4] == b[i..i + 4];
      assert a[i + 4..] == a[i..][4..] == b[i..][4..] == b[i + 4..];
      WordCandidatesFrom(e, a, b, i + 4, end, lBlkSize);
    }
  }

  /** The candidates of a fill at block offset `off` read only the bytes from `off` on. */
  lemma {:induction false} FillCandidatesFrom(rt: seq<RTEntry>, pc: nat, off: nat, a: seq<Byte>, b: seq<Byte>, lBlkSize: nat)
    requires |a| == |b| == Pow2(lBlkSize) && off <= |a|
    requires a[off..] == b[off..]
    ensures FillCandidates(rt, pc, off, a, lBlkSize) == FillCandidates(rt, pc, off, b, lBlkSize)
  {
    if |rt| > 0 {
      var e := rt[|rt| - 1];
      FillCandidatesFrom(rt[..|rt| - 1], pc, off, a, b, lBlkSize);
      WordCandidatesFrom(e, a, b, off, EntryEnd(e, off, lBlkSize), lBlkSize);
    }
  }

  /**
   * A hit packet shorter than its block offset plays no part: `writeData`
   * fills the buffer from byte 0 while the decode starts at
   * `paddr & (blkSize-1)`, so two packets of the same size give the same
   * candidates, read from the stale bytes alone.
   */
  lemma SubBlockHitIgnoresPacket(rt: seq<RTEntry>, pc: nat, off: nat, p: seq<Byte>, q: seq<Byte>, stale: seq<Byte>, lBlkSize: nat)
    requires |stale| == Pow2(lBlkSize) && |p| == |q| <= off <= |stale|
    ensures FillCandidates(rt, pc, off, FillBuffer(p, stale), lBlkSize) == FillCandidates(rt, pc, off, FillBuffer(q, stale), lBlkSize)
  {
    assert FillBuffer(p, stale)[off..] == stale[off..] == FillBuffer(q, stale)[off..];
    FillCandidatesFrom(rt, pc, off, FillBuffer(p, stale), FillBuffer(q, stale), lBlkSize);
  }

  /** The candidate comes from some word of the block through entry e. */
  ghost predicate FromEntry(c: Candidate, e: RTEntry, data: seq<Byte>, lBlkSize: nat)
  {
    exists i: nat :: i + 4 <= |data| && c == WordCandidate(e, data, i, lBlkSize)
  }

  /**
   * Every candidate comes from a valid entry indexed by the filling PC: it is
   * issued for that entry's target PC in its context, at the block of
   * `(v << shift) + base` for a word v of the block; so it is block-aligned
   * and a 64-bit address.
   */
  lemma {:induction false} FillCandidatesSound(rt: seq<RTEntry>, pc: nat, off: nat, data: seq<Byte>, lBlkSize: nat)
    requires |data| == Pow2(lBlkSize)
    ensures forall c :: c in FillCandidates(rt, pc, off, data, lBlkSize) ==>
              && c.addr % Pow2(lBlkSize) == 0
              && c.addr < U64
              && exists j :: 0 <= j < |rt| && Triggered(rt[j], pc) && c.pc == rt[j].targetPc
                   && c.cID == rt[j].cID && FromEntry(c, rt[j], data, lBlkSize)
  {
    if |rt| > 0 {
      var n := |rt| - 1;
      var e := rt[n];
      FillCandidatesSound(rt[..n], pc, off, data, lBlkSize);
      var tail := if Triggered(e, pc) then WordCandidates(e, data, off, EntryEnd(e, off, lBlkSize), lBlkSize) else [];
      assert FillCandidates(rt, pc, off, data, lBlkSize) == FillCandidates(rt[..n], pc, off, data, lBlkSize) + tail;
      forall c | c in FillCandidates(rt, pc, off, data, lBlkSize)
        ensures && c.addr % Pow2(lBlkSize) == 0
                && c.addr < U64
                && exists j :: 0 <= j < |rt| && Triggered(rt[j], pc) && c.pc == rt[j].targetPc
                     && c.cID == rt[j].cID && FromEntry(c, rt[j], data, lBlkSize)
      {
        if c in FillCandidates(rt[..n], pc, off, data, lBlkSize) {
          var j :| 0 <= j < n && Triggered(rt[..n][j], pc) && c.pc == rt[..n][j].targetPc
                     && c.cID == rt[..n][j].cID && FromEntry(c, rt[..n][j], data, lBlkSize);
          assert rt[..n][j] == rt[j];
        } else {
          assert c in tail;
          var k :| 0 <= k < |tail| && tail[k] == c;
          WordCandidatesWalk(e, data, off, EntryEnd(e, off, lBlkSize), lBlkSize);
          var i := Walk(off, EntryEnd(e, off, lBlkSize))[k];
          assert c == WordCandidate(e, data, i, lBlkSize);
          WordCandidateAligned(e, data, i, lBlkSize);
          assert FromEntry(c, rt[n], data, lBlkSize);
        }
      }
    }
  }
}
