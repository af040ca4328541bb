/**
 * The experiment scripts' `gen_field_record` (exp_scripts/extract_data.py):
 * from an ordered list of fields, each a name and a list of values, build
 * one record per combination of values, every value turned into its
 * string form. Records are Python dicts here modelled as maps from field
 * name to string; the field list is the insertion order of the input dict.
 */
module FieldRecords {
  /** The values a field lists, of the kinds modelled: strings are kept, ints and bools go through `str`. */
  datatype FieldValue = Str(s: string) | Int(n: int) | Bool(b: bool)

  type Record = map<string, string>

  /** One `(name, values)` item of `field_values`. */
  type Field = (string, seq<FieldValue>)

  /* ---------- `str` on the non-string values ---------- */

  function Digit(d: int): char
    requires 0 <= d < 10
  {
    (48 + d) as char
  }

  /** The decimal digits of n, most significant first, as `str` writes them. */
  function Digits(n: nat): (s: string)
    ensures |s| > 0 && forall i :: 0 <= i < |s| ==> '0' <= s[i] <= '9'
  {
    if n < 10 then [Digit(n)] else Digits(n / 10) + [Digit(n % 10)]
  }

  function ParseDigits(s: string): int
  {
    if |s| == 0 then 0 else ParseDigits(s[..|s| - 1]) * 10 + (s[|s| - 1] as int - 48)
  }

  lemma {:induction false} DigitsRoundTrip(n: nat)
    ensures ParseDigits(Digits(n)) == n
  {
    if n >= 10 {
      DigitsRoundTrip(n / 10);
      var s := Digits(n);
      assert s[..|s| - 1] == Digits(n / 10);
    }
  }

  /** `str(n)` for an int: a minus sign before the digits of a negative n. */
  function Decimal(n: int): (s: string)
    ensures |s| > 0
  {
    if n < 0 then "-" + Digits(-n) else Digits(n)
  }

  /** `int(s)` on what `Decimal` writes. */
  function ParseDecimal(s: string): int
  {
    if |s| > 0 && s[0] == '-' then -ParseDigits(s[1..]) else ParseDigits(s)
  }

  lemma DecimalRoundTrip(n: int)
    ensures ParseDecimal(Decimal(n)) == n
  {
    if n < 0 {
      DigitsRoundTrip(-n);
      assert Decimal(n)[1..] == Digits(-n);
    } else {
      DigitsRoundTrip(n);
    }
  }

  /** The string a value is stored as. */
  function Text(v: FieldValue): string
  {
    match v
    case Str(s) => s
    case Int(n) => Decimal(n)
    case Bool(b) => if b then "True" else "False"
  }

  /**
   * A string is stored unchanged, an int as a decimal form that `int`
   * reads back, a bool as `True` or `False`.
   */
  lemma TextForm(v: FieldValue)
    ensures v.Str? ==> Text(v) == v.s
    ensures v.Int? ==> ParseDecimal(Text(v)) == v.n
    ensures v.Bool? ==> Text(v) == "True" || Text(v) == "False"
  {
    if v.Int? {
      DecimalRoundTrip(v.n);
    }
  }

  /* ---------- The records, as values ---------- */

  /** A copy of every record of pre with name set to value, in pre's order. */
  function Extend(pre: seq<Record>, name: string, value: string): (out: seq<Record>)
    ensures |out| == |pre|
    ensures forall k :: 0 <= k < |pre| ==> out[k] == pre[k][name := value]
  {
    if |pre| == 0 then [] else Extend(pre[..|pre| - 1], name, value) + [pre[|pre| - 1][name := value]]
  }

  /** What one value of a field appends: a fresh one-key record, or a copy of every earlier record. */
  function Spread(pre: seq<Record>, name: string, value: string): (out: seq<Record>)
    ensures |out| > 0
  {
    if |pre| == 0 then [map[name := value]] else Extend(pre, name, value)
  }

  /** `cur_record_list` after the value loop of a field: one `Spread` per value, in order. */
  function Step(pre: seq<Record>, name: string, values: seq<FieldValue>): (out: seq<Record>)
    ensures |out| == 0 <==> |values| == 0
  {
    if |values| == 0 then []
    else Step(pre, name, values[..|values| - 1]) + Spread(pre, name, Text(values[|values| - 1]))
  }

  /** `pre_record_list` after the first n fields. */
  function Records(fields: seq<Field>, n: nat): seq<Record>
    requires n <= |fields|
  {
    if n == 0 then [] else Step(Records(fields, n - 1), fields[n - 1].0, fields[n - 1].1)
  }

  /* ---------- The function ---------- */

  /**
   * For each field in order, and each of its values, append a record to
   * `cur_record_list` (a fresh one when there are no earlier records, else
   * a copy of each earlier record with the field set), then make that list
   * the earlier records.
   */
  method GenFieldRecord(fields: seq<Field>) returns (records: seq<Record>)
    ensures records == Records(fields, |fields|)
    ensures |fields| == 0 ==> records == []
    ensures (0 < |fields| && forall i :: 0 <= i < |fields| ==> |fields[i].1| > 0) ==>
              |records| == Product(fields, |fields|)
  {
    var pre: seq<Record> := [];
    for i := 0 to |fields|
      invariant pre == Records(fields, i)
    {
      pre := FieldStep(pre, fields[i].0, fields[i].1);
    }
    records := pre;
    if 0 < |fields| && forall i :: 0 <= i < |fields| ==> |fields[i].1| > 0 {
      RecordCount(fields, |fields|);
    }
  }

  /** The value loop of one field, from an empty `cur_record_list`. */
  method FieldStep(pre: seq<Record>, name: string, values: seq<FieldValue>) returns (cur: seq<Record>)
    ensures cur == Step(pre, name, values)
  {
    cur := [];
    for j := 0 to |values|
      invariant cur == Step(pre, name, values[..j])
    {
      var value := Text(values[j]);
      cur := AddValue(cur, pre, name, value);
      assert values[..j + 1][..j] == values[..j];
    }
    assert values[..|values|] == values;
  }

  /** The body of the value loop: append the records one value contributes. */
  method AddValue(cur: seq<Record>, pre: seq<Record>, name: string, value: string) returns (out: seq<Record>)
    ensures out == cur + Spread(pre, name, value)
  {
    out := cur;
    if |pre| == 0 {
      out := out + [map[name := value]];
    } else {
      for k := 0 to |pre|
        invariant out == cur + Extend(pre[..k], name, value)
      {
        var record := pre[k][name := value];
        out := out + [record];
        assert pre[..k + 1][..k] == pre[..k];
      }
      assert pre[..|pre|] == pre;
    }
  }

  /* ---------- What the records are ---------- */

  lemma {:induction false} ExtendAt(pre: seq<Record>, name: string, value: string, k: int)
    requires 0 <= k < |pre|
    ensures Extend(pre, name, value)[k] == pre[k][name := value]
  {
    if k < |pre| - 1 {
      ExtendAt(pre[..|pre| - 1], name, value, k);
    }
  }

  /** j blocks of w records each: j * w, counted by repeated addition. */
  function Blocks(j: nat, w: nat): nat
  {
    if j == 0 then 0 else Blocks(j - 1, w) + w
  }

  lemma {:induction false} BlocksProduct(j: nat, w: nat)
    ensures Blocks(j, w) == j * w
  {
    if j > 0 {
      BlocksProduct(j - 1, w);
      MulSucc(j - 1, w);
    }
  }

  lemma MulSucc(m: int, w: int)
    ensures m * w + w == (m + 1) * w
  {
  }

  lemma {:induction false} BlocksBelow(j: nat, k: int, m: nat, w: nat)
    requires j < m && 0 <= k < w
    ensures Blocks(j, w) + k < Blocks(m, w)
  {
    if j < m - 1 {
      BlocksBelow(j, k, m - 1, w);
    }
  }

  /** Each value of the field contributes one block of max(|pre|, 1) records. */
  lemma {:induction false} StepLength(pre: seq<Record>, name: string, values: seq<FieldValue>)
    ensures |Step(pre, name, values)| == Blocks(|values|, if |pre| == 0 then 1 else |pre|)
  {
    if |values| > 0 {
      StepLength(pre, name, values[..|values| - 1]);
    }
  }

  /**
   * The newest field varies slowest: value j of the field, combined with
   * earlier record k, sits at j * |pre| + k (`Blocks(j, |pre|) + k`), and is a
   * copy of that record with only the field set.
   */
  lemma {:induction false} StepOrder(pre: seq<Record>, name: string, values: seq<FieldValue>, j: int, k: int)
    requires 0 <= j < |values| && 0 <= k < |pre|
    ensures Blocks(j, |pre|) + k < |Step(pre, name, values)|
    ensures Step(pre, name, values)[Blocks(j, |pre|) + k] == pre[k][name := Text(values[j])]
  {
    var m := |values| - 1;
    StepLength(pre, name, values[..m]);
    if j == m {
      ExtendAt(pre, name, Text(values[m]), k);
    } else {
      BlocksBelow(j, k, m, |pre|);
      StepOrder(pre, name, values[..m], j, k);
      assert values[..m][j] == values[j];
    }
  }

  /** A copy with a new field set gives back the earlier record once that field is removed. */
  lemma CopyKeepsRecord(r: Record, name: string, value: string)
    requires name !in r
    ensures r[name := value] - {name} == r
  {
  }

  /** With no earlier records, each value of the field makes one record. */
  lemma {:induction false} FreshLength(name: string, values: seq<FieldValue>)
    ensures |Step([], name, values)| == |values|
  {
    if |values| > 0 {
      FreshLength(name, values[..|values| - 1]);
    }
  }

  /** With no earlier records, value j of the field is record j, holding that field alone. */
  lemma {:induction false} StepFresh(name: string, values: seq<FieldValue>, j: int)
    requires 0 <= j < |values|
    ensures |Step([], name, values)| == |values|
    ensures Step([], name, values)[j] == map[name := Text(values[j])]
  {
    var m := |values| - 1;
    var init := values[..m];
    FreshLength(name, values);
    FreshLength(name, init);
    assert Step([], name, values) == Step([], name, init) + [map[name := Text(values[m])]];
    if j < m {
      StepFresh(name, init, j);
      assert init[j] == values[j];
    }
  }

  /** Π of the value-list lengths of the first n fields. */
  function Product(fields: seq<Field>, n: nat): nat
    requires n <= |fields|
  {
    if n == 0 then 1 else |fields[n - 1].1| * Product(fields, n - 1)
  }

  /** With every value list non-empty, there are Π len(values) records. */
  lemma {:induction false} RecordCount(fields: seq<Field>, n: nat)
    requires 0 < n <= |fields| && forall i :: 0 <= i < n ==> |fields[i].1| > 0
    ensures Product(fields, n) > 0
    ensures |Records(fields, n)| == Product(fields, n)
  {
    var pre := Records(fields, n - 1);
    StepLength(pre, fields[n - 1].0, fields[n - 1].1);
    if n > 1 {
      RecordCount(fields, n - 1);
    }
    BlocksProduct(|fields[n - 1].1|, Product(fields, n - 1));
    MulPositive(|fields[n - 1].1|, Product(fields, n - 1));
  }

  lemma MulPositive(a: int, b: int)
    requires 0 < a && 0 < b
    ensures 0 < a * b
  {
  }

  /** The names of fields lo .. hi - 1. */
  function Names(fields: seq<Field>, lo: nat, hi: nat): set<string>
    requires lo <= hi <= |fields|
  {
    if lo == hi then {} else Names(fields, lo, hi - 1) + {fields[hi - 1].0}
  }

  /** The first field after the last one (below n) with no values: the records start afresh there. */
  function Start(fields: seq<Field>, n: nat): (s: nat)
    requires n <= |fields|
    ensures s <= n
    ensures s == n <==> n == 0 || |fields[n - 1].1| == 0
  {
    if n == 0 then 0 else if |fields[n - 1].1| == 0 then n else Start(fields, n - 1)
  }

  /** Every record of rs has exactly the given keys. */
  ghost predicate KeysAre(rs: seq<Record>, keys: set<string>)
  {
    forall t :: 0 <= t < |rs| ==> rs[t].Keys == keys
  }

  lemma ConcatKeys(a: seq<Record>, b: seq<Record>, keys: set<string>)
    requires KeysAre(a, keys) && KeysAre(b, keys)
    ensures KeysAre(a + b, keys)
  {
    forall t | 0 <= t < |a + b|
      ensures (a + b)[t].Keys == keys
    {
      if t >= |a| {
        assert (a + b)[t] == b[t - |a|];
      }
    }
  }

  lemma ExtendKeys(pre: seq<Record>, name: string, value: string, keys: set<string>)
    requires KeysAre(pre, keys)
    ensures KeysAre(Extend(pre, name, value), keys + {name})
  {
    forall t | 0 <= t < |pre|
      ensures Extend(pre, name, value)[t].Keys == keys + {name}
    {
      ExtendAt(pre, name, value, t);
    }
  }

  lemma {:induction false} StepKeys(pre: seq<Record>, name: string, values: seq<FieldValue>, keys: set<string>)
    requires KeysAre(pre, keys)
    ensures KeysAre(Step(pre, name, values), if |pre| == 0 then {name} else keys + {name})
  {
    if |values| > 0 {
      var m := |values| - 1;
      StepKeys(pre, name, values[..m], keys);
      if |pre| > 0 {
        ExtendKeys(pre, name, Text(values[m]), keys);
      }
      ConcatKeys(Step(pre, name, values[..m]), Spread(pre, name, Text(values[m])),
                 if |pre| == 0 then {name} else keys + {name});
    }
  }

  /** The records of the first n fields have the keys of fields lo .. n - 1, when those of the first n - 1 have those of lo .. n - 2. */
  lemma FieldKeys(fields: seq<Field>, lo: nat, n: nat)
    requires 0 < n <= |fields| && lo < n
    requires |Records(fields, n - 1)| == 0 ==> lo == n - 1
    requires KeysAre(Records(fields, n - 1), Names(fields, lo, n - 1))
    ensures KeysAre(Records(fields, n), Names(fields, lo, n))
  {
    StepKeys(Records(fields, n - 1), fields[n - 1].0, fields[n - 1].1, Names(fields, lo, n - 1));
  }

  /** Every record has exactly the keys of the fields from `Start` on. */
  lemma {:induction false} RecordKeys(fields: seq<Field>, n: nat)
    requires n <= |fields|
    ensures KeysAre(Records(fields, n), Names(fields, Start(fields, n), n))
  {
    if n > 0 && |fields[n - 1].1| > 0 {
      var s := Start(fields, n - 1);
      RecordKeys(fields, n - 1);
      RecordsEmpty(fields, n - 1);
      FieldKeys(fields, s, n);
      assert Start(fields, n) == s;
    } else {
      assert Records(fields, n) == [];
    }
  }

  lemma RecordsEmpty(fields: seq<Field>, n: nat)
    requires n <= |fields|
    ensures Records(fields, n) == [] <==> Start(fields, n) == n
  {
    if n > 1 && |fields[n - 1].1| > 0 {
      assert |Records(fields, n)| > 0;
    }
  }

  /** With all value lists non-empty, every record has exactly the keys of `field_values`. */
  lemma AllKeys(fields: seq<Field>)
    requires forall i :: 0 <= i < |fields| ==> |fields[i].1| > 0
    ensures KeysAre(Records(fields, |fields|), Names(fields, 0, |fields|))
  {
    StartZero(fields, |fields|);
    RecordKeys(fields, |fields|);
  }

  lemma {:induction false} StartZero(fields: seq<Field>, n: nat)
    requires n <= |fields| && forall i :: 0 <= i < n ==> |fields[i].1| > 0
    ensures Start(fields, n) == 0
  {
    if n > 0 {
      StartZero(fields, n - 1);
    }
  }

  /**
   * The records depend only on the fields from `Start` on: a field with no
   * values empties the list, and the next field begins again as if it were
   * the first.
   */
  lemma {:induction false} Restart(fields: seq<Field>, n: nat, s: nat)
    requires n <= |fields| && s == Start(fields, n)
    ensures Records(fields, n) == Records(fields[s..], n - s)
  {
    var rest := fields[s..];
    if n == 0 || |fields[n - 1].1| == 0 {
      assert Records(fields, n) == [] == Records(rest, 0);
    } else {
      Restart(fields, n - 1, s);
      var m := n - 1 - s;
      assert rest[m].0 == fields[n - 1].0 && rest[m].1 == fields[n - 1].1;
      assert Records(rest, m + 1) == Step(Records(rest, m), rest[m].0, rest[m].1);
    }
  }

  /** A field with no values leaves no records; the field after it makes one-key records. */
  lemma EmptyFieldDrops(fields: seq<Field>, n: nat)
    requires n + 1 < |fields| && |fields[n].1| == 0
    ensures Records(fields, n + 1) == []
    ensures KeysAre(Records(fields, n + 2), {fields[n + 1].0})
  {
    RecordsEmpty(fields, n + 1);
    RecordKeys(fields, n + 2);
    if |fields[n + 1].1| > 0 {
      assert Start(fields, n + 1) == n + 1;
      assert Names(fields, n + 1, n + 2) == {fields[n + 1].0};
    }
  }

  /** `field_values` is a dict: no two fields share a name. */
  ghost predicate DistinctNames(fields: seq<Field>)
  {
    forall i, j :: 0 <= i < j < |fields| ==> fields[i].0 != fields[j].0
  }

  /** The string forms of values. */
  function Texts(values: seq<FieldValue>): set<string>
  {
    if |values| == 0 then {} else Texts(values[..|values| - 1]) + {Text(values[|values| - 1])}
  }

  lemma {:induction false} TextsHas(values: seq<FieldValue>, j: int)
    requires 0 <= j < |values|
    ensures Text(values[j]) in Texts(values)
  {
    if j < |values| - 1 {
      TextsHas(values[..|values| - 1], j);
    }
  }

  lemma {:induction false} TextsFrom(values: seq<FieldValue>, s: string)
    requires s in Texts(values)
    ensures exists j :: 0 <= j < |values| && Text(values[j]) == s
  {
    if s != Text(values[|values| - 1]) {
      TextsFrom(values[..|values| - 1], s);
      var j :| 0 <= j < |values| - 1 && Text(values[..|values| - 1][j]) == s;
      assert values[..|values| - 1][j] == values[j];
    }
  }

  /** Record r holds, for each field lo .. hi - 1, the string form of one of its values. */
  ghost predicate Fits(r: Record, fields: seq<Field>, lo: nat, hi: nat)
    requires lo <= hi <= |fields|
    decreases hi
  {
    lo == hi || (Fits(r, fields, lo, hi - 1) && fields[hi - 1].0 in r && r[fields[hi - 1].0] in Texts(fields[hi - 1].1))
  }

  /** A record that `Fits` maps each field i of lo .. hi - 1 to the string form of one of its values. */
  lemma {:induction false} FitsAt(r: Record, fields: seq<Field>, lo: nat, hi: nat, i: nat)
    requires lo <= i < hi <= |fields| && Fits(r, fields, lo, hi)
    ensures fields[i].0 in r && exists j :: 0 <= j < |fields[i].1| && r[fields[i].0] == Text(fields[i].1[j])
  {
    if i < hi - 1 {
      FitsAt(r, fields, lo, hi - 1, i);
    } else {
      TextsFrom(fields[i].1, r[fields[i].0]);
    }
  }

  /** Setting a key outside fields lo .. hi - 1 keeps a record fitting them. */
  lemma {:induction false} FitsUpdate(r: Record, fields: seq<Field>, lo: nat, hi: nat, name: string, v: string)
    requires lo <= hi <= |fields| && Fits(r, fields, lo, hi) && name !in Names(fields, lo, hi)
    ensures Fits(r[name := v], fields, lo, hi)
  {
    if lo < hi {
      FitsUpdate(r, fields, lo, hi - 1, name, v);
    }
  }

  /** Every record of rs `Fits`. */
  ghost predicate AllFit(rs: seq<Record>, fields: seq<Field>, lo: nat, hi: nat)
    requires lo <= hi <= |fields|
  {
    forall t :: 0 <= t < |rs| ==> Fits(rs[t], fields, lo, hi)
  }

  lemma ConcatFit(a: seq<Record>, b: seq<Record>, fields: seq<Field>, lo: nat, hi: nat)
    requires lo <= hi <= |fields| && AllFit(a, fields, lo, hi) && AllFit(b, fields, lo, hi)
    ensures AllFit(a + b, fields, lo, hi)
  {
    forall t | 0 <= t < |a + b|
      ensures Fits((a + b)[t], fields, lo, hi)
    {
      if t >= |a| {
        assert (a + b)[t] == b[t - |a|];
      }
    }
  }

  lemma {:induction false} NotInNames(fields: seq<Field>, lo: nat, hi: nat, x: string)
    requires lo <= hi <= |fields| && forall i :: lo <= i < hi ==> fields[i].0 != x
    ensures x !in Names(fields, lo, hi)
  {
    if lo < hi {
      NotInNames(fields, lo, hi - 1, x);
    }
  }

  lemma FreshName(fields: seq<Field>, lo: nat, hi: nat)
    requires lo <= hi < |fields| && DistinctNames(fields)
    ensures fields[hi].0 !in Names(fields, lo, hi)
  {
    NotInNames(fields, lo, hi, fields[hi].0);
  }

  /** Setting field hi to one of its values keeps a record fitting fields lo .. hi - 1 and fits field hi. */
  lemma RecordFits(r: Record, fields: seq<Field>, lo: nat, hi: nat, v: string)
    requires lo <= hi < |fields| && Fits(r, fields, lo, hi)
    requires fields[hi].0 !in Names(fields, lo, hi) && v in Texts(fields[hi].1)
    ensures Fits(r[fields[hi].0 := v], fields, lo, hi + 1)
  {
    FitsUpdate(r, fields, lo, hi, fields[hi].0, v);
  }

  /** The records one value of field hi contributes fit fields lo .. hi. */
  lemma SpreadFits(fields: seq<Field>, lo: nat, hi: nat, pre: seq<Record>, v: string)
    requires lo <= hi < |fields| && fields[hi].0 !in Names(fields, lo, hi) && v in Texts(fields[hi].1)
    requires |pre| == 0 ==> lo == hi
    requires AllFit(pre, fields, lo, hi)
    ensures AllFit(Spread(pre, fields[hi].0, v), fields, lo, hi + 1)
  {
    var sp := Spread(pre, fields[hi].0, v);
    forall t | 0 <= t < |sp|
      ensures Fits(sp[t], fields, lo, hi + 1)
    {
      if |pre| > 0 {
        ExtendAt(pre, fields[hi].0, v, t);
        RecordFits(pre[t], fields, lo, hi, v);
      }
    }
  }

  /** Every value of values has its string form in texts. */
  ghost predicate TextsWithin(values: seq<FieldValue>, texts: set<string>)
  {
    forall j :: 0 <= j < |values| ==> Text(values[j]) in texts
  }

  lemma TextsWithinInit(values: seq<FieldValue>, texts: set<string>)
    requires |values| > 0 && TextsWithin(values, texts)
    ensures TextsWithin(values[..|values| - 1], texts) && Text(values[|values| - 1]) in texts
  {
    var init := values[..|values| - 1];
    forall j | 0 <= j < |init|
      ensures Text(init[j]) in texts
    {
      assert init[j] == values[j];
    }
  }

  /** The records of values whose string forms are values of field hi fit fields lo .. hi. */
  lemma {:induction false} StepFits(fields: seq<Field>, lo: nat, hi: nat, pre: seq<Record>, values: seq<FieldValue>)
    requires lo <= hi < |fields| && fields[hi].0 !in Names(fields, lo, hi)
    requires |pre| == 0 ==> lo == hi
    requires AllFit(pre, fields, lo, hi)
    requires TextsWithin(values, Texts(fields[hi].1))
    ensures AllFit(Step(pre, fields[hi].0, values), fields, lo, hi + 1)
  {
    if |values| > 0 {
      var init, v := values[..|values| - 1], Text(values[|values| - 1]);
      TextsWithinInit(values, Texts(fields[hi].1));
      StepFits(fields, lo, hi, pre, init);
      SpreadFits(fields, lo, hi, pre, v);
      ConcatFit(Step(pre, fields[hi].0, init), Spread(pre, fields[hi].0, v), fields, lo, hi + 1);
    }
  }

  /** The records of the first n fields fit fields lo .. n - 1, when those of the first n - 1 fit lo .. n - 2. */
  lemma FieldFits(fields: seq<Field>, lo: nat, n: nat)
    requires 0 < n <= |fields| && lo < n && fields[n - 1].0 !in Names(fields, lo, n - 1)
    requires |Records(fields, n - 1)| == 0 ==> lo == n - 1
    requires AllFit(Records(fields, n - 1), fields, lo, n - 1)
    ensures AllFit(Records(fields, n), fields, lo, n)
  {
    var values := fields[n - 1].1;
    forall j | 0 <= j < |values|
      ensures Text(values[j]) in Texts(values)
    {
      TextsHas(values, j);
    }
    StepFits(fields, lo, n - 1, Records(fields, n - 1), values);
  }

  /**
   * With distinct field names, each record maps every field from `Start`
   * on to the string form of one of that field's values.
   */
  lemma RecordValues(fields: seq<Field>, n: nat)
    requires n <= |fields| && DistinctNames(fields)
    ensures AllFit(Records(fields, n), fields, Start(fields, n), n)
  {
    UniqueFrom(fields, n);
    UniqueFits(fields, n);
  }

  /** The first n field names are distinct: each differs from all the names before it. */
  ghost predicate Unique(fields: seq<Field>, n: nat)
    requires n <= |fields|
  {
    n == 0 || (Unique(fields, n - 1) && fields[n - 1].0 !in Names(fields, 0, n - 1))
  }

  lemma {:induction false} UniqueFrom(fields: seq<Field>, n: nat)
    requires n <= |fields| && DistinctNames(fields)
    ensures Unique(fields, n)
  {
    if n > 0 {
      UniqueFrom(fields, n - 1);
      FreshName(fields, 0, n - 1);
    }
  }

  lemma {:induction false} NamesFrom(fields: seq<Field>, lo: nat, hi: nat)
    requires lo <= hi <= |fields|
    ensures Names(fields, lo, hi) <= Names(fields, 0, hi)
  {
    if lo < hi {
      NamesFrom(fields, lo, hi - 1);
    }
  }

  /** `RecordValues`, by induction on n under `Unique`. */
  lemma {:induction false} UniqueFits(fields: seq<Field>, n: nat)
    requires n <= |fields| && Unique(fields, n)
    ensures AllFit(Records(fields, n), fields, Start(fields, n), n)
  {
    if n > 0 && |fields[n - 1].1| > 0 {
      var s := Start(fields, n - 1);
      UniqueFits(fields, n - 1);
      RecordsEmpty(fields, n - 1);
      NamesFrom(fields, s, n - 1);
      FieldFits(fields, s, n);
      assert Start(fields, n) == s;
    } else {
      assert Records(fields, n) == [];
    }
  }
}
