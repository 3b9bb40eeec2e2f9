/** Grouping and the two-kind bucket merge of the daily, monthly and yearly
    reports. A `$group` stage turns records into one bucket per key holding
    the sum of amounts and the number of records; the controllers then fold
    the income buckets and the expense buckets into one row per key (a
    JavaScript `Map`) and sort the rows by key. */
module Buckets {
  import opened Base
  import opened JsString

  datatype Bucket = Bucket(key: string, total: int, count: int)

  datatype Row = Row(key: string, income: int, incomeCount: int, expense: int, expenseCount: int)

  // ---------------------------------------------------------------------
  // Reference sums

  /** Sum of `val` over the elements of `xs` whose key is `k`. */
  function SumWhere<T>(xs: seq<T>, key: T -> string, val: T -> int, k: string): int
    decreases |xs|
  {
    if |xs| == 0 then 0
    else SumWhere(xs[..|xs| - 1], key, val, k) + (if key(xs[|xs| - 1]) == k then val(xs[|xs| - 1]) else 0)
  }

  /** Sum of `val` over all of `xs`. */
  function SumAll<T>(xs: seq<T>, val: T -> int): int
    decreases |xs|
  {
    if |xs| == 0 then 0 else SumAll(xs[..|xs| - 1], val) + val(xs[|xs| - 1])
  }

  /** The keys that occur in `xs`. */
  function KeySet<T>(xs: seq<T>, key: T -> string): set<string>
  {
    set i | 0 <= i < |xs| :: key(xs[i])
  }

  lemma {:induction false} SumWhereAbsent<T>(xs: seq<T>, key: T -> string, val: T -> int, k: string)
    requires k !in KeySet(xs, key)
    ensures SumWhere(xs, key, val, k) == 0
  {
    if |xs| > 0 {
      assert KeySet(xs[..|xs| - 1], key) <= KeySet(xs, key);
      SumWhereAbsent(xs[..|xs| - 1], key, val, k);
    }
  }

  lemma {:induction false} SumAllAppend<T>(xs: seq<T>, ys: seq<T>, val: T -> int)
    ensures SumAll(xs + ys, val) == SumAll(xs, val) + SumAll(ys, val)
    decreases |ys|
  {
    if |ys| == 0 {
      assert xs + ys == xs;
    } else {
      assert (xs + ys)[..|xs + ys| - 1] == xs + ys[..|ys| - 1];
      SumAllAppend(xs, ys[..|ys| - 1], val);
    }
  }

  /** Sums do not depend on the order of the elements. */
  lemma {:induction false} SumAllPermutation<T>(xs: seq<T>, ys: seq<T>, val: T -> int)
    requires multiset(xs) == multiset(ys)
    ensures SumAll(xs, val) == SumAll(ys, val)
    decreases |xs|
  {
    if |xs| > 0 {
      var x := xs[|xs| - 1];
      var init := xs[..|xs| - 1];
      assert xs == init + [x];
      assert multiset(init) == multiset(xs) - multiset{x};
      assert x in multiset(ys);
      var i :| 0 <= i < |ys| && ys[i] == x;
      SumAllRemove(ys, i, val);
      SumAllPermutation(init, ys[..i] + ys[i + 1..], val);
    }
  }

  /** Taking one element out of a sequence takes its value out of the sum. */
  lemma {:induction false} SumAllRemove<T>(ys: seq<T>, i: int, val: T -> int)
    requires 0 <= i < |ys|
    ensures multiset(ys[..i] + ys[i + 1..]) == multiset(ys) - multiset{ys[i]}
    ensures SumAll(ys, val) == SumAll(ys[..i] + ys[i + 1..], val) + val(ys[i])
  {
    var x := ys[i];
    assert ys == ys[..i] + [x] + ys[i + 1..];
    assert multiset(ys) == multiset(ys[..i]) + multiset{x} + multiset(ys[i + 1..]);
    SumAllAppend(ys[..i] + [x], ys[i + 1..], val);
    SumAllAppend(ys[..i], [x], val);
    SumAllAppend(ys[..i], ys[i + 1..], val);
    assert SumAll([x], val) == val(x) by { assert [x][..0] == []; }
  }

  // ---------------------------------------------------------------------
  // Keys in ascending order

  predicate StrictlyAscending(ks: seq<string>)
  {
    forall i, j :: 0 <= i < j < |ks| ==> StrLess(ks[i], ks[j])
  }

  function InsertKey(k: string, ks: seq<string>): (r: seq<string>)
    requires StrictlyAscending(ks)
    ensures StrictlyAscending(r)
    ensures forall x :: x in r <==> x in ks || x == k
  {
    if |ks| == 0 then [k]
    else if k == ks[0] then ks
    else if StrLess(k, ks[0]) then
      assert forall j :: 0 <= j < |ks| ==> StrLess(k, ks[j]) by {
        forall j | 0 < j < |ks| ensures StrLess(k, ks[j]) {
          StrLessTransitive(k, ks[0], ks[j]);
        }
      }
      [k] + ks
    else
      StrLessTotal(k, ks[0]);
      var tail := InsertKey(k, ks[1..]);
      assert forall x :: x in ks <==> x == ks[0] || x in ks[1..] by {
        assert ks == [ks[0]] + ks[1..];
      }
      assert forall j :: 0 <= j < |tail| ==> StrLess(ks[0], tail[j]) by {
        forall j | 0 <= j < |tail| ensures StrLess(ks[0], tail[j]) {
          if tail[j] != k {
            assert tail[j] in ks[1..];
            var p :| 0 <= p < |ks[1..]| && ks[1..][p] == tail[j];
            assert StrLess(ks[0], ks[p + 1]);
          }
        }
      }
      [ks[0]] + tail
  }

  /** The distinct strings of `xs`, in strictly ascending order. */
  function SortedDistinct(xs: seq<string>): (r: seq<string>)
    ensures StrictlyAscending(r)
    ensures forall x :: x in r <==> x in xs
    decreases |xs|
  {
    if |xs| == 0 then []
    else
      assert forall x :: x in xs <==> x in xs[..|xs| - 1] || x == xs[|xs| - 1] by {
        assert xs == xs[..|xs| - 1] + [xs[|xs| - 1]];
      }
      InsertKey(xs[|xs| - 1], SortedDistinct(xs[..|xs| - 1]))
  }

  /** An ascending key sequence has no repeated key. */
  lemma {:induction false} AscendingDistinct(ks: seq<string>, i: int, j: int)
    requires StrictlyAscending(ks) && 0 <= i < |ks| && 0 <= j < |ks| && i != j
    ensures ks[i] != ks[j]
  {
    if i < j { StrLessIrreflexive(ks[i]); } else { StrLessIrreflexive(ks[j]); }
  }

  function Keys<T>(xs: seq<T>, key: T -> string): (r: seq<string>)
    ensures |r| == |xs| && forall i :: 0 <= i < |xs| ==> r[i] == key(xs[i])
  {
    seq(|xs|, i requires 0 <= i < |xs| => key(xs[i]))
  }

  // ---------------------------------------------------------------------
  // $group

  /** Folds records into a map from key to bucket, one record at a time. */
  function GroupMap<T>(xs: seq<T>, key: T -> string, val: T -> int): (m: map<string, Bucket>)
    ensures m.Keys == KeySet(xs, key)
    ensures forall k :: k in m ==> m[k] == Bucket(k, SumWhere(xs, key, val, k), SumWhere(xs, key, One, k))
    decreases |xs|
  {
    if |xs| == 0 then map[]
    else
      var prev := xs[..|xs| - 1];
      var x := xs[|xs| - 1];
      var m := GroupMap(prev, key, val);
      var k := key(x);
      assert KeySet(xs, key) == KeySet(prev, key) + {k} by {
        assert forall i :: 0 <= i < |prev| ==> prev[i] == xs[i];
      }
      if k in m then m[k := Bucket(k, m[k].total + val(x), m[k].count + 1)]
      else
        SumWhereAbsent(prev, key, val, k);
        SumWhereAbsent(prev, key, One, k);
        m[k := Bucket(k, val(x), 1)]
  }

  function One<T>(x: T): int { 1 }

  /** `$group` by `key` followed by `$sort` on the key: one bucket per key
      that occurs, in ascending key order, each holding the sum of `val` and
      the number of records with that key. */
  function GroupByKey<T>(xs: seq<T>, key: T -> string, val: T -> int): (r: seq<Bucket>)
    ensures StrictlyAscending(Keys(r, BucketKey))
    ensures forall k :: k in Keys(r, BucketKey) <==> k in KeySet(xs, key)
    ensures forall i :: 0 <= i < |r| ==>
      r[i].total == SumWhere(xs, key, val, r[i].key) && r[i].count == SumWhere(xs, key, One, r[i].key)
  {
    var m := GroupMap(xs, key, val);
    var ks := SortedDistinct(Keys(xs, key));
    assert forall k :: k in ks <==> k in m by {
      forall k ensures k in ks <==> k in m {
        if k in m {
          var i :| 0 <= i < |xs| && key(xs[i]) == k;
          assert Keys(xs, key)[i] == k;
        }
      }
    }
    var r := seq(|ks|, i requires 0 <= i < |ks| => m[ks[i]]);
    assert Keys(r, BucketKey) == ks;
    r
  }

  function BucketKey(b: Bucket): string { b.key }

  // ---------------------------------------------------------------------
  // The Map fold of getDaily / getMonthly / getYearly

  /** The last bucket with key `k` (a later `Map.set` overwrites an earlier one). */
  function LastWithKey(bs: seq<Bucket>, k: string): (r: Option<Bucket>)
    ensures r.Some? ==> r.value in bs && r.value.key == k
    ensures r.None? <==> k !in Keys(bs, BucketKey)
    decreases |bs|
  {
    if |bs| == 0 then None
    else if bs[|bs| - 1].key == k then Some(bs[|bs| - 1])
    else
      assert forall x :: x in Keys(bs, BucketKey) <==> x in Keys(bs[..|bs| - 1], BucketKey) || x == bs[|bs| - 1].key by {
        assert Keys(bs, BucketKey) == Keys(bs[..|bs| - 1], BucketKey) + [bs[|bs| - 1].key];
      }
      LastWithKey(bs[..|bs| - 1], k)
  }

  function TotalOf(b: Option<Bucket>): int { if b.Some? then b.value.total else 0 }

  function CountOf(b: Option<Bucket>): int { if b.Some? then b.value.count else 0 }

  /** `incomeDaily.forEach(d => map.set(d.date, {..., expense: 0, expenseCount: 0}))`. */
  function FoldIncome(inc: seq<Bucket>): (m: map<string, Row>)
    ensures forall k :: k in m <==> k in Keys(inc, BucketKey)
    ensures forall k :: k in m ==>
      m[k] == Row(k, TotalOf(LastWithKey(inc, k)), CountOf(LastWithKey(inc, k)), 0, 0)
    decreases |inc|
  {
    if |inc| == 0 then map[]
    else
      var b := inc[|inc| - 1];
      assert Keys(inc, BucketKey) == Keys(inc[..|inc| - 1], BucketKey) + [b.key];
      FoldIncome(inc[..|inc| - 1])[b.key := Row(b.key, b.total, b.count, 0, 0)]
  }

  /** The income side of the row of `k` in a partly built map (zero when absent). */
  function IncomeIn(m: map<string, Row>, k: string): (int, int)
  {
    if k in m then (m[k].income, m[k].incomeCount) else (0, 0)
  }

  /** `expenseDaily.forEach(...)`: a new row for an unseen key, otherwise the
      expense side of the existing row is overwritten. */
  function FoldExpense(m0: map<string, Row>, exp: seq<Bucket>): (m: map<string, Row>)
    requires forall k :: k in m0 ==> m0[k].key == k && m0[k].expense == 0 && m0[k].expenseCount == 0
    ensures forall k :: k in m <==> k in m0 || k in Keys(exp, BucketKey)
    ensures forall k :: k in m ==>
      m[k] == Row(k, IncomeIn(m0, k).0, IncomeIn(m0, k).1, TotalOf(LastWithKey(exp, k)), CountOf(LastWithKey(exp, k)))
    decreases |exp|
  {
    if |exp| == 0 then m0
    else
      var b := exp[|exp| - 1];
      assert Keys(exp, BucketKey) == Keys(exp[..|exp| - 1], BucketKey) + [b.key];
      var m := FoldExpense(m0, exp[..|exp| - 1]);
      if b.key !in m then m[b.key := Row(b.key, 0, 0, b.total, b.count)]
      else m[b.key := m[b.key].(expense := b.total, expenseCount := b.count)]
  }

  /** The merged report: one row per key found on either side, the missing
      side zero, in strictly ascending key order (`(a, b) => a.key > b.key ? 1 : -1`). */
  function MergeBuckets(inc: seq<Bucket>, exp: seq<Bucket>): (r: seq<Row>)
    ensures StrictlyAscending(Keys(r, RowKey))
    ensures forall k :: k in Keys(r, RowKey) <==> k in Keys(inc, BucketKey) || k in Keys(exp, BucketKey)
    ensures forall i :: 0 <= i < |r| ==>
      && r[i].income == TotalOf(LastWithKey(inc, r[i].key))
      && r[i].incomeCount == CountOf(LastWithKey(inc, r[i].key))
      && r[i].expense == TotalOf(LastWithKey(exp, r[i].key))
      && r[i].expenseCount == CountOf(LastWithKey(exp, r[i].key))
  {
    var m := FoldExpense(FoldIncome(inc), exp);
    var ks := SortedDistinct(Keys(inc, BucketKey) + Keys(exp, BucketKey));
    assert forall k :: k in ks <==> k in m;
    var r := seq(|ks|, i requires 0 <= i < |ks| => m[ks[i]]);
    assert Keys(r, RowKey) == ks;
    r
  }

  function RowKey(r: Row): string { r.key }

  function RowIncome(r: Row): int { r.income }
  function RowIncomeCount(r: Row): int { r.incomeCount }
  function RowExpense(r: Row): int { r.expense }
  function RowExpenseCount(r: Row): int { r.expenseCount }

  // ---------------------------------------------------------------------
  // Rows against records

  /** `SumWhere` read through a grouped list: the bucket of a key holds its
      sum, and a key without a bucket sums to zero. */
  lemma {:induction false} GroupedTotal<T>(xs: seq<T>, key: T -> string, val: T -> int, k: string)
    ensures TotalOf(LastWithKey(GroupByKey(xs, key, val), k)) == SumWhere(xs, key, val, k)
    ensures CountOf(LastWithKey(GroupByKey(xs, key, val), k)) == SumWhere(xs, key, One, k)
  {
    var g := GroupByKey(xs, key, val);
    if LastWithKey(g, k).None? {
      SumWhereAbsent(xs, key, val, k);
      SumWhereAbsent(xs, key, One, k);
    }
  }

  /** Rows of the merged report, stated against the records themselves: the
      income side of row `k` is the sum and number of income records with key
      `k`, and likewise for expenses. */
  lemma {:induction false} MergedGroupsRow<T>(incs: seq<T>, exps: seq<T>, key: T -> string, val: T -> int)
    ensures var r := MergeBuckets(GroupByKey(incs, key, val), GroupByKey(exps, key, val));
      forall i :: 0 <= i < |r| ==>
        && r[i].income == SumWhere(incs, key, val, r[i].key)
        && r[i].incomeCount == SumWhere(incs, key, One, r[i].key)
        && r[i].expense == SumWhere(exps, key, val, r[i].key)
        && r[i].expenseCount == SumWhere(exps, key, One, r[i].key)
  {
    var r := MergeBuckets(GroupByKey(incs, key, val), GroupByKey(exps, key, val));
    forall i | 0 <= i < |r| ensures
        && r[i].income == SumWhere(incs, key, val, r[i].key)
        && r[i].incomeCount == SumWhere(incs, key, One, r[i].key)
        && r[i].expense == SumWhere(exps, key, val, r[i].key)
        && r[i].expenseCount == SumWhere(exps, key, One, r[i].key)
    {
      GroupedTotal(incs, key, val, r[i].key);
      GroupedTotal(exps, key, val, r[i].key);
    }
  }

  // ---------------------------------------------------------------------
  // Reconciliation: bucket totals add up to the record totals

  function SumOverKeys<T>(xs: seq<T>, key: T -> string, val: T -> int, ks: seq<string>): int
    decreases |ks|
  {
    if |ks| == 0 then 0
    else SumOverKeys(xs, key, val, ks[..|ks| - 1]) + SumWhere(xs, key, val, ks[|ks| - 1])
  }

  lemma {:induction false} SumOverKeysStep<T>(xs: seq<T>, key: T -> string, val: T -> int, ks: seq<string>)
    requires |xs| > 0 && StrictlyAscending(ks)
    ensures SumOverKeys(xs, key, val, ks)
         == SumOverKeys(xs[..|xs| - 1], key, val, ks) + (if key(xs[|xs| - 1]) in ks then val(xs[|xs| - 1]) else 0)
    decreases |ks|
  {
    if |ks| > 0 {
      var init := ks[..|ks| - 1];
      assert StrictlyAscending(init);
      SumOverKeysStep(xs, key, val, init);
      var last := ks[|ks| - 1];
      assert ks == init + [last];
      if key(xs[|xs| - 1]) == last {
        if last in init {
          var p :| 0 <= p < |init| && init[p] == last;
          AscendingDistinct(ks, p, |ks| - 1);
        }
      }
    }
  }

  /** Summing the per-key sums over a list of distinct keys that covers every
      key of `xs` gives the sum over `xs`. */
  lemma {:induction false} SumOverKeysTotal<T>(xs: seq<T>, key: T -> string, val: T -> int, ks: seq<string>)
    requires StrictlyAscending(ks)
    requires forall k :: k in KeySet(xs, key) ==> k in ks
    ensures SumOverKeys(xs, key, val, ks) == SumAll(xs, val)
    decreases |xs|
  {
    if |xs| == 0 {
      SumOverKeysOfEmpty(xs, key, val, ks);
    } else {
      assert KeySet(xs[..|xs| - 1], key) <= KeySet(xs, key);
      assert key(xs[|xs| - 1]) in KeySet(xs, key);
      SumOverKeysTotal(xs[..|xs| - 1], key, val, ks);
      SumOverKeysStep(xs, key, val, ks);
    }
  }

  lemma {:induction false} SumOverKeysOfEmpty<T>(xs: seq<T>, key: T -> string, val: T -> int, ks: seq<string>)
    requires |xs| == 0
    ensures SumOverKeys(xs, key, val, ks) == 0
    decreases |ks|
  {
    if |ks| > 0 {
      SumOverKeysOfEmpty(xs, key, val, ks[..|ks| - 1]);
    }
  }

  /** A list of rows each holding the per-key sum of its key adds up to the
      sum over its keys. */
  lemma {:induction false} SumOfRows<R, T>(r: seq<R>, rkey: R -> string, f: R -> int, xs: seq<T>, key: T -> string, val: T -> int)
    requires forall i :: 0 <= i < |r| ==> f(r[i]) == SumWhere(xs, key, val, rkey(r[i]))
    ensures SumAll(r, f) == SumOverKeys(xs, key, val, Keys(r, rkey))
    decreases |r|
  {
    if |r| > 0 {
      SumOfRows(r[..|r| - 1], rkey, f, xs, key, val);
      assert Keys(r, rkey)[..|r| - 1] == Keys(r[..|r| - 1], rkey);
    }
  }

  /** Reconciliation of a bucketed report: over all rows, the income totals
      add up to the sum of the income records, the income counts to their
      number, and likewise for expenses. */
  lemma {:induction false} MergedGroupsReconcile<T>(incs: seq<T>, exps: seq<T>, key: T -> string, val: T -> int)
    ensures var r := MergeBuckets(GroupByKey(incs, key, val), GroupByKey(exps, key, val));
      && SumAll(r, RowIncome) == SumAll(incs, val)
      && SumAll(r, RowIncomeCount) == |incs|
      && SumAll(r, RowExpense) == SumAll(exps, val)
      && SumAll(r, RowExpenseCount) == |exps|
  {
    var gi := GroupByKey(incs, key, val);
    var ge := GroupByKey(exps, key, val);
    var r := MergeBuckets(gi, ge);
    var ks := Keys(r, RowKey);
    MergedGroupsRow(incs, exps, key, val);
    forall k | k in KeySet(incs, key) ensures k in ks {
      assert k in Keys(gi, BucketKey);
    }
    forall k | k in KeySet(exps, key) ensures k in ks {
      assert k in Keys(ge, BucketKey);
    }
    SumOfRows(r, RowKey, RowIncome, incs, key, val);
    SumOverKeysTotal(incs, key, val, ks);
    SumOfRows(r, RowKey, RowIncomeCount, incs, key, One);
    SumOverKeysTotal(incs, key, One, ks);
    SumAllOne(incs);
    SumOfRows(r, RowKey, RowExpense, exps, key, val);
    SumOverKeysTotal(exps, key, val, ks);
    SumOfRows(r, RowKey, RowExpenseCount, exps, key, One);
    SumOverKeysTotal(exps, key, One, ks);
    SumAllOne(exps);
  }

  lemma {:induction false} SumAllOne<T>(xs: seq<T>)
    ensures SumAll(xs, One) == |xs|
    decreases |xs|
  {
    if |xs| > 0 { SumAllOne(xs[..|xs| - 1]); }
  }
}
