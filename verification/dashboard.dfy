/** The dashboard endpoints: overview, daily / monthly / yearly reports,
    category breakdown and the paginated combined listing. Every handler
    works on the records of the signed-in user only. */
module Dashboard {
  import opened Base
  import opened JsString
  import opened Sorting
  import opened CivilTime
  import opened Records
  import opened DateMatch
  import opened Buckets
  import opened Entries

  /** How many times the record of `e` is stored in the collection of its kind. */
  function Stored(db: Store, e: Entry): nat
  {
    multiset(Collection(db, e.kind))[e.tx]
  }

  /** Income records then expense records of `user` that pass `w`, tagged
      (the `$unionWith` of the two collections). */
  function Candidates(db: Store, user: Id, w: Option<Window>): (r: seq<Entry>)
    ensures forall e :: e in r <==>
      e.tx in Collection(db, e.kind) && Selected(user, w, e.tx)
  {
    var inc := Matching(db.incomes, user, w);
    var exp := Matching(db.expenses, user, w);
    var r := Tag(Income, inc) + Tag(Expense, exp);
    assert forall e :: e in r <==> e.tx in Collection(db, e.kind) && Selected(user, w, e.tx) by {
      forall e ensures e in r <==> e.tx in Collection(db, e.kind) && Selected(user, w, e.tx) {
        TagMembers(Income, inc, e);
        TagMembers(Expense, exp, e);
      }
    }
    r
  }

  /** The candidates hold each selected record exactly as often as its
      collection does, and nothing else. */
  lemma {:induction false} CandidatesCount(db: Store, user: Id, w: Option<Window>, e: Entry)
    ensures multiset(Candidates(db, user, w))[e] == if Selected(user, w, e.tx) then Stored(db, e) else 0
  {
    var inc := Matching(db.incomes, user, w);
    var exp := Matching(db.expenses, user, w);
    assert Candidates(db, user, w) == Tag(Income, inc) + Tag(Expense, exp);
    TagCount(Income, inc, e);
    TagCount(Expense, exp, e);
  }

  // ---------------------------------------------------------------------
  // Overview

  datatype OverviewQuery = OverviewQuery(dates: DateQuery, recent: Option<string>)

  datatype Totals = Totals(income: int, expense: int, balance: int)

  datatype OverviewBody = OverviewBody(totals: Totals, recent: seq<Listed>)

  /** `Math.min(parseInt(recent, 10) || 10, 100)` with `recent` defaulting
      to "10" (a missing parameter reads as 10 directly): a missing,
      non-numeric or zero value means 10. The result may
      be negative, which `$limit` refuses. */
  function RecentLimit(recent: Option<string>): (n: int)
    ensures n <= 100 && n != 0
    ensures recent.None? ==> n == 10
    ensures recent.Some? && ParseInt(recent.value).None? ==> n == 10
    ensures recent.Some? && ParseInt(recent.value).Some? && ParseInt(recent.value).value < 0 ==>
      n == ParseInt(recent.value).value
  {
    var p := if recent.Some? then ParseInt(recent.value) else None;
    Min(if p.None? || p.value == 0 then 10 else p.value, 100)
  }

  /** The `n` newest candidates, newest first. */
  function Recent(db: Store, user: Id, w: Option<Window>, n: nat): (r: seq<Entry>)
    ensures |r| == Min(n, |Candidates(db, user, w)|)
    ensures Sorted(r, NewestFirst)
    ensures forall e :: e in r ==> e in Candidates(db, user, w)
  {
    var sorted := SortNewest(Candidates(db, user, w));
    var r := Take(sorted, n);
    assert forall e :: e in r ==> e in Candidates(db, user, w) by {
      forall e | e in r ensures e in Candidates(db, user, w) {
        assert e in multiset(sorted);
      }
    }
    r
  }

  /** The recent list: the `n` newest candidates in the window, newest
      first, each joined with its category. */
  function RecentListing(db: Store, user: Id, w: Option<Window>, n: nat): (r: seq<Listed>)
    ensures |r| == Min(n, |Candidates(db, user, w)|)
    ensures forall i :: 0 <= i < |r| ==>
      var x := r[i];
      && x.tx.user == user
      && InWindow(w, x.tx.date)
      && x.tx in Collection(db, x.kind)
      && x.category == LookupCategory(db.categories, x.tx.category)
    ensures forall i, j :: 0 <= i < j < |r| ==>
      NewestFirst(Entry(r[i].kind, r[i].tx), Entry(r[j].kind, r[j].tx))
  {
    var es := Recent(db, user, w, n);
    var r := JoinAll(db.categories, es);
    assert forall i :: 0 <= i < |r| ==> Entry(r[i].kind, r[i].tx) == es[i];
    assert forall i :: 0 <= i < |es| ==> es[i] in Candidates(db, user, w);
    r
  }

  /** `getOverview`: lifetime totals of the user (the date filter does not
      apply to them), the balance, and the newest transactions in the
      window joined with their category. A limit that is not positive makes
      the aggregation fail. */
  function Overview(db: Store, user: Id, q: OverviewQuery): (r: Response<OverviewBody>)
    ensures r.Ok? <==> RecentLimit(q.recent) > 0
    ensures r.Err? ==> r == Err(500, QueryFailed)
    ensures r.Ok? ==>
      && r.status == 200
      && r.body.totals.income == SumAll(Matching(db.incomes, user, None), Amount)
      && r.body.totals.expense == SumAll(Matching(db.expenses, user, None), Amount)
      && r.body.totals.balance == r.body.totals.income - r.body.totals.expense
      && r.body.recent == RecentListing(db, user, BuildDateMatch(q.dates), RecentLimit(q.recent))
  {
    var n := RecentLimit(q.recent);
    if n <= 0 then Err(500, QueryFailed)
    else
      var income := SumAll(Matching(db.incomes, user, None), Amount);
      var expense := SumAll(Matching(db.expenses, user, None), Amount);
      var recent := RecentListing(db, user, BuildDateMatch(q.dates), n);
      Ok(200, OverviewBody(Totals(income, expense, income - expense), recent))
  }

  /** A decimal limit is capped at 100, and zero falls back to 10; a
      negative limit is passed on as it is. */
  lemma {:induction false} RecentLimitOfDecimal(k: int)
    ensures RecentLimit(Some(IntToDecimal(k))) == if k == 0 then 10 else Min(k, 100)
    ensures 1 <= k <= 100 ==> RecentLimit(Some(IntToDecimal(k))) == k
  {
    ParseIntOfDecimalExact(k);
  }

  /** A negative `recent` reaches `$limit`, which refuses it: the overview
      replies 500. */
  lemma {:induction false} NegativeRecentFails(db: Store, user: Id, q: OverviewQuery, k: int)
    requires k < 0
    ensures Overview(db, user, q.(recent := Some(IntToDecimal(k)))) == Err(500, QueryFailed)
  {
    RecentLimitOfDecimal(k);
  }

  /** The recent list is a top-n list: a candidate left out of it is no
      newer than the last entry shown, and when there are no more candidates
      than the limit every candidate is shown. */
  lemma {:induction false} RecentAreNewest(db: Store, user: Id, w: Option<Window>, n: nat, e: Entry)
    requires e in Candidates(db, user, w) && n > 0
    ensures var r := Recent(db, user, w, n);
      e in r || (|r| == n && NewestFirst(r[n - 1], e))
  {
    var c := Candidates(db, user, w);
    var sorted := SortNewest(c);
    assert e in multiset(c);
    assert e in sorted by { assert e in multiset(sorted); }
    TakeOfSorted(sorted, NewestFirst, n, e);
    if n <= |sorted| {
      assert Take(sorted, n)[n - 1] == sorted[n - 1];
    }
  }

  // ---------------------------------------------------------------------
  // Daily, monthly and yearly reports

  /** `$dateToString` keys of a record's date. */
  function DayOf(t: Tx): string { DayKey(t.date) }
  function MonthOf(t: Tx): string { MonthKey(t.date) }
  function YearOf(t: Tx): string { YearKey(t.date) }

  /** Both collections of `user` in window `w`, grouped by `key` and merged
      into one row per key. */
  function Report(db: Store, user: Id, w: Option<Window>, key: Tx -> string): (r: seq<Row>)
    ensures StrictlyAscending(Keys(r, RowKey))
    ensures forall k :: k in Keys(r, RowKey) <==>
      k in KeySet(Matching(db.incomes, user, w), key) || k in KeySet(Matching(db.expenses, user, w), key)
    ensures forall i :: 0 <= i < |r| ==>
      && r[i].income == SumWhere(Matching(db.incomes, user, w), key, Amount, r[i].key)
      && r[i].incomeCount == SumWhere(Matching(db.incomes, user, w), key, One, r[i].key)
      && r[i].expense == SumWhere(Matching(db.expenses, user, w), key, Amount, r[i].key)
      && r[i].expenseCount == SumWhere(Matching(db.expenses, user, w), key, One, r[i].key)
  {
    var incs := Matching(db.incomes, user, w);
    var exps := Matching(db.expenses, user, w);
    MergedGroupsRow(incs, exps, key, Amount);
    MergeBuckets(GroupByKey(incs, key, Amount), GroupByKey(exps, key, Amount))
  }

  /** `r` is the grouped report of `key` over the records of `user` in `w`:
      one row per key a selected record has, in ascending key order, each
      holding that key's income and expense totals and counts. */
  ghost predicate IsReport(db: Store, user: Id, w: Option<Window>, key: Tx -> string, r: seq<Row>)
  {
    && StrictlyAscending(Keys(r, RowKey))
    && (forall k :: k in Keys(r, RowKey) <==>
         k in KeySet(Matching(db.incomes, user, w), key) || k in KeySet(Matching(db.expenses, user, w), key))
    && forall i :: 0 <= i < |r| ==>
         && r[i].income == SumWhere(Matching(db.incomes, user, w), key, Amount, r[i].key)
         && r[i].incomeCount == SumWhere(Matching(db.incomes, user, w), key, One, r[i].key)
         && r[i].expense == SumWhere(Matching(db.expenses, user, w), key, Amount, r[i].key)
         && r[i].expenseCount == SumWhere(Matching(db.expenses, user, w), key, One, r[i].key)
  }

  /** Reconciliation: over all rows of a report, the income totals add up
      to the user's income in the window and the counts to the number of
      those records; likewise for expenses. */
  lemma {:induction false} ReportReconciles(db: Store, user: Id, w: Option<Window>, key: Tx -> string)
    ensures var r := Report(db, user, w, key);
      && SumAll(r, RowIncome) == SumAll(Matching(db.incomes, user, w), Amount)
      && SumAll(r, RowIncomeCount) == |Matching(db.incomes, user, w)|
      && SumAll(r, RowExpense) == SumAll(Matching(db.expenses, user, w), Amount)
      && SumAll(r, RowExpenseCount) == |Matching(db.expenses, user, w)|
  {
    MergedGroupsReconcile(Matching(db.incomes, user, w), Matching(db.expenses, user, w), key, Amount);
  }

  /** Some income or expense record of `user` in window `w` has key `k`. */
  ghost predicate RecordWithKey(db: Store, user: Id, w: Option<Window>, key: Tx -> string, k: string)
  {
    exists t :: (t in db.incomes || t in db.expenses) && Selected(user, w, t) && key(t) == k
  }

  /** A report has a row for a key exactly when a selected record has that key. */
  lemma {:induction false} ReportKeys(db: Store, user: Id, w: Option<Window>, key: Tx -> string, k: string)
    ensures k in Keys(Report(db, user, w, key), RowKey) <==> RecordWithKey(db, user, w, key, k)
  {
    var inc := KeyOfMatching(db.incomes, user, w, key, k);
    var exp := KeyOfMatching(db.expenses, user, w, key, k);
    if RecordWithKey(db, user, w, key, k) {
      var t :| (t in db.incomes || t in db.expenses) && Selected(user, w, t) && key(t) == k;
      assert t in db.incomes ==> inc;
      assert t in db.expenses ==> exp;
    }
  }

  /** Whether some selected record of a collection has key `k`, with a witness when so. */
  lemma {:induction false} KeyOfMatching(s: seq<Tx>, user: Id, w: Option<Window>, key: Tx -> string, k: string)
      returns (found: bool)
    ensures found <==> k in KeySet(Matching(s, user, w), key)
    ensures found ==> exists t :: t in s && Selected(user, w, t) && key(t) == k
    ensures !found ==> forall t :: t in s && Selected(user, w, t) ==> key(t) != k
  {
    var r := Matching(s, user, w);
    found := k in KeySet(r, key);
    if found {
      var j :| 0 <= j < |r| && key(r[j]) == k;
      assert r[j] in r;
    } else {
      forall t | t in s && Selected(user, w, t) ensures key(t) != k {
        assert t in r;
        var j :| 0 <= j < |r| && r[j] == t;
      }
    }
  }

  lemma {:induction false} ReportRowKeys(db: Store, user: Id, w: Option<Window>, key: Tx -> string)
    ensures var r := Report(db, user, w, key);
      forall i :: 0 <= i < |r| ==> RecordWithKey(db, user, w, key, r[i].key)
  {
    var r := Report(db, user, w, key);
    forall i | 0 <= i < |r| ensures RecordWithKey(db, user, w, key, r[i].key) {
      assert Keys(r, RowKey)[i] == r[i].key;
      ReportKeys(db, user, w, key, r[i].key);
    }
  }

  /** `getDaily`: rows per UTC day of the `buildDateMatch` window. */
  function Daily(db: Store, user: Id, q: DateQuery): (r: seq<Row>)
    ensures StrictlyAscending(Keys(r, RowKey))
    ensures forall i :: 0 <= i < |r| ==> RecordWithKey(db, user, BuildDateMatch(q), DayOf, r[i].key)
    ensures IsReport(db, user, BuildDateMatch(q), DayOf, r)
  {
    ReportRowKeys(db, user, BuildDateMatch(q), DayOf);
    Report(db, user, BuildDateMatch(q), DayOf)
  }

  datatype MonthlyBody = MonthlyBody(year: int, monthly: seq<Row>)

  /** `parseInt(year, 10) || <current year>`. */
  function ReportYear(year: Option<string>, currentYear: int): (y: int)
    ensures year.None? ==> y == currentYear
    ensures y == 0 ==> currentYear == 0
  {
    var p := if year.Some? then ParseInt(year.value) else None;
    if p.None? || p.value == 0 then currentYear else p.value
  }

  lemma {:induction false} ReportYearOfDecimal(k: int, currentYear: int)
    requires k != 0
    ensures ReportYear(Some(IntToDecimal(k)), currentYear) == k
  {
    ParseIntOfDecimalExact(k);
  }

  /** `getMonthly`: the rows of one calendar year (`currentYear` stands for
      `new Date().getFullYear()`). */
  function Monthly(db: Store, user: Id, year: Option<string>, currentYear: int): (r: MonthlyBody)
    ensures r.year == ReportYear(year, currentYear)
    ensures StrictlyAscending(Keys(r.monthly, RowKey))
    ensures forall i :: 0 <= i < |r.monthly| ==> RecordWithKey(db, user, Some(YearWindow(r.year)), MonthOf, r.monthly[i].key)
    ensures IsReport(db, user, Some(YearWindow(r.year)), MonthOf, r.monthly)
  {
    var y := ReportYear(year, currentYear);
    ReportRowKeys(db, user, Some(YearWindow(y)), MonthOf);
    MonthlyBody(y, Report(db, user, Some(YearWindow(y)), MonthOf))
  }

  /** Every month key of the monthly report names a month of the report's
      year (as `Date.UTC` reads it). */
  lemma {:induction false} MonthlyKeysInYear(db: Store, user: Id, year: Option<string>, currentYear: int, i: int)
    requires 0 <= i < |Monthly(db, user, year, currentYear).monthly|
    ensures var r := Monthly(db, user, year, currentYear);
      exists m :: 1 <= m <= 12 && r.monthly[i].key == YearText(EffectiveYear(r.year)) + "-" + TwoDigits(m)
  {
    var r := Monthly(db, user, year, currentYear);
    var y := r.year;
    var k := r.monthly[i].key;
    assert RecordWithKey(db, user, Some(YearWindow(y)), MonthOf, k);
    var t :| (t in db.incomes || t in db.expenses) && Selected(user, Some(YearWindow(y)), t) && MonthOf(t) == k;
    var m := MonthKeyInYear(t, y);
  }

  /** The month key of a date inside the window of year `y` is a month of that year. */
  lemma {:induction false} MonthKeyInYear(t: Tx, y: int) returns (m: int)
    requires InWindow(Some(YearWindow(y)), t.date)
    ensures 1 <= m <= 12 && MonthOf(t) == YearText(EffectiveYear(y)) + "-" + TwoDigits(m)
  {
    YearWindowIff(y, t.date);
    CivilFromDaysValid(t.date / MsPerDay);
    m := CivilOfInstant(t.date).month;
  }


  /** One bound of `getYearly`: absent when the parameter is falsy; a
      parameter `parseInt` cannot read gives an Invalid Date, which the
      driver encodes as the epoch. */
  function YearBound(p: Option<string>, upper: bool): (r: Option<int>)
    ensures r.None? <==> !Truthy(p)
    ensures Truthy(p) && ParseInt(p.value).None? ==> r == Some(0)
  {
    if !Truthy(p) then None
    else match ParseInt(p.value)
      case None => Some(0)
      case Some(y) => Some(if upper then DateUtc(y, 11, 31, 23, 59, 59, 999) else DateUtc(y, 0, 1, 0, 0, 0, 0))
  }

  function YearlyWindow(startYear: Option<string>, endYear: Option<string>): (r: Option<Window>)
    ensures r.None? <==> !Truthy(startYear) && !Truthy(endYear)
  {
    var lo := YearBound(startYear, false);
    var hi := YearBound(endYear, true);
    if lo.None? && hi.None? then None else Some(Window(lo, hi))
  }

  /** The year a readable parameter names; `None` when it is falsy. */
  function ParsedYear(p: Option<string>): Option<int>
  {
    if Truthy(p) && ParseInt(p.value).Some? then Some(ParseInt(p.value).value) else None
  }

  /** With readable (or absent) bounds the yearly window keeps exactly the
      instants whose UTC year lies between the two years. */
  lemma {:induction false} YearlyWindowIff(startYear: Option<string>, endYear: Option<string>, t: int)
    requires Truthy(startYear) ==> ParseInt(startYear.value).Some?
    requires Truthy(endYear) ==> ParseInt(endYear.value).Some?
    ensures InWindow(YearlyWindow(startYear, endYear), t) <==>
      && (ParsedYear(startYear).None? || CivilOfInstant(t).year >= EffectiveYear(ParsedYear(startYear).value))
      && (ParsedYear(endYear).None? || CivilOfInstant(t).year <= EffectiveYear(ParsedYear(endYear).value))
  {
    assert YearlyWindow(startYear, endYear) == YearRangeWindow(ParsedYear(startYear), ParsedYear(endYear));
    YearRangeIff(ParsedYear(startYear), ParsedYear(endYear), t);
  }

  /** `getYearly`: rows per UTC year within the optional year range. */
  function Yearly(db: Store, user: Id, startYear: Option<string>, endYear: Option<string>): (r: seq<Row>)
    ensures StrictlyAscending(Keys(r, RowKey))
    ensures forall i :: 0 <= i < |r| ==> RecordWithKey(db, user, YearlyWindow(startYear, endYear), YearOf, r[i].key)
    ensures IsReport(db, user, YearlyWindow(startYear, endYear), YearOf, r)
  {
    ReportRowKeys(db, user, YearlyWindow(startYear, endYear), YearOf);
    Report(db, user, YearlyWindow(startYear, endYear), YearOf)
  }

  // ---------------------------------------------------------------------
  // Category breakdown

  datatype BreakdownRow = BreakdownRow(categoryId: Id, category: Option<Category>, total: int, count: int)

  datatype BreakdownBody = BreakdownBody(kind: string, breakdown: seq<BreakdownRow>)

  function CategoryOf(t: Tx): string { t.category }
  function RowTotal(b: BreakdownRow): int { b.total }
  function RowCount(b: BreakdownRow): int { b.count }
  function RowCategory(b: BreakdownRow): string { b.categoryId }

  /** `{ total: -1 }`. */
  predicate LargerFirst(a: BreakdownRow, b: BreakdownRow)
  {
    a.total >= b.total
  }

  lemma {:induction false} LargerFirstOrder()
    ensures TotalPreorder(LargerFirst)
  {
  }

  /** `$sort: { total: -1 }`. */
  function SortLargest(rows: seq<BreakdownRow>): (r: seq<BreakdownRow>)
    ensures multiset(r) == multiset(rows) && |r| == |rows|
    ensures Sorted(r, LargerFirst)
  {
    LargerFirstOrder();
    Sort(rows, LargerFirst)
  }

  /** The collection a breakdown reads: incomes only for "income". */
  function BreakdownKind(kind: Option<string>): (k: Kind)
    ensures k == Income <==> kind == Some("income")
  {
    if kind == Some("income") then Income else Expense
  }

  /** The breakdown rows before the final sort: one per category id, in
      ascending id order. */
  function CategoryRows(cs: seq<Category>, bs: seq<Bucket>): (r: seq<BreakdownRow>)
    ensures |r| == |bs|
    ensures forall i :: 0 <= i < |r| ==>
      r[i] == BreakdownRow(bs[i].key, LookupCategory(cs, bs[i].key), bs[i].total, bs[i].count)
  {
    seq(|bs|, i requires 0 <= i < |bs| => BreakdownRow(bs[i].key, LookupCategory(cs, bs[i].key), bs[i].total, bs[i].count))
  }

  /** The breakdown rows of the selected records `xs`: one row per category
      id, with the sum and number of the records citing it and the category
      document (kept as `None` when it is gone), largest total first. */
  function BreakdownRows(cs: seq<Category>, xs: seq<Tx>): (r: seq<BreakdownRow>)
    ensures Sorted(r, LargerFirst)
    ensures forall i, j :: 0 <= i < j < |r| ==> r[i].categoryId != r[j].categoryId
    ensures forall k :: k in Keys(r, RowCategory) <==> k in KeySet(xs, CategoryOf)
    ensures forall i :: 0 <= i < |r| ==>
      && r[i].total == SumWhere(xs, CategoryOf, Amount, r[i].categoryId)
      && r[i].count == SumWhere(xs, CategoryOf, One, r[i].categoryId)
      && r[i].category == LookupCategory(cs, r[i].categoryId)
  {
    var groups := GroupByKey(xs, CategoryOf, Amount);
    var rows := CategoryRows(cs, groups);
    var sorted := SortLargest(rows);
    BreakdownFacts(xs, groups, rows, sorted);
    forall i | 0 <= i < |sorted|
      ensures && sorted[i].total == SumWhere(xs, CategoryOf, Amount, sorted[i].categoryId)
              && sorted[i].count == SumWhere(xs, CategoryOf, One, sorted[i].categoryId)
              && sorted[i].category == LookupCategory(cs, sorted[i].categoryId)
    {
      RowOfGroups(cs, xs, sorted[i]);
    }
    sorted
  }

  /** Each row built from the grouped records carries its category's sums. */
  lemma {:induction false} RowOfGroups(cs: seq<Category>, xs: seq<Tx>, b: BreakdownRow)
    requires b in CategoryRows(cs, GroupByKey(xs, CategoryOf, Amount))
    ensures b.total == SumWhere(xs, CategoryOf, Amount, b.categoryId)
    ensures b.count == SumWhere(xs, CategoryOf, One, b.categoryId)
    ensures b.category == LookupCategory(cs, b.categoryId)
  {
    var groups := GroupByKey(xs, CategoryOf, Amount);
    var rows := CategoryRows(cs, groups);
    var j :| 0 <= j < |rows| && rows[j] == b;
    assert b == BreakdownRow(groups[j].key, LookupCategory(cs, groups[j].key), groups[j].total, groups[j].count);
  }

  /** `getCategoryBreakdown`: the collection "income" names, or expenses
      for anything else, restricted to the user and the explicit date
      bounds, broken down by category. */
  function Breakdown(db: Store, user: Id, kind: Option<string>, startDate: Option<int>, endDate: Option<int>): (r: BreakdownBody)
    ensures r.kind == kind.GetOr("expense")
    ensures r.breakdown == BreakdownRows(db.categories,
      Matching(Collection(db, BreakdownKind(kind)), user, BuildDateMatch(DateQuery(startDate, endDate, None, None))))
  {
    var xs := Matching(Collection(db, BreakdownKind(kind)), user, BuildDateMatch(DateQuery(startDate, endDate, None, None)));
    BreakdownBody(kind.GetOr("expense"), BreakdownRows(db.categories, xs))
  }

  lemma {:induction false} BreakdownFacts(xs: seq<Tx>, groups: seq<Bucket>, rows: seq<BreakdownRow>, sorted: seq<BreakdownRow>)
    requires groups == GroupByKey(xs, CategoryOf, Amount)
    requires |rows| == |groups|
    requires forall i :: 0 <= i < |rows| ==>
      rows[i].categoryId == groups[i].key && rows[i].total == groups[i].total && rows[i].count == groups[i].count
    requires multiset(sorted) == multiset(rows)
    ensures forall i, j :: 0 <= i < j < |sorted| ==> sorted[i].categoryId != sorted[j].categoryId
    ensures forall k :: k in Keys(sorted, RowCategory) <==> k in KeySet(xs, CategoryOf)
    ensures forall b :: b in sorted ==> b in rows
  {
    assert Keys(rows, RowCategory) == Keys(groups, BucketKey);
    forall b | b in sorted ensures b in rows {
      assert b in multiset(sorted);
    }
    forall i, j | 0 <= i < j < |sorted| ensures sorted[i].categoryId != sorted[j].categoryId {
      MultisetDistinctKeys(rows, sorted, i, j);
    }
    forall k ensures k in Keys(sorted, RowCategory) <==> k in KeySet(xs, CategoryOf) {
      if k in Keys(sorted, RowCategory) {
        var i :| 0 <= i < |sorted| && Keys(sorted, RowCategory)[i] == k;
        assert sorted[i] in multiset(rows);
        var j :| 0 <= j < |rows| && rows[j] == sorted[i];
        assert Keys(rows, RowCategory)[j] == k;
      }
      if k in KeySet(xs, CategoryOf) {
        assert k in Keys(rows, RowCategory);
        var j :| 0 <= j < |rows| && Keys(rows, RowCategory)[j] == k;
        assert rows[j] in multiset(sorted);
        var i :| 0 <= i < |sorted| && sorted[i] == rows[j];
        assert Keys(sorted, RowCategory)[i] == k;
      }
    }
  }

  /** Rows with strictly ascending ids stay duplicate-free under any permutation. */
  lemma {:induction false} MultisetDistinctKeys(rows: seq<BreakdownRow>, sorted: seq<BreakdownRow>, i: int, j: int)
    requires StrictlyAscending(Keys(rows, RowCategory))
    requires multiset(sorted) == multiset(rows)
    requires 0 <= i < j < |sorted|
    ensures sorted[i].categoryId != sorted[j].categoryId
  {
    assert sorted[i] in multiset(rows);
    assert sorted[j] in multiset(rows);
    var a :| 0 <= a < |rows| && rows[a] == sorted[i];
    var b :| 0 <= b < |rows| && rows[b] == sorted[j];
    if a == b {
      // the same row twice in `sorted` means it occurs twice in `rows`
      assert multiset(sorted)[sorted[i]] >= 2 by {
        assert multiset(sorted[..j])[sorted[i]] >= 1 by { assert sorted[..j][i] == sorted[i]; }
        assert sorted == sorted[..j] + sorted[j..];
        assert sorted[j..][0] == sorted[j];
      }
      RowsOccurOnce(rows, a);
    } else {
      assert Keys(rows, RowCategory)[a] == rows[a].categoryId;
      assert Keys(rows, RowCategory)[b] == rows[b].categoryId;
      if a < b { AscendingDistinct(Keys(rows, RowCategory), a, b); }
      else { AscendingDistinct(Keys(rows, RowCategory), b, a); }
    }
  }

  lemma {:induction false} RowsOccurOnce(rows: seq<BreakdownRow>, a: int)
    requires StrictlyAscending(Keys(rows, RowCategory))
    requires 0 <= a < |rows|
    ensures multiset(rows)[rows[a]] == 1
    decreases |rows|
  {
    var init := rows[..|rows| - 1];
    var last := rows[|rows| - 1];
    assert rows == init + [last];
    assert Keys(init, RowCategory) == Keys(rows, RowCategory)[..|rows| - 1];
    if a < |rows| - 1 {
      RowsOccurOnce(init, a);
      assert Keys(rows, RowCategory)[a] == rows[a].categoryId;
      AscendingDistinct(Keys(rows, RowCategory), a, |rows| - 1);
    } else {
      if last in init {
        var p :| 0 <= p < |init| && init[p] == last;
        assert Keys(rows, RowCategory)[p] == rows[p].categoryId;
        AscendingDistinct(Keys(rows, RowCategory), p, |rows| - 1);
      }
      assert multiset(init)[last] == 0;
    }
  }

  /** Reconciliation of the breakdown: the category totals add up to the
      total of the selected records and the counts to their number. */
  lemma {:induction false} BreakdownReconciles(db: Store, user: Id, kind: Option<string>, startDate: Option<int>, endDate: Option<int>)
    ensures var r := Breakdown(db, user, kind, startDate, endDate);
      var xs := Matching(Collection(db, BreakdownKind(kind)), user, BuildDateMatch(DateQuery(startDate, endDate, None, None)));
      && SumAll(r.breakdown, RowTotal) == SumAll(xs, Amount)
      && SumAll(r.breakdown, RowCount) == |xs|
  {
    var xs := Matching(Collection(db, BreakdownKind(kind)), user, BuildDateMatch(DateQuery(startDate, endDate, None, None)));
    BreakdownRowsReconcile(db.categories, xs);
  }

  lemma {:induction false} BreakdownRowsReconcile(cs: seq<Category>, xs: seq<Tx>)
    ensures SumAll(BreakdownRows(cs, xs), RowTotal) == SumAll(xs, Amount)
    ensures SumAll(BreakdownRows(cs, xs), RowCount) == |xs|
  {
    var groups := GroupByKey(xs, CategoryOf, Amount);
    var rows := CategoryRows(cs, groups);
    var sorted := SortLargest(rows);
    assert Keys(rows, RowCategory) == Keys(groups, BucketKey);
    SumAllPermutation(sorted, rows, RowTotal);
    SumAllPermutation(sorted, rows, RowCount);
    SumOfRows(rows, RowCategory, RowTotal, xs, CategoryOf, Amount);
    SumOfRows(rows, RowCategory, RowCount, xs, CategoryOf, One);
    forall k | k in KeySet(xs, CategoryOf) ensures k in Keys(rows, RowCategory) {
      assert k in Keys(groups, BucketKey);
    }
    SumOverKeysTotal(xs, CategoryOf, Amount, Keys(rows, RowCategory));
    SumOverKeysTotal(xs, CategoryOf, One, Keys(rows, RowCategory));
    SumAllOne(xs);
  }

  // ---------------------------------------------------------------------
  // Paginated combined listing

  datatype PageQuery = PageQuery(
    page: Option<string>,
    limit: Option<string>,
    startDate: Option<int>,
    endDate: Option<int>,
    kind: Option<string>)

  datatype PageBody = PageBody(page: int, limit: int, total: int, transactions: seq<Listed>)

  /** `Math.max(parseInt(page || "1", 10), 1)`, a falsy parameter reading as
      1 directly; `None` is `NaN`. */
  function PageNumber(page: Option<string>): (r: Option<int>)
    ensures r.Some? ==> r.value >= 1
    ensures !Truthy(page) ==> r == Some(1)
    ensures r.None? <==> Truthy(page) && ParseInt(page.value).None?
  {
    if !Truthy(page) then Some(1)
    else match ParseInt(page.value)
      case None => None
      case Some(p) => Some(Max(p, 1))
  }

  /** `Math.min(parseInt(limit || "20", 10), 200)`, a falsy parameter
      reading as 20 directly; `None` is `NaN`. */
  function PageLimit(limit: Option<string>): (r: Option<int>)
    ensures r.Some? ==> r.value <= 200
    ensures !Truthy(limit) ==> r == Some(20)
    ensures r.None? <==> Truthy(limit) && ParseInt(limit.value).None?
  {
    if !Truthy(limit) then Some(20)
    else match ParseInt(limit.value)
      case None => None
      case Some(l) => Some(Min(l, 200))
  }

  /** `type` restricts the listing only when it is "income" or "expense". */
  predicate KindSelected(kind: Option<string>, e: Entry)
  {
    (kind != Some("income") && kind != Some("expense")) || kind == Some(KindName(e.kind))
  }

  /** The date condition of the listing: explicit bounds only. */
  function PageWindow(q: PageQuery): Option<Window>
  {
    BuildDateMatch(DateQuery(q.startDate, q.endDate, None, None))
  }

  /** The whole listing before pagination, newest first. */
  function Listing(db: Store, user: Id, w: Option<Window>, kind: Option<string>): (r: seq<Entry>)
    ensures Sorted(r, NewestFirst)
    ensures forall e :: e in r <==>
      e.tx in Collection(db, e.kind) && e.tx.user == user && InWindow(w, e.tx.date) && KindSelected(kind, e)
  {
    var c := Candidates(db, user, w);
    var f := Filter(c, e => KindSelected(kind, e));
    var r := SortNewest(f);
    assert forall e :: e in r <==> e in f by {
      forall e ensures e in r <==> e in f {
        assert e in r <==> e in multiset(r);
        assert e in f <==> e in multiset(f);
      }
    }
    assert forall e :: e in f <==> e in c && KindSelected(kind, e) by {
      forall e ensures e in f <==> e in c && KindSelected(kind, e) {
        FilterMembers(c, e => KindSelected(kind, e), e);
      }
    }
    r
  }

  /** The listing holds each selected record of a wanted kind exactly as
      often as its collection does, so its length is the number of matches. */
  lemma {:induction false} ListingCount(db: Store, user: Id, w: Option<Window>, kind: Option<string>, e: Entry)
    ensures multiset(Listing(db, user, w, kind))[e] ==
      (if Selected(user, w, e.tx) && KindSelected(kind, e) then Stored(db, e) else 0)
  {
    var c := Candidates(db, user, w);
    var f := Filter(c, e => KindSelected(kind, e));
    assert Listing(db, user, w, kind) == SortNewest(f);
    CandidatesCount(db, user, w, e);
  }

  /** Entries `skip .. skip + limit` of `s` (`$skip` then `$limit`). */
  function PageSlice<T>(s: seq<T>, skip: nat, limit: nat): (r: seq<T>)
    ensures |r| <= limit
    ensures forall i :: 0 <= i < |r| ==> skip + i < |s| && r[i] == s[skip + i]
    ensures skip + limit <= |s| ==> |r| == limit
    ensures skip < |s| ==> |r| == Min(skip + limit, |s|) - skip
  {
    if skip >= |s| then [] else s[skip..Min(skip + limit, |s|)]
  }

  lemma {:induction false} ProductNonNegative(a: int, b: int)
    requires a >= 0 && b >= 0
    ensures a * b >= 0
  {
  }

  /** Page `page` of `s` with `limit` entries per page (`$skip: (page - 1) * limit`). */
  function Page<T>(s: seq<T>, page: int, limit: int): (r: seq<T>)
    requires page >= 1 && limit >= 1
    ensures |r| <= limit
    ensures forall i :: 0 <= i < |r| ==> (page - 1) * limit + i < |s| && r[i] == s[(page - 1) * limit + i]
  {
    ProductNonNegative(page - 1, limit);
    PageSlice(s, (page - 1) * limit, limit)
  }

  lemma {:induction false} QuotientNonNegative(i: int, l: int)
    requires i >= 0 && l >= 1
    ensures i / l >= 0 && 0 <= i % l < l
  {
  }

  /** The skip of the page holding entry `i` is at most `i`. */
  lemma {:induction false} SkipOfIndex(i: int, l: int)
    requires i >= 0 && l >= 1
    ensures 0 <= (i / l) * l <= i
  {
    QuotientNonNegative(i, l);
    ProductNonNegative(i / l, l);
    assert i == (i / l) * l + i % l;
  }

  /** Entry `i` is item `i % limit` of page `i / limit + 1`. */
  lemma {:induction false} PageOfIndex<T>(s: seq<T>, limit: int, i: int)
    requires limit >= 1 && 0 <= i < |s|
    ensures i % limit < |Page(s, i / limit + 1, limit)|
    ensures Page(s, i / limit + 1, limit)[i % limit] == s[i]
  {
    var skip := (i / limit) * limit;
    assert skip + i % limit == i;
    assert (i / limit + 1 - 1) * limit == skip;
    ProductNonNegative(i / limit, limit);
    assert Page(s, i / limit + 1, limit) == PageSlice(s, skip, limit);
  }

  /** The largest `$skip` the server accepts: a 64-bit signed integer. */
  const MaxSkip: int := 0x7FFF_FFFF_FFFF_FFFF

  /** `$skip: (page - 1) * limit` fits the 64-bit range the server accepts. */
  predicate SkipInRange(page: int, limit: int)
  {
    (page - 1) * limit <= MaxSkip
  }

  /** `getTransactions`: the newest-first listing, one page of it, and the
      size of the whole listing. A limit that is not a positive number, a
      page that is not a number, or a skip beyond the 64-bit range makes the
      aggregation fail. */
  function Transactions(db: Store, user: Id, q: PageQuery): (r: Response<PageBody>)
    ensures r.Ok? <==>
      && PageNumber(q.page).Some? && PageLimit(q.limit).Some? && PageLimit(q.limit).value >= 1
      && SkipInRange(PageNumber(q.page).value, PageLimit(q.limit).value)
    ensures r.Err? ==> r == Err(500, QueryFailed)
    ensures r.Ok? ==>
      && r.status == 200
      && r.body.page == PageNumber(q.page).value
      && r.body.limit == PageLimit(q.limit).value
      && 1 <= r.body.limit <= 200
      && r.body.total == |Listing(db, user, PageWindow(q), q.kind)|
      && r.body.transactions == JoinAll(db.categories, Page(Listing(db, user, PageWindow(q), q.kind), r.body.page, r.body.limit))
  {
    var page := PageNumber(q.page);
    var limit := PageLimit(q.limit);
    if page.None? || limit.None? || limit.value < 1 || !SkipInRange(page.value, limit.value) then
      Err(500, QueryFailed)
    else
      var all := Listing(db, user, PageWindow(q), q.kind);
      Ok(200, PageBody(page.value, limit.value, |all|, JoinAll(db.categories, Page(all, page.value, limit.value))))
  }

  /** A decimal page number is read as written, and one below 1 becomes 1. */
  lemma {:induction false} PageNumberOfDecimal(p: int)
    ensures PageNumber(Some(IntToDecimal(p))) == Some(Max(p, 1))
    ensures p >= 1 ==> PageNumber(Some(IntToDecimal(p))) == Some(p)
  {
    ParseIntOfDecimalExact(p);
    assert |IntToDecimal(p)| > 0;
  }

  /** A decimal limit is read as written and capped at 200. */
  lemma {:induction false} PageLimitOfDecimal(l: int)
    ensures PageLimit(Some(IntToDecimal(l))) == Some(Min(l, 200))
  {
    ParseIntOfDecimalExact(l);
    assert |IntToDecimal(l)| > 0;
  }

  /** The records of the kinds `kind` wants, as a multiset. */
  function WantedRecords(inc: seq<Tx>, exp: seq<Tx>, kind: Option<string>): multiset<Entry>
  {
    (if kind != Some("expense") then multiset(Tag(Income, inc)) else multiset{}) +
    (if kind != Some("income") then multiset(Tag(Expense, exp)) else multiset{})
  }

  lemma {:induction false} KindFilterCount(inc: seq<Tx>, exp: seq<Tx>, kind: Option<string>, x: Entry)
    ensures multiset(Filter(Tag(Income, inc) + Tag(Expense, exp), e => KindSelected(kind, e)))[x] ==
      WantedRecords(inc, exp, kind)[x]
  {
    var ti := Tag(Income, inc);
    var te := Tag(Expense, exp);
    TagCount(Income, inc, x);
    TagCount(Expense, exp, x);
    assert multiset(ti + te)[x] == multiset(ti)[x] + multiset(te)[x];
  }

  /** Keeping the wanted kinds of two tagged collections keeps all of each
      wanted one. */
  lemma {:induction false} KindFilterSize(inc: seq<Tx>, exp: seq<Tx>, kind: Option<string>)
    ensures |Filter(Tag(Income, inc) + Tag(Expense, exp), e => KindSelected(kind, e))| ==
      (if kind != Some("expense") then |inc| else 0) + (if kind != Some("income") then |exp| else 0)
  {
    var f := Filter(Tag(Income, inc) + Tag(Expense, exp), e => KindSelected(kind, e));
    forall x ensures multiset(f)[x] == WantedRecords(inc, exp, kind)[x] {
      KindFilterCount(inc, exp, kind, x);
    }
    assert multiset(f) == WantedRecords(inc, exp, kind);
  }

  /** `total` counts every match of the wanted collections, before `$skip`
      and `$limit`. */
  lemma {:induction false} TotalCountsMatches(db: Store, user: Id, q: PageQuery)
    requires Transactions(db, user, q).Ok?
    ensures Transactions(db, user, q).body.total ==
      (if q.kind != Some("expense") then |Matching(db.incomes, user, PageWindow(q))| else 0) +
      (if q.kind != Some("income") then |Matching(db.expenses, user, PageWindow(q))| else 0)
  {
    var w := PageWindow(q);
    var inc := Matching(db.incomes, user, w);
    var exp := Matching(db.expenses, user, w);
    assert Candidates(db, user, w) == Tag(Income, inc) + Tag(Expense, exp);
    KindFilterSize(inc, exp, q.kind);
    assert Listing(db, user, w, q.kind) == SortNewest(Filter(Candidates(db, user, w), e => KindSelected(q.kind, e)));
  }

  /** A page whose skip leaves the 64-bit range makes `$skip` fail, however
      few entries the listing has. */
  lemma {:induction false} SkipBeyondRangeFails(db: Store, user: Id, q: PageQuery, p: int, l: int)
    requires PageLimit(q.limit) == Some(l) && l >= 1
    requires p >= 1 && (p - 1) * l > MaxSkip
    ensures Transactions(db, user, q.(page := Some(IntToDecimal(p)))) == Err(500, QueryFailed)
  {
    var q' := q.(page := Some(IntToDecimal(p)));
    PageNumberOfDecimal(p);
    assert PageNumber(q'.page) == Some(p) && PageLimit(q'.limit) == Some(l);
    assert !SkipInRange(p, l);
  }

  /** Every entry of the listing is shown on exactly the page its position
      says: entry `i` is item `i % limit` of page `i / limit + 1`. */
  lemma {:induction false} EntryOnItsPage(db: Store, user: Id, q: PageQuery, l: int, i: int)
    requires PageLimit(q.limit) == Some(l) && l >= 1
    requires 0 <= i < |Listing(db, user, PageWindow(q), q.kind)| && i <= MaxSkip
    ensures var r := Transactions(db, user, q.(page := Some(IntToDecimal(i / l + 1))));
      && r.Ok?
      && r.body.page == i / l + 1
      && i % l < |r.body.transactions|
      && r.body.transactions[i % l] == Join(db.categories, Listing(db, user, PageWindow(q), q.kind)[i])
  {
    QuotientNonNegative(i, l);
    var p := i / l + 1;
    var q' := q.(page := Some(IntToDecimal(p)));
    PageNumberOfDecimal(p);
    SkipOfIndex(i, l);
    assert PageNumber(q'.page) == Some(p) && p - 1 == i / l;
    assert SkipInRange(PageNumber(q'.page).value, l);
    assert PageWindow(q') == PageWindow(q);
    PageOfIndex(Listing(db, user, PageWindow(q), q.kind), l, i);
  }
}
