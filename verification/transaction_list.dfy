/** `getAllTransactions`: the older combined listing. Incomes and expenses of
    the signed-in user are fetched (each kind only when the `type` parameter
    asks for it), optionally restricted to one local day or one local month,
    tagged with their kind, merged newest date first and cut to `limit`.
    The server is taken to run in UTC, so that `new Date(y, m, d, ...)` and
    `Date.UTC(y, m, d, ...)` name the same instant. */
module TransactionList {
  import opened Base
  import opened JsString
  import opened Sorting
  import opened CivilTime
  import opened Records
  import opened DateMatch
  import opened Entries

  // ---------------------------------------------------------------------
  // Date arithmetic of a server running in UTC

  /** `d.setHours(23, 59, 59, 999)`: the last millisecond of the day of `t`. */
  function DayEnd(t: int): (r: int)
    ensures r / MsPerDay == t / MsPerDay
    ensures r % MsPerDay == MsPerDay - 1
    ensures t <= r
  {
    (t / MsPerDay) * MsPerDay + MsPerDay - 1
  }

  // ---------------------------------------------------------------------
  // The date condition of `buildQuery`

  /** The `date` query parameter: missing or empty (falsy), a string that
      `new Date` cannot read, or the instant it reads. */
  datatype DateArg = NoDate | BadDate | OnDate(instant: int)

  /** The `date` condition a query carries: none, a window, or a window with
      an Invalid Date bound, which Mongoose refuses to cast. */
  datatype DateFilter = NoFilter | Within(w: Window) | InvalidDate

  function AsCondition(f: DateFilter): Option<Window>
  {
    if f.Within? then Some(f.w) else None
  }

  /** `date`: from the instant itself to the end of its day. */
  function DayFilter(t: int): (r: DateFilter)
    ensures r != NoFilter
    ensures r.Within? <==> Clip(t).Some? && Clip(DayEnd(t)).Some?
    ensures r.Within? ==> r.w == Window(Some(t), Some(DayEnd(t)))
  {
    var start := Clip(t);
    var end := Clip(DayEnd(t));
    if start.Some? && end.Some? then Within(Window(Some(t), Some(end.value))) else InvalidDate
  }

  /** The instants of one day: those from `t` on that fall on the calendar day of `t`. */
  lemma {:induction false} DayFilterIff(t: int, x: int)
    requires DayFilter(t).Within?
    ensures InWindow(AsCondition(DayFilter(t)), x) <==> t <= x && x / MsPerDay == t / MsPerDay
  {
    var e := DayEnd(t);
    if t <= x && x / MsPerDay == t / MsPerDay {
      assert x % MsPerDay <= MsPerDay - 1;
    }
    if t <= x <= e {
      assert x / MsPerDay <= e / MsPerDay;
      assert t / MsPerDay <= x / MsPerDay;
    }
  }

  /** The two pieces `const [year, monthValue] = month.split("-")` reads;
      a missing piece is `undefined`, written `None`. */
  function MonthParts(month: string): (r: (string, Option<string>))
    ensures var parts := Split(month, '-');
      r.0 == parts[0] && (r.1.Some? <==> |parts| >= 2) && (r.1.Some? ==> r.1.value == parts[1])
  {
    var parts := Split(month, '-');
    (parts[0], if |parts| >= 2 then Some(parts[1]) else None)
  }

  /** The numbers `new Date(year, monthValue - 1, ...)` computes with:
      `Number` of each piece; `None` when either is `NaN`. */
  function MonthNumbers(month: string): (r: Option<(int, int)>)
    ensures r.Some? <==>
      && MonthParts(month).1.Some?
      && NumberValue(MonthParts(month).0).Some?
      && NumberValue(MonthParts(month).1.value).Some?
    ensures r.Some? ==>
      && MonthParts(month).1.Some?
      && NumberValue(MonthParts(month).0) == Some(r.value.0)
      && NumberValue(MonthParts(month).1.value) == Some(r.value.1)
  {
    var (y, mv) := MonthParts(month);
    if mv.None? then None
    else
      var yn := NumberValue(y);
      var mn := NumberValue(mv.value);
      if yn.Some? && mn.Some? then Some((yn.value, mn.value)) else None
  }

  /** `new Date(y, mv, 0, 23, 59, 59)` as the source writes the end of the
      month: no milliseconds, so 23:59:59.000 on the month's last day. */
  function AsWrittenMonthWindow(y: int, mv: int): (r: Window)
    ensures r.from.Some? && r.to.Some?
    ensures r.to.value + 1000 == DateUtc(y, mv, 1, 0, 0, 0, 0)
  {
    Window(Some(DateUtc(y, mv - 1, 1, 0, 0, 0, 0)), Some(DateUtc(y, mv, 0, 23, 59, 59, 0)))
  }

  /** The month condition from year and month numbers: the window unless
      one of its ends lies outside the time range. */
  function MonthBounds(w: Window): (r: DateFilter)
    requires w.from.Some? && w.to.Some?
    ensures r != NoFilter
    ensures r.Within? <==> Clip(w.from.value).Some? && Clip(w.to.value).Some?
    ensures r.Within? ==> r.w == w
  {
    if Clip(w.from.value).Some? && Clip(w.to.value).Some? then Within(w) else InvalidDate
  }

  /** `month`, as the source writes it: from `new Date(year, monthValue - 1, 1)`
      to `new Date(year, monthValue, 0, 23, 59, 59)`, which is 23:59:59.000 on
      the month's last day, so 999 ms short of the month's end; an Invalid
      Date when either piece is not a number or an end is out of range. */
  function MonthFilter(month: string): (r: DateFilter)
    ensures r != NoFilter
    ensures MonthNumbers(month).None? ==> r == InvalidDate
    ensures r.Within? ==>
      && MonthNumbers(month).Some?
      && r.w.from == MonthWindow(MonthNumbers(month).value.0, MonthNumbers(month).value.1).from
      && r.w.to.Some?
      && r.w.to.value + 999 == MonthWindow(MonthNumbers(month).value.0, MonthNumbers(month).value.1).to.value
    ensures MonthNumbers(month).Some? ==>
      var w := AsWrittenMonthWindow(MonthNumbers(month).value.0, MonthNumbers(month).value.1);
      (r.Within? <==> Clip(w.from.value).Some? && Clip(w.to.value).Some?)
  {
    match MonthNumbers(month)
    case None => InvalidDate
    case Some((y, mv)) =>
      WindowEdge(y, mv);
      MonthBounds(AsWrittenMonthWindow(y, mv))
  }

  /** The month filter as written passes exactly the instants of the named
      month except those of its last 999 ms. */
  lemma {:induction false} MonthFilterIff(month: string, t: int)
    requires MonthFilter(month).Within?
    ensures var p := MonthNumbers(month).value;
      (InWindow(AsCondition(MonthFilter(month)), t) <==>
        (NamesMonth(CivilOfInstant(t), p.0, p.1) && t + 999 <= MonthWindow(p.0, p.1).to.value))
  {
    var p := MonthNumbers(month).value;
    MonthWindowIff(p.0, p.1, t);
  }

  /** The month filter evidently intended: the same window, ending at the
      month's last millisecond (23:59:59.999), as the dashboard's
      `MonthWindow` and the day filter's `setHours(23, 59, 59, 999)` do. */
  function CorrectedMonthFilter(month: string): (r: DateFilter)
    ensures r != NoFilter
    ensures MonthNumbers(month).None? ==> r == InvalidDate
    ensures r.Within? ==>
      MonthNumbers(month).Some?
      && r.w == MonthWindow(MonthNumbers(month).value.0, MonthNumbers(month).value.1)
  {
    match MonthNumbers(month)
    case None => InvalidDate
    case Some((y, mv)) => MonthBounds(MonthWindow(y, mv))
  }

  /** With numeric pieces and a valid window, an instant passes the corrected
      month filter exactly when its calendar month is the one named (after
      `new Date` has moved a month number outside 1..12 into a neighbouring
      year and read a year 0..99 as 19xx). */
  lemma {:induction false} CorrectedMonthFilterIff(month: string, t: int)
    requires CorrectedMonthFilter(month).Within?
    ensures var p := MonthNumbers(month).value;
      InWindow(AsCondition(CorrectedMonthFilter(month)), t) <==> NamesMonth(CivilOfInstant(t), p.0, p.1)
  {
    var p := MonthNumbers(month).value;
    MonthWindowIff(p.0, p.1, t);
  }

  /** The window as written stops 999 ms short: it shares the corrected
      window's start, ends 999 ms before it, and misses the instant one
      millisecond after its end, which still lies in the requested month. */
  lemma {:induction false} WindowMissesLastSecond(y: int, mv: int)
    ensures AsWrittenMonthWindow(y, mv).from == MonthWindow(y, mv).from
    ensures AsWrittenMonthWindow(y, mv).to.value + 999 == MonthWindow(y, mv).to.value
    ensures var t := AsWrittenMonthWindow(y, mv).to.value + 1;
      && !InWindow(Some(AsWrittenMonthWindow(y, mv)), t)
      && InWindow(Some(MonthWindow(y, mv)), t)
      && NamesMonth(CivilOfInstant(t), y, mv)
  {
    WindowEdge(y, mv);
    var t := AsWrittenMonthWindow(y, mv).to.value + 1;
    MonthWindowIff(y, mv, t);
  }

  lemma {:induction false} WindowEdge(y: int, mv: int)
    ensures AsWrittenMonthWindow(y, mv).from == MonthWindow(y, mv).from
    ensures AsWrittenMonthWindow(y, mv).to.value + 999 == MonthWindow(y, mv).to.value
    ensures var t := AsWrittenMonthWindow(y, mv).to.value + 1;
      !InWindow(Some(AsWrittenMonthWindow(y, mv)), t) && InWindow(Some(MonthWindow(y, mv)), t)
  {
    MonthWindowWide(y, mv);
  }

  /** A month window spans more than a second. */
  lemma {:induction false} MonthWindowWide(y: int, mv: int)
    ensures MonthWindow(y, mv).from.value + 1000 <= MonthWindow(y, mv).to.value
  {
    var year := EffectiveYear(y) + (mv - 1) / 12;
    var month := (mv - 1) % 12 + 1;
    MonthWindowStart(y, mv, year, month);
    MonthWindowEnd(y, mv, year, month);
    MonthLength(year, month);
  }

  /** `month=2026-02` as the client formats it names that month. */
  lemma {:induction false} MonthNumbersOfKey(y: nat, m: nat)
    ensures MonthNumbers(PadDecimal(y, 4) + "-" + PadDecimal(m, 2)) == Some((y, m))
  {
    var a := PadDecimal(y, 4);
    var b := PadDecimal(m, 2);
    DigitsHaveNoDash(a);
    DigitsHaveNoDash(b);
    assert a + "-" + b == JoinWith([a, b], '-') by {
      assert [a, b][1..] == [b];
    }
    SplitOfJoin([a, b], '-');
    NumberOfPadded(y, 4);
    NumberOfPadded(m, 2);
  }

  // ---------------------------------------------------------------------
  // The query

  /** The query parameters of `getAllTransactions`. */
  datatype ListQuery = ListQuery(
    kind: Option<string>,
    date: DateArg,
    month: Option<string>,
    limit: Option<string>)

  /** `Number(limit) || 0`: a missing, empty or non-numeric limit is 0. */
  function ListLimit(limit: Option<string>): (n: int)
    ensures limit.None? ==> n == 0
    ensures limit.Some? && NumberValue(limit.value).None? ==> n == 0
    ensures limit.Some? && NumberValue(limit.value).Some? ==> n == NumberValue(limit.value).value
  {
    if limit.None? then 0 else NumberValue(limit.value).GetOr(0)
  }

  /** `!type || type === "all" || type === <kind>`. */
  predicate Wanted(kind: Option<string>, k: Kind)
    ensures !Truthy(kind) || kind.value == "all" ==> Wanted(kind, k)
    ensures Wanted(kind, k) && Truthy(kind) && kind.value != "all" ==> kind.value == KindName(k)
    ensures Truthy(kind) && kind.value == KindName(k) ==> Wanted(kind, k)
  {
    !Truthy(kind) || kind.value == "all" || kind.value == KindName(k)
  }

  /** `buildQuery`'s date condition: the month window replaces the day window
      because it is assigned last. */
  function ListFilter(q: ListQuery): (r: DateFilter)
    ensures r == NoFilter <==> !Truthy(q.month) && q.date.NoDate?
    ensures Truthy(q.month) ==> r == MonthFilter(q.month.value)
    ensures !Truthy(q.month) && q.date.OnDate? ==> r == DayFilter(q.date.instant)
    ensures !Truthy(q.month) && q.date.BadDate? ==> r == InvalidDate
  {
    if Truthy(q.month) then MonthFilter(q.month.value)
    else match q.date
      case NoDate => NoFilter
      case BadDate => InvalidDate
      case OnDate(t) => DayFilter(t)
  }

  /** `Income.find(...).sort({ date: -1 })` (or nothing when the kind is not
      wanted), tagged with the kind. */
  function Fetch(db: Store, user: Id, w: Option<Window>, kind: Option<string>, k: Kind): (r: seq<Entry>)
    ensures multiset(r) == if Wanted(kind, k) then multiset(Tag(k, Matching(Collection(db, k), user, w))) else multiset{}
    ensures forall e :: e in r <==> Wanted(kind, k) && e.kind == k && e.tx in Collection(db, k) && Selected(user, w, e.tx)
  {
    if Wanted(kind, k) then
      var tagged := Tag(k, Matching(Collection(db, k), user, w));
      var r := SortLater(tagged);
      assert forall e :: e in r <==> e in tagged by {
        forall e ensures e in r <==> e in tagged {
          assert e in r <==> e in multiset(r);
          assert e in tagged <==> e in multiset(tagged);
          TagMembers(k, Matching(Collection(db, k), user, w), e);
        }
      }
      r
    else []
  }

  /** `[...incomeTx, ...expenseTx].sort((a, b) => new Date(b.date) - new Date(a.date))`:
      the selected records of every wanted kind, latest date first. */
  function Merged(db: Store, user: Id, w: Option<Window>, kind: Option<string>): (r: seq<Entry>)
    ensures multiset(r) == multiset(Fetch(db, user, w, kind, Income)) + multiset(Fetch(db, user, w, kind, Expense))
    ensures forall e :: e in r <==> Wanted(kind, e.kind) && e.tx in Collection(db, e.kind) && Selected(user, w, e.tx)
    ensures Sorted(r, LaterFirst)
  {
    var inc := Fetch(db, user, w, kind, Income);
    var exp := Fetch(db, user, w, kind, Expense);
    var r := SortLater(inc + exp);
    assert multiset(r) == multiset(inc) + multiset(exp);
    forall e ensures e in r <==> Wanted(kind, e.kind) && e.tx in Collection(db, e.kind) && Selected(user, w, e.tx) {
      UnionMembers(r, inc, exp, e);
    }
    r
  }

  /** `if (parsedLimit) all = all.slice(0, parsedLimit)`: 0 keeps everything,
      a positive `n` keeps the first `n`, a negative `n` drops the last `-n`. */
  function Limited<T>(s: seq<T>, n: int): (r: seq<T>)
    ensures |r| <= |s| && r == s[..|r|]
    ensures n == 0 ==> r == s
    ensures n > 0 ==> |r| == Min(n, |s|)
    ensures n < 0 ==> |r| == Max(|s| + n, 0)
  {
    if n == 0 then s
    else if n > 0 then Take(s, n)
    else s[..Max(|s| + n, 0)]
  }

  /** The answer of `getAllTransactions` for the date condition `w`. */
  function Listing(db: Store, user: Id, w: Option<Window>, kind: Option<string>, n: int): seq<Listed>
  {
    JoinAll(db.categories, Limited(Merged(db, user, w, kind), n))
  }

  /** `getAllTransactions`. A query runs only for a wanted kind; a query with
      an Invalid Date bound fails with 500. */
  function AllTransactions(db: Store, user: Id, q: ListQuery): (r: Response<seq<Listed>>)
    ensures r.Err? <==> (Wanted(q.kind, Income) || Wanted(q.kind, Expense)) && ListFilter(q) == InvalidDate
    ensures r.Err? ==> r == Err(500, QueryFailed)
    ensures r.Ok? ==>
      r.status == 200 && r.body == Listing(db, user, AsCondition(ListFilter(q)), q.kind, ListLimit(q.limit))
  {
    var f := ListFilter(q);
    if (Wanted(q.kind, Income) || Wanted(q.kind, Expense)) && f == InvalidDate then Err(500, QueryFailed)
    else Ok(200, Listing(db, user, AsCondition(f), q.kind, ListLimit(q.limit)))
  }

  // ---------------------------------------------------------------------
  // Properties

  /** Every listed record belongs to the user, comes from a wanted kind's
      collection under that kind's tag, passes the date condition and carries
      its category; the list runs from the latest date to the earliest. */
  lemma {:induction false} ListedAreSelected(db: Store, user: Id, q: ListQuery)
    requires AllTransactions(db, user, q).Ok?
    ensures var r := AllTransactions(db, user, q).body;
      var w := AsCondition(ListFilter(q));
      && (forall i :: 0 <= i < |r| ==>
        && r[i].tx.user == user
        && Wanted(q.kind, r[i].kind)
        && r[i].tx in Collection(db, r[i].kind)
        && InWindow(w, r[i].tx.date)
        && r[i].category == LookupCategory(db.categories, r[i].tx.category))
      && (forall i, j :: 0 <= i < j < |r| ==> r[i].tx.date >= r[j].tx.date)
  {
    ListingSelected(db, user, AsCondition(ListFilter(q)), q.kind, ListLimit(q.limit));
  }

  lemma {:induction false} ListingSelected(db: Store, user: Id, w: Option<Window>, kind: Option<string>, n: int)
    ensures var r := Listing(db, user, w, kind, n);
      && (forall i :: 0 <= i < |r| ==>
        && r[i].tx.user == user
        && Wanted(kind, r[i].kind)
        && r[i].tx in Collection(db, r[i].kind)
        && InWindow(w, r[i].tx.date)
        && r[i].category == LookupCategory(db.categories, r[i].tx.category))
      && (forall i, j :: 0 <= i < j < |r| ==> r[i].tx.date >= r[j].tx.date)
  {
    var m := Merged(db, user, w, kind);
    var l := Limited(m, n);
    var r := Listing(db, user, w, kind, n);
    forall i | 0 <= i < |r|
      ensures r[i].tx.user == user && Wanted(kind, r[i].kind) && r[i].tx in Collection(db, r[i].kind)
      ensures InWindow(w, r[i].tx.date)
    {
      assert l[i] == m[i];
      assert m[i] in m;
    }
    forall i, j | 0 <= i < j < |r| ensures r[i].tx.date >= r[j].tx.date {
      assert l[i] == m[i] && l[j] == m[j];
    }
  }

  /** Without a limit the list holds every selected record of every wanted
      kind exactly once: it is a permutation of the incomes followed by the
      expenses. */
  lemma {:induction false} UnlimitedListsAll(db: Store, user: Id, q: ListQuery)
    requires AllTransactions(db, user, q).Ok? && ListLimit(q.limit) == 0
    ensures var w := AsCondition(ListFilter(q));
      var inc := if Wanted(q.kind, Income) then Tag(Income, Matching(db.incomes, user, w)) else [];
      var exp := if Wanted(q.kind, Expense) then Tag(Expense, Matching(db.expenses, user, w)) else [];
      var r := AllTransactions(db, user, q).body;
      && |r| == |inc| + |exp|
      && multiset(seq(|r|, i requires 0 <= i < |r| => Entry(r[i].kind, r[i].tx))) == multiset(inc + exp)
  {
    ListingAll(db, user, AsCondition(ListFilter(q)), q.kind);
  }

  lemma {:induction false} ListingAll(db: Store, user: Id, w: Option<Window>, kind: Option<string>)
    ensures var inc := if Wanted(kind, Income) then Tag(Income, Matching(db.incomes, user, w)) else [];
      var exp := if Wanted(kind, Expense) then Tag(Expense, Matching(db.expenses, user, w)) else [];
      var r := Listing(db, user, w, kind, 0);
      && |r| == |inc| + |exp|
      && multiset(seq(|r|, i requires 0 <= i < |r| => Entry(r[i].kind, r[i].tx))) == multiset(inc + exp)
  {
    var m := Merged(db, user, w, kind);
    assert Limited(m, 0) == m;
    JoinedEntries(db.categories, m);
    var inc := if Wanted(kind, Income) then Tag(Income, Matching(db.incomes, user, w)) else [];
    var exp := if Wanted(kind, Expense) then Tag(Expense, Matching(db.expenses, user, w)) else [];
    assert multiset(Fetch(db, user, w, kind, Income)) == multiset(inc);
    assert multiset(Fetch(db, user, w, kind, Expense)) == multiset(exp);
    assert multiset(inc + exp) == multiset(inc) + multiset(exp);
    assert |m| == |multiset(m)|;
  }

  /** Joining with the categories keeps each entry's kind and record. */
  lemma {:induction false} JoinedEntries(cs: seq<Category>, m: seq<Entry>)
    ensures var r := JoinAll(cs, m);
      seq(|r|, i requires 0 <= i < |r| => Entry(r[i].kind, r[i].tx)) == m
  {
    var r := JoinAll(cs, m);
    var back := seq(|r|, i requires 0 <= i < |r| => Entry(r[i].kind, r[i].tx));
    assert forall i :: 0 <= i < |m| ==> back[i] == m[i];
  }

  /** A positive limit keeps the newest records: a selected record of a
      wanted kind that is not listed is no later than the last one listed,
      which is then the `limit`-th. */
  lemma {:induction false} LimitKeepsLatest(db: Store, user: Id, q: ListQuery, e: Entry)
    requires AllTransactions(db, user, q).Ok? && ListLimit(q.limit) > 0
    requires Wanted(q.kind, e.kind) && e.tx in Collection(db, e.kind)
    requires Selected(user, AsCondition(ListFilter(q)), e.tx)
    ensures var r := AllTransactions(db, user, q).body;
      var n := ListLimit(q.limit);
      Join(db.categories, e) in r || (|r| == n && r[n - 1].tx.date >= e.tx.date)
  {
    var w := AsCondition(ListFilter(q));
    TopOfLatest(db.categories, Merged(db, user, w, q.kind), ListLimit(q.limit), e);
  }

  /** The first `n` of a list sorted latest first, joined with categories,
      hold every entry or end with one no earlier than it. */
  lemma {:induction false} TopOfLatest(cs: seq<Category>, m: seq<Entry>, n: int, e: Entry)
    requires Sorted(m, LaterFirst) && e in m && n > 0
    ensures var r := JoinAll(cs, Limited(m, n));
      Join(cs, e) in r || (|r| == n && r[n - 1].tx.date >= e.tx.date)
  {
    var l := Limited(m, n);
    assert l == Take(m, n);
    TakeOfSorted(m, LaterFirst, n, e);
    var r := JoinAll(cs, l);
    if e in l {
      var i :| 0 <= i < |l| && l[i] == e;
      assert r[i] == Join(cs, e);
    } else {
      assert r[n - 1].tx == l[n - 1].tx;
    }
  }

  /** A negative limit drops that many of the oldest records. */
  lemma {:induction false} NegativeLimitDropsOldest(db: Store, user: Id, q: ListQuery)
    requires AllTransactions(db, user, q).Ok? && ListLimit(q.limit) < 0
    ensures var m := Merged(db, user, AsCondition(ListFilter(q)), q.kind);
      var r := AllTransactions(db, user, q).body;
      |r| == Max(|m| + ListLimit(q.limit), 0)
      && forall i :: 0 <= i < |r| ==> r[i] == Join(db.categories, m[i])
  {
  }

  /** A `type` other than "all", "income" or "expense" lists nothing and
      never fails, whatever the other parameters. */
  lemma {:induction false} UnknownTypeListsNothing(db: Store, user: Id, q: ListQuery)
    requires Truthy(q.kind) && q.kind.value != "all" && q.kind.value != "income" && q.kind.value != "expense"
    ensures AllTransactions(db, user, q) == Ok(200, [])
  {
    var w := AsCondition(ListFilter(q));
    assert !Wanted(q.kind, Income) && !Wanted(q.kind, Expense);
    assert |Fetch(db, user, w, q.kind, Income)| == 0;
    assert |Fetch(db, user, w, q.kind, Expense)| == 0;
    var m := Merged(db, user, w, q.kind);
    assert |multiset(m)| == 0;
    assert Limited(m, ListLimit(q.limit)) == [];
    assert Listing(db, user, w, q.kind, ListLimit(q.limit)) == [];
  }

  /** When `month` is given, the `date` parameter makes no difference. */
  lemma {:induction false} MonthOverridesDate(db: Store, user: Id, q: ListQuery, date: DateArg)
    requires Truthy(q.month)
    ensures AllTransactions(db, user, q) == AllTransactions(db, user, q.(date := date))
  {
    assert ListFilter(q) == ListFilter(q.(date := date));
  }

  /** A record of the user's in the last 999 ms of the requested month
      passes the corrected month filter but is missing from the list
      `getAllTransactions` returns. */
  lemma {:induction false} LastSecondNotListed(db: Store, user: Id, q: ListQuery, x: Tx)
    requires Truthy(q.month) && MonthFilter(q.month.value).Within?
    requires var p := MonthNumbers(q.month.value).value;
      NamesMonth(CivilOfInstant(x.date), p.0, p.1) && x.date + 999 > MonthWindow(p.0, p.1).to.value
    ensures AllTransactions(db, user, q).Ok?
    ensures var r := AllTransactions(db, user, q).body;
      forall i :: 0 <= i < |r| ==> r[i].tx != x
    ensures CorrectedMonthFilter(q.month.value).Within? ==>
      InWindow(AsCondition(CorrectedMonthFilter(q.month.value)), x.date)
  {
    var month := q.month.value;
    var p := MonthNumbers(month).value;
    MonthFilterIff(month, x.date);
    assert !InWindow(AsCondition(ListFilter(q)), x.date);
    ListedAreSelected(db, user, q);
    MonthWindowIff(p.0, p.1, x.date);
  }
}
