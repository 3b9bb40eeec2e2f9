# Personal Expense Tracker — a Dafny model of the server core

This project models the Express/Mongoose back end of the Personal Expense
Tracker as pure functions over an immutable store, and proves properties of
those functions in Dafny.

- **Store.** The store holds three collections: categories, incomes and
  expenses. Each is a sequence in natural (insertion) order.
- **Handlers.** Every request handler becomes a function from the store,
  the requesting user's id and the request parameters to an `Outcome`. An
  outcome is an HTTP reply (status and body, or status and error reason)
  together with the store after the request.

What is modelled:

- **Schemas** (`records.dfy`). Income and expense documents, and category
  documents with an optional owner (`None` marks a default category). The
  validity rules of the schemas: a required, trimmed title; an amount of at
  least 0.01; the type enum. The partial unique index on
  `(user, title, type)`. `StoreInvariant` collects everything the schemas
  and indexes guarantee.
- **JavaScript semantics** the handlers depend on (`js_string.dfy`,
  `civil_time.dfy`):
  - `String.prototype.trim`, `parseInt(s, 10)`, `Number(s)` and `split`;
  - `Date.UTC`, including its 0..99 → 1900s year rule and month rollover;
  - the UTC calendar date of an instant, which `$dateToString` formats.
- **`buildDateMatch`** and the month and year windows (`date_match.dfy`).
- **The dashboard** (`dashboard.dfy`, `buckets.dfy`, `entries.dfy`):
  - the overview totals and the recent list;
  - the daily, monthly and yearly reports, built by grouping each
    collection and merging the groups through an insertion-ordered map;
  - the category breakdown;
  - the paginated combined listing.
- **The combined transaction list** of `getAllTransactions`
  (`transaction_list.dfy`).
- **The income and expense controllers** (`tx_controller.dfy`). One
  procedure is parameterised by the collection. The two controllers differ
  only in the order `create` checks the category's type and owner.
- **The category controller** (`category_controller.dfy`).

Conventions:

- Amounts are integer hundredths. Instants are integer milliseconds since
  the epoch.
- The server is taken to run with its time zone set to UTC. Then
  `new Date(y, m, d, ...)` and `Date.UTC(y, m, d, ...)` name the same
  instant.
- Ids are 24-hex-digit strings. A request's id argument is cast to its
  lower-case form before lookups.
- A Mongo sort is modelled as an insertion sort by the sort key. The
  contracts state the key order and the permutation, not the order of
  equal keys.

## Model

| member | source | states |
|---|---|---|
| Records.ParseKind | server/models/categoryModel.js:7 | the `type` enum accepts exactly "income" and "expense", and a parsed kind prints back as the string it came from |
| Records.LookupCategory | server/controllers/dashboardController.js:93-100 | the category lookup yields a stored category with the given id, or nothing exactly when no stored category has that id |
| Records.CanonicalId | server/controllers/incomeController.js:67-70 | casting an id lower-cases its hex letters A–F and changes no other character; the result holds no upper-case hex letter, and it is a valid ObjectId exactly when the input is (`isValid` ignores case) |
| Records.CanonicalIdIdempotent | server/controllers/incomeController.js:70 | casting an already cast id changes nothing |
| Records.FindTx | server/controllers/incomeController.js:70 | `findById` yields a position holding the id, or nothing exactly when no record has it |
| Records.FindTxUnique | server/controllers/incomeController.js:70 | when ids are unique, `findById` finds the one record holding the id |
| JsString.Trim | server/controllers/incomeController.js:31 | a trimmed string starts and ends with no white space and is no longer than the input |
| JsString.TrimOfPadded | server/controllers/categoryController.js:10 | white space around a trimmed, non-empty core is removed exactly, leaving the core |
| JsString.TrimIdempotent | server/models/categoryModel.js:5 | the schema's `trim` after the controller's `trim()` changes nothing more |
| JsString.ParseInt | server/controllers/dashboardController.js:26-28 | `parseInt` is NaN exactly when no digit follows the leading white space and optional sign; without a minus sign the value is non-negative |
| JsString.ParseIntOfDecimal | server/controllers/dashboardController.js:26-27 | `parseInt` reads back any decimal numeral, also when non-digits follow it |
| JsString.NumberValue | server/controllers/transactionController.js:9 | `Number` of an empty or blank string is 0; any other value it yields comes from an optional sign followed by digits only |
| JsString.NumberAgreesWithParseInt | server/controllers/transactionController.js:9 | wherever `Number` reads a non-blank string, `parseInt` reads the same value |
| JsString.NumberOfDecimal | server/controllers/transactionController.js:9 | `Number` reads back every decimal numeral |
| JsString.Split | server/controllers/transactionController.js:24 | `split` gives at least one piece, no piece holds the separator, and joining the pieces with it restores the input |
| JsString.SplitOfJoin | server/controllers/transactionController.js:24 | splitting a join of separator-free pieces gives the same pieces back |
| JsString.StrLessTotal | server/controllers/dashboardController.js:190 | the string order the report comparators use is total on distinct strings |
| Sorting.Sort | server/controllers/dashboardController.js:90 | the sort returns a permutation of its input, ordered by any total preorder |
| Sorting.Filter | server/controllers/dashboardController.js:48 | `$match` keeps exactly the elements satisfying the condition, each as often as in the input |
| Sorting.TakeOfSorted | server/controllers/dashboardController.js:90-91 | the first `n` of a sorted list hold every element, unless there are `n` of them and the last is ordered before the missing one |
| CivilTime.CivilFromDaysValid | server/controllers/dashboardController.js:162 | every day number names a valid calendar date, and that date's day number is the one it came from |
| CivilTime.DaysFromCivilInverse | server/controllers/dashboardController.js:162 | every valid calendar date is recovered from its day number |
| CivilTime.InMonthIff | server/controllers/dashboardController.js:29-30 | the instants from the first of a month up to the first of the next are exactly those whose UTC date lies in that month |
| CivilTime.DateUtcOnDate | server/controllers/dashboardController.js:29-30 | for an existing date and a time of day in range, `Date.UTC` lands on that UTC calendar date (months rolled into the year, a year 0..99 read as 19xx) at that time of day |
| CivilTime.DayKeyParts | server/controllers/dashboardController.js:162 | for a year from 0 on, splitting a `%Y-%m-%d` key at `-` gives back the instant's year, month and day |
| CivilTime.MonthKeyParts | server/controllers/dashboardController.js:210 | for a year from 0 on, splitting a `%Y-%m` key at `-` gives back the instant's year and month |
| CivilTime.DayKeyIff | server/controllers/dashboardController.js:162 | two instants share a daily bucket exactly when they fall on the same UTC day |
| CivilTime.MonthKeyIff | server/controllers/dashboardController.js:210 | two instants share a monthly bucket exactly when they fall in the same UTC year and month |
| CivilTime.YearKeyIff | server/controllers/dashboardController.js:264 | two instants share a yearly bucket exactly when they fall in the same UTC year |
| DateMatch.BuildDateMatch | server/controllers/dashboardController.js:19-35 | explicit `startDate`/`endDate` bounds win; otherwise a numeric month and year give that month's window; otherwise there is no condition |
| DateMatch.MonthWindow | server/controllers/dashboardController.js:29-30 | the month window has both bounds, and its end lies one millisecond before `Date.UTC` of the next month's first |
| DateMatch.ExplicitBoundsIgnoreMonth | server/controllers/dashboardController.js:21-24 | with an explicit bound, `month` and `year` make no difference, and each bound is present exactly when its parameter is |
| DateMatch.NonNumericMonthMeansNoFilter | server/controllers/dashboardController.js:25-33 | a month or year that `parseInt` cannot read gives no date condition, so every instant passes |
| DateMatch.MonthWindowsTile | server/controllers/dashboardController.js:29-30 | the window of month `m` ends one millisecond before the window of month `m + 1` begins |
| DateMatch.MonthWindowIff | server/controllers/dashboardController.js:29-31 | the month window holds exactly the instants whose UTC date lies in the month that `Date.UTC` names, with months past 12 rolling into later years |
| DateMatch.DecemberWindowEdges | server/controllers/dashboardController.js:29-30 | for every year, the last millisecond before the next New Year lies in December's window, New Year does not, and month 13 starts exactly at New Year |
| DateMatch.YearWindowIff | server/controllers/dashboardController.js:202-204 | the calendar-year window holds exactly the instants of that UTC year |
| DateMatch.YearRangeIff | server/controllers/dashboardController.js:249-257 | each bound of the yearly range compares UTC calendar years |
| Buckets.GroupByKey | server/controllers/dashboardController.js:160-167 | there is one bucket per key that occurs, in strictly ascending key order, holding the sum and the number of the records with that key |
| Buckets.FoldIncome | server/controllers/dashboardController.js:175-178 | the map holds a key exactly when an income bucket has it, with that bucket's total and count and zeros on the expense side |
| Buckets.FoldExpense | server/controllers/dashboardController.js:179-188 | the map gains every expense key; a new key gets zeros on the income side, an existing one keeps its income side and takes the expense bucket's total and count |
| Buckets.MergeBuckets | server/controllers/dashboardController.js:175-190 | there is one row per key found on either side, in ascending key order; a side without the key contributes zeros |
| Buckets.MergedGroupsRow | server/controllers/dashboardController.js:175-188 | each merged row holds the income sum and count and the expense sum and count of the records with its key |
| Buckets.MergedGroupsReconcile | server/controllers/dashboardController.js:175-190 | over all rows of a merged report, the totals and counts add up to the sums and sizes of the two record lists |
| Buckets.SumAllPermutation | server/controllers/dashboardController.js:163 | `$sum` does not depend on the order of the records |
| Entries.Matching | server/controllers/dashboardController.js:59 | the `$match` on owner and date keeps exactly the user's records inside the window, each as many times as the collection holds it |
| Entries.TagMembers | server/controllers/dashboardController.js:68 | the tagged entries of a collection are exactly its records under its kind |
| Entries.SortNewest | server/controllers/dashboardController.js:90 | `{ date: -1, createdAt: -1 }` gives a permutation, ordered by later date and then later creation |
| Entries.SortLater | server/controllers/transactionController.js:62-64 | the date comparator gives a permutation, ordered by later date |
| Entries.Join | server/controllers/dashboardController.js:93-100 | the lookup with `preserveNullAndEmptyArrays` keeps every entry, with its category when one has its id and none otherwise |
| Dashboard.Candidates | server/controllers/dashboardController.js:58-89 | the union holds exactly the user's income and expense records inside the window, tagged with their collection |
| Dashboard.CandidatesCount | server/controllers/dashboardController.js:58-89 | the union holds each selected record of either collection exactly as many times as that collection does |
| Dashboard.RecentLimit | server/controllers/dashboardController.js:41-44 | the recent limit is at most 100 and never 0; a missing or unreadable value means 10; a negative value is passed on unchanged |
| Dashboard.RecentLimitOfDecimal | server/controllers/dashboardController.js:41-44 | a decimal limit k gives min(k, 100), and 0 gives 10 |
| Dashboard.NegativeRecentFails | server/controllers/dashboardController.js:44 | a negative `recent` reaches `$limit` and the overview replies 500 |
| Dashboard.Recent | server/controllers/dashboardController.js:90-91 | the recent list holds min(limit, number of candidates) candidates, newest first |
| Dashboard.RecentListing | server/controllers/dashboardController.js:58-125 | each recent row is a record of the user in the window, joined with its category, newest first |
| Dashboard.RecentAreNewest | server/controllers/dashboardController.js:90-91 | a candidate left out of the recent list is no newer than the last entry shown |
| Dashboard.Overview | server/controllers/dashboardController.js:38-146 | the totals are the user's lifetime sums, independent of the date filter, and balance = income − expense; a limit that is not positive gives 500 |
| Dashboard.Report | server/controllers/dashboardController.js:157-190 | there is one row per key of a selected income or expense record, ascending, each with that key's sums and counts on both sides |
| Dashboard.ReportReconciles | server/controllers/dashboardController.js:157-190 | the report's income and expense totals and counts add up to those of the selected records |
| Dashboard.ReportKeys | server/controllers/dashboardController.js:175-190 | a report has a row for a key exactly when some selected record has that key |
| Dashboard.Daily | server/controllers/dashboardController.js:149-195 | the daily rows are strictly ascending by day, one per day of a selected record, each holding that day's income and expense totals and counts |
| Dashboard.ReportYear | server/controllers/dashboardController.js:201 | a missing year means the current year, and the result is 0 only when the current year is 0 |
| Dashboard.ReportYearOfDecimal | server/controllers/dashboardController.js:201 | a non-zero decimal year is used as given |
| Dashboard.Monthly | server/controllers/dashboardController.js:198-242 | the monthly rows are ascending, one per month of a record inside the requested year's window, each holding that month's totals and counts |
| Dashboard.MonthlyKeysInYear | server/controllers/dashboardController.js:202-215 | every month key of the monthly report is a month of the report's year |
| Dashboard.YearBound | server/controllers/dashboardController.js:249-250 | a year bound is absent exactly when its parameter is falsy, and an unreadable year gives the epoch |
| Dashboard.YearlyWindow | server/controllers/dashboardController.js:249-258 | there is no date condition exactly when both year parameters are falsy |
| Dashboard.YearlyWindowIff | server/controllers/dashboardController.js:249-258 | with readable bounds, the window keeps exactly the instants whose UTC year lies between them |
| Dashboard.Yearly | server/controllers/dashboardController.js:245-296 | the yearly rows are ascending, one per year of a record inside the range, each holding that year's totals and counts |
| Dashboard.BreakdownKind | server/controllers/dashboardController.js:303 | the breakdown reads incomes exactly when `type` is "income", and expenses otherwise |
| Dashboard.BreakdownRows | server/controllers/dashboardController.js:308-339 | there is one row per category id of the selected records, with no id twice; each row holds that id's sum and count and the category, or none when it is gone; largest total first |
| Dashboard.RowOfGroups | server/controllers/dashboardController.js:310-325 | a row built from the grouped records carries its category's sum, count and lookup |
| Dashboard.Breakdown | server/controllers/dashboardController.js:299-346 | `type` defaults to "expense", and the breakdown is over the user's records of that collection within the explicit bounds |
| Dashboard.BreakdownReconciles | server/controllers/dashboardController.js:308-316 | the category totals add up to the total of the selected records, and the counts add up to their number |
| Dashboard.PageNumber | server/controllers/dashboardController.js:352 | a page number is at least 1, a falsy parameter means page 1, and a page `parseInt` cannot read is NaN (no page) |
| Dashboard.PageNumberOfDecimal | server/controllers/dashboardController.js:352 | a decimal page number p gives max(p, 1) |
| Dashboard.PageLimit | server/controllers/dashboardController.js:353 | the page size is at most 200, a falsy parameter means 20, and a value `parseInt` cannot read is NaN (no size) |
| Dashboard.PageLimitOfDecimal | server/controllers/dashboardController.js:353 | a decimal page size l gives min(l, 200) |
| Dashboard.Listing | server/controllers/dashboardController.js:357-439 | the listing holds exactly the user's records in the window whose collection `type` selects, newest first |
| Dashboard.ListingCount | server/controllers/dashboardController.js:357-439 | the listing holds each selected record of a wanted kind exactly as many times as its collection does |
| Dashboard.PageSlice | server/controllers/dashboardController.js:443 | `$skip` then `$limit` yields the entries from `skip` on, at most `limit` of them, and exactly `limit` when that many remain |
| Dashboard.Page | server/controllers/dashboardController.js:443 | page `p` holds at most `limit` entries, the `i`-th being entry `(p − 1)·limit + i` of the listing |
| Dashboard.PageOfIndex | server/controllers/dashboardController.js:441-444 | entry `i` of the listing is item `i mod limit` of page `i div limit + 1` |
| Dashboard.Transactions | server/controllers/dashboardController.js:349-461 | the reply holds the page number, the page size (1..200), the size of the whole listing and that page of it joined with categories; an unreadable page, a page size below 1, or a skip `(page − 1) · limit` beyond 2^63 − 1 gives 500 |
| Dashboard.TotalCountsMatches | server/controllers/dashboardController.js:441-455 | `total` is the number of matching records of the wanted collections, counted before skip and limit |
| Dashboard.SkipBeyondRangeFails | server/controllers/dashboardController.js:444 | a page whose skip exceeds the 64-bit range gives 500, whatever the listing holds |
| Dashboard.EntryOnItsPage | server/controllers/dashboardController.js:441-456 | every entry of the listing is shown on the page its position names |
| Records.Clip | server/controllers/transactionController.js:16-19 | an instant outside ±8.64e15 ms is an Invalid Date, and any other instant is kept as it is |
| TransactionList.DayEnd | server/controllers/transactionController.js:17-18 | `setHours(23, 59, 59, 999)` gives the last millisecond of the same UTC day, never earlier than the start |
| TransactionList.DayFilter | server/controllers/transactionController.js:15-20 | `date` gives the window from that instant to the end of its day, or an Invalid Date when either end is out of range |
| TransactionList.DayFilterIff | server/controllers/transactionController.js:15-19 | the day window holds exactly the instants from the given one to the end of its UTC day |
| TransactionList.MonthParts | server/controllers/transactionController.js:24 | the destructuring reads the first piece of the split and the second piece when there is one |
| TransactionList.MonthNumbers | server/controllers/transactionController.js:24-25 | there are numbers exactly when there are two pieces and `Number` reads both, and they are the values `Number` gives |
| TransactionList.MonthNumbersOfKey | server/controllers/transactionController.js:22-25 | a `YYYY-MM` month parameter is read as that year and month |
| TransactionList.AsWrittenMonthWindow | server/controllers/transactionController.js:25-26 | the window as written ends 1000 ms before the next month's first instant, that is at 23:59:59.000 on the month's last day |
| TransactionList.MonthFilter | server/controllers/transactionController.js:23-28 | `month` gives a window that starts with the named month and ends 999 ms before the month's last millisecond; it is an Invalid Date exactly when a piece is not a number or an end is out of range |
| TransactionList.MonthFilterIff | server/controllers/transactionController.js:23-27 | the month filter as written passes exactly the instants of the named month except those of its last 999 ms |
| TransactionList.CorrectedMonthFilterIff | server/controllers/transactionController.js:23-27 | the corrected month filter, ending at 23:59:59.999, passes exactly the instants of the named month |
| TransactionList.WindowMissesLastSecond | server/controllers/transactionController.js:26 | the window as written stops 999 ms short of the month's end, and the instant just after it is still in the month |
| TransactionList.LastSecondNotListed | server/controllers/transactionController.js:22-64 | a record of the user's in the last 999 ms of the requested month is missing from the reply, although the corrected filter passes it |
| TransactionList.ListLimit | server/controllers/transactionController.js:9 | `Number(limit) \|\| 0`: a missing, empty, blank or non-numeric limit is 0, and otherwise the limit is the number |
| TransactionList.Wanted | server/controllers/transactionController.js:37-45 | a kind is wanted exactly when the type is missing, "all", or that kind's name |
| TransactionList.ListFilter | server/controllers/transactionController.js:11-31 | there is no date condition exactly when neither `month` nor `date` is given; `month` wins over `date`; an unreadable `date` is an Invalid Date |
| TransactionList.Fetch | server/controllers/transactionController.js:36-50 | a wanted kind fetches exactly the user's records of it inside the date condition; an unwanted kind fetches nothing |
| TransactionList.Merged | server/controllers/transactionController.js:52-64 | the merged list is a permutation of both fetches, ordered by later date |
| TransactionList.Limited | server/controllers/transactionController.js:66-69 | `slice(0, n)` keeps a prefix: everything for 0, min(n, length) items for positive n, and all but the last \|n\| for negative n |
| TransactionList.AllTransactions | server/controllers/transactionController.js:4-77 | the reply is 500 exactly when a wanted kind is queried with an Invalid Date; otherwise it is 200 with the limited, merged and joined list under the date condition as written |
| TransactionList.ListedAreSelected | server/controllers/transactionController.js:11-64 | every listed record belongs to the user, comes from a wanted collection and passes the date condition; the list is ordered by later date |
| TransactionList.UnlimitedListsAll | server/controllers/transactionController.js:62-69 | without a limit, the list is a permutation of every selected record of every wanted kind |
| TransactionList.LimitKeepsLatest | server/controllers/transactionController.js:62-69 | with a positive limit, a selected record left out is no later than the last one shown |
| TransactionList.NegativeLimitDropsOldest | server/controllers/transactionController.js:67-69 | a negative limit drops that many records from the end of the merged list |
| TransactionList.UnknownTypeListsNothing | server/controllers/transactionController.js:37-45 | a `type` other than "all", "income" or "expense" gives 200 with an empty list |
| TransactionList.MonthOverridesDate | server/controllers/transactionController.js:15-28 | when `month` is given, the `date` parameter makes no difference |
| TxController.Named | server/controllers/incomeController.js:15-18 | a category argument names a stored category only when it is a valid id, and then the category with the cast id |
| TxController.CategoryFault | server/controllers/incomeController.js:100-113 | the category checks report an invalid id, then a missing category, then type and owner in the given order; they pass exactly when the category exists, is of the right kind and is a default or the requester's own |
| TxController.Create | server/controllers/incomeController.js:10-48 | a missing field gives 400 before any lookup; a category fault gives 400; success is 201 and appends exactly the new record, with trimmed title and note, owner the requester and date defaulting to the clock; a schema failure, including a date beyond ±8.64e15 ms that the `Date` cast rejects, gives 500 and leaves the store alone |
| TxController.CreateIncome | server/controllers/incomeController.js:21-28 | for income the type is checked before the owner: a category of the wrong type is a type mismatch even when another user owns it |
| TxController.CreateExpense | server/controllers/expenseController.js:21-28 | for expenses the owner is checked before the type: another user's category is "not owned" whatever its type |
| TxController.CreateAddsOne | server/controllers/incomeController.js:30-37 | a successful create adds exactly one valid record of the requester's to its collection, leaves the other collection and the categories alone, and uses a category the requester may use |
| TxController.CreateThenGet | server/controllers/expenseController.js:30-43 | reading a created record back by its id returns it |
| TxController.CreateKeepsInvariant | server/models/incomeModel.js:5-24 | create keeps every schema and index invariant of the store |
| TxController.AppendKeepsInvariant | server/models/expenseModel.js:4-23 | appending a valid record with a fresh id keeps the store invariant |
| TxController.Locate | server/controllers/incomeController.js:67-79 | get, update and delete check in the order invalid id → 400, missing → 404, other owner → 403, and otherwise find the requester's record with the cast id |
| TxController.Get | server/controllers/incomeController.js:65-86 | the reply is that check's error, or 200 with the requester's record that has the id |
| TxController.GetByOtherForbidden | server/controllers/expenseController.js:65-85 | a record owned by someone else is refused with 403 by get, update and delete alike |
| TxController.List | server/controllers/incomeController.js:51-62 | the list holds the requester's records of the collection, as many as there are, later date first, each joined with its category |
| TxController.ListHasAllOwn | server/controllers/expenseController.js:51-62 | every record of the requester's appears in the list |
| TxController.Patch | server/controllers/incomeController.js:115-117 | an update keeps the id, the owner and the creation stamp |
| TxController.Update | server/controllers/incomeController.js:89-128 | 400/404/403 come first; a truthy category is checked with the owner before the type; a value the validators refuse, or a date beyond ±8.64e15 ms, gives 500; success replaces only that record, with trimmed title and note, fields absent from the body kept |
| TxController.UpdateKeepsInvariant | server/controllers/incomeController.js:119 | an update with `runValidators` keeps every schema and index invariant |
| TxController.UpdateThenGet | server/controllers/expenseController.js:88-127 | reading an updated record back returns the updated document |
| TxController.UpdateIdempotent | server/controllers/incomeController.js:115-123 | sending the same update twice leaves the store as the first one did |
| TxController.Delete | server/controllers/incomeController.js:131-147 | 400/404/403 come first; success removes the record at the position found |
| TxController.DeleteRemovesExactly | server/controllers/expenseController.js:130-146 | a delete removes exactly the record with that id; the rest of its collection, the other collection and the categories are as they were |
| TxController.DeleteThenGet | server/controllers/incomeController.js:141-142 | after a delete, reading the id back is a 404 |
| TxController.DeleteKeepsInvariant | server/controllers/expenseController.js:140-141 | a delete keeps every schema and index invariant |
| CategoryController.Create | server/controllers/categoryController.js:5-31 | a missing title or type gives 400 before any lookup; the requester's own category with the same trimmed title and type gives 409; success is 201 and appends exactly one category owned by the requester, with `isDefault` false and icon and color defaulting to "" |
| CategoryController.CreatedKeyIsFresh | server/controllers/categoryController.js:11-16 | the `findOne` check guarantees that a created category clashes with no stored owned key |
| CategoryController.CreateKeepsInvariant | server/models/categoryModel.js:5-22 | create keeps the title, enum, id and partial-uniqueness invariants |
| CategoryController.AppendKeepsInvariant | server/models/categoryModel.js:19-22 | appending a valid category with a fresh id and a fresh owned key keeps the store invariant |
| CategoryController.CreateTwiceConflicts | server/controllers/categoryController.js:11-16 | creating the same category twice gives 409 the second time and stores nothing |
| CategoryController.CreateThenListed | server/controllers/categoryController.js:36-38 | the requester sees a category they have just created |
| CategoryController.List | server/controllers/categoryController.js:34-43 | the list holds exactly the default categories and the requester's own, each as often as stored, newest first |
| CategoryController.ListVisibility | server/controllers/categoryController.js:36-37 | every user is shown the default categories, and no user is shown another user's own categories |
| CategoryController.Get | server/controllers/categoryController.js:46-56 | an invalid id gives 400 and an unknown id 404; otherwise the category with that id is returned, whoever owns it |
| CategoryController.CreateThenGet | server/controllers/categoryController.js:46-56 | a category reads back by its id right after it is created |
| CategoryController.DeleteThenGet | server/controllers/categoryController.js:77-87 | after a delete, reading the id back is a 404 |
| CategoryController.Patch | server/controllers/categoryController.js:64-65 | an update keeps the id, the owner, `isDefault` and the creation stamp |
| CategoryController.Update | server/controllers/categoryController.js:59-74 | an invalid id gives 400; a value the validators refuse gives 500, even for an unknown id; an unknown id gives 404; an owned-key clash gives 409; success replaces only that category, with the title trimmed, the other given fields set, and id, owner, `isDefault` and creation stamp kept; there is no owner check |
| CategoryController.UpdateKeepsInvariant | server/controllers/categoryController.js:67-71 | an update keeps every schema and index invariant |
| CategoryController.Delete | server/controllers/categoryController.js:77-87 | an invalid id gives 400 and an unknown id 404; otherwise the category at the position found is removed |
| CategoryController.DeleteRemovesExactly | server/controllers/categoryController.js:80-83 | a delete removes exactly the category with that id and leaves the transactions alone; transactions filed under it then find no category |
| CategoryController.DeleteKeepsInvariant | server/controllers/categoryController.js:81 | a delete keeps every schema and index invariant |

## Left out

- The server's time zone is taken as UTC. Local-time offsets and daylight
  saving for `new Date(y, m, d)` and `setHours` are not modelled.
- ISO date-string parsing (`new Date(startDate)`, the `date` query
  parameter, a body's `date`) is not modelled. Parsed instants are inputs;
  the `date` parameter is `DateArg`, which can also be an Invalid Date.
- JsString.NumberValue: `Number()` forms other than an optional sign and
  decimal digits are read as NaN. Fractions, exponents, hex literals and
  "Infinity" are among them.
- Query parameters given as arrays, and body fields of other JSON types, are
  left out. A non-string `title` or `note` would make `trim()` throw.
- Floating-point sums are not modelled. Amounts are exact integer
  hundredths.
- The user `$lookup`/`populate` and the field projections are left out.
  A listed record carries its whole document and its category.
- `allowDiskUse`, `Promise.all` and `console.error` do not affect the
  replies.
- Mongo's order among equal sort keys is unspecified. The model fixes one
  order, and no contract promises anything about it.
- TimeClip on the dashboard's month and year windows is left out.
- `Date.now()`, a new document's `_id` and its `createdAt` are parameters.
- Authentication (`protect`, JWT) is left out. The requester's id is a
  parameter.
- Records.IsValidObjectId: `mongoose.Types.ObjectId.isValid` also accepts
  any 12-character string. The model accepts only 24 hex digits.
- CategoryController.Create: the race between `findOne` and the unique
  index is left out. Without concurrency, the index clash it would report
  as 409 cannot happen.
- TxController.Update: body fields other than title, amount, category,
  date and note pass into `{ ...req.body }` unchecked and are not
  modelled. A body `user` field could, for example, reassign the record.
- CategoryController.Update: body fields other than title, type, icon and
  color are not modelled.
- The driver's failure modes other than validation and duplicate keys are
  left out: lost connections, and a document deleted between `findById`
  and the update.
- The `toObjectId` helper and `idString` are identity on the canonical id
  strings used here.
- Dashboard.Report: MongoDB's `$dateToString` supports only years 0 to
  9999 and fails outside them. So getDaily, getMonthly and getYearly reply
  500 when a selected record's UTC year is outside that range. The model
  formats such a year as "10000" or "-0001" and replies 200. A record can
  carry such a date: a stored date is bounded only by TimeClip's
  ±8.64e15 ms, the years −271821 to 275760. The bucket-key lemmas
  (`CivilTime.DayKeyIff` and its kin) are stated for years from 0 on.
- Dashboard.Daily, Dashboard.Monthly, Dashboard.Yearly: no 500 reply for a
  record dated outside the years 0 to 9999, for the reason above.
- DateMatch.BuildDateMatch: a `startDate` or `endDate` string that
  `new Date` cannot read becomes an Invalid Date. The aggregation does not
  cast it, and the driver encodes it as the epoch. The caller passes such a
  bound as `Some(0)`; `endDate=abc` thus keeps only records up to
  1970-01-01T00:00:00.000Z. The same holds for the bounds of
  `Dashboard.Breakdown` and `Dashboard.Transactions`.
- JsString.ParseInt: returns the exact integer, while JavaScript's
  `parseInt` returns a double. A numeral beyond 2^53 is rounded in the
  source; a year that large makes `Date.UTC` NaN.
- Dashboard.Transactions: the source computes `(page - 1) * limit` as a
  double, which rounds up to 2^63 for exact products within 512 of it;
  `$skip` then fails with 500. The model compares the exact product with
  2^63 − 1, so for those few products it replies 200.
- JsString.NumberValue: the same holds for `Number()`, for the `limit`
  of `getAllTransactions` and the pieces of its `month`.

## Findings

| source | as written | input that shows it | evidently intended | confidence | as-written member | corrected member |
|---|---|---|---|---|---|---|
| server/controllers/transactionController.js:26 | the month filter ends at `new Date(year, monthValue, 0, 23, 59, 59)`, with milliseconds 0 | `month=2026-02` and a record dated 2026-02-28T23:59:59.500: it lies in February but is not listed | the window ends at the month's last millisecond (.999), as `buildDateMatch` does at dashboardController.js:30 | not executed | TransactionList.LastSecondNotListed | TransactionList.CorrectedMonthFilterIff |

The model of `getAllTransactions` follows the source as written:
`TransactionList.MonthFilter` ends the month at 23:59:59.000. The corrected
filter, `TransactionList.CorrectedMonthFilter`, is stated beside it and is
not used by the handler.
