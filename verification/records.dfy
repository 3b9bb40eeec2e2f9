/** The three Mongoose schemas (income, expense, category) and the database
    they live in. Amounts are integer hundredths; instants are integer
    milliseconds (UTC). */
module Records {
  import opened Base
  import opened JsString

  /** A document id or a user id, in its canonical text form (24 lower-case hex digits). */
  type Id = string

  /** Which collection a transaction belongs to; also the `type` of a category. */
  datatype Kind = Income | Expense

  function KindName(k: Kind): string
  {
    match k
    case Income => "income"
    case Expense => "expense"
  }

  /** Mongoose's enum check on `type`: only "income" and "expense" are accepted. */
  function ParseKind(s: string): (r: Option<Kind>)
    ensures r.Some? <==> s == "income" || s == "expense"
    ensures r.Some? ==> KindName(r.value) == s
  {
    if s == "income" then Some(Income)
    else if s == "expense" then Some(Expense)
    else None
  }

  /** `min: 0.01` in hundredths. */
  const MinAmount: int := 1

  /** Largest magnitude of a valid time value (ECMAScript TimeClip). */
  const MaxTime: int := 8640000000000000

  /** TimeClip: a time value outside the valid range is an Invalid Date. */
  function Clip(t: int): (r: Option<int>)
    ensures r.Some? <==> -MaxTime <= t <= MaxTime
    ensures r.Some? ==> r.value == t
  {
    if -MaxTime <= t <= MaxTime then Some(t) else None
  }

  /** An income or expense document. Both schemas have the same fields. */
  datatype Tx = Tx(
    id: Id,
    title: string,
    amount: int,
    category: Id,
    user: Id,
    date: int,
    note: string,
    createdAt: int)

  /** What the income and expense schemas accept: a required, trimmed,
      non-empty title, an amount of at least 0.01 and a date the `Date`
      cast accepts (`new Date(n)` is an Invalid Date beyond TimeClip's
      range, and the cast fails). The category and user references are
      required, so they are never missing here. */
  predicate ValidTx(t: Tx)
  {
    |t.title| > 0 && IsTrimmed(t.title) && t.amount >= MinAmount && Clip(t.date).Some?
  }

  /** A category document; `user == None` marks a default category shared by everyone. */
  datatype Category = Category(
    id: Id,
    title: string,
    icon: string,
    kind: Kind,
    user: Option<Id>,
    isDefault: bool,
    color: string,
    createdAt: int)

  /** What the category schema accepts (the `type` enum is the datatype `Kind`). */
  predicate ValidCategory(c: Category)
  {
    |c.title| > 0 && IsTrimmed(c.title)
  }

  /** Two user-owned categories that the partial unique index on
      `(user, title, type)` would refuse to hold together. */
  predicate SameOwnedKey(a: Category, b: Category)
  {
    a.user.Some? && a.user == b.user && a.title == b.title && a.kind == b.kind
  }

  predicate OwnedKeysUnique(cs: seq<Category>)
  {
    forall i, j :: 0 <= i < j < |cs| ==> !SameOwnedKey(cs[i], cs[j])
  }

  predicate TxIdsUnique(s: seq<Tx>)
  {
    forall i, j :: 0 <= i < j < |s| ==> s[i].id != s[j].id
  }

  predicate CategoryIdsUnique(s: seq<Category>)
  {
    forall i, j :: 0 <= i < j < |s| ==> s[i].id != s[j].id
  }

  /** The database: the three collections, each in natural (insertion) order. */
  datatype Store = Store(categories: seq<Category>, incomes: seq<Tx>, expenses: seq<Tx>)

  function Collection(db: Store, k: Kind): seq<Tx>
  {
    match k
    case Income => db.incomes
    case Expense => db.expenses
  }

  function WithCollection(db: Store, k: Kind, s: seq<Tx>): (r: Store)
    ensures Collection(r, k) == s
    ensures r.categories == db.categories
    ensures Collection(r, if k == Income then Expense else Income)
         == Collection(db, if k == Income then Expense else Income)
  {
    match k
    case Income => db.(incomes := s)
    case Expense => db.(expenses := s)
  }

  /** Everything the schemas and indexes guarantee about a stored database. */
  predicate StoreInvariant(db: Store)
  {
    && (forall i :: 0 <= i < |db.incomes| ==> ValidTx(db.incomes[i]))
    && (forall i :: 0 <= i < |db.expenses| ==> ValidTx(db.expenses[i]))
    && (forall i :: 0 <= i < |db.categories| ==> ValidCategory(db.categories[i]))
    && TxIdsUnique(db.incomes) && TxIdsUnique(db.expenses)
    && CategoryIdsUnique(db.categories)
    && OwnedKeysUnique(db.categories)
  }

  // ---------------------------------------------------------------------
  // Ids

  predicate IsHexDigit(c: char)
  {
    ('0' <= c <= '9') || ('a' <= c <= 'f') || ('A' <= c <= 'F')
  }

  /** `mongoose.Types.ObjectId.isValid` on a string: 24 hexadecimal digits. */
  predicate IsValidObjectId(s: string)
  {
    |s| == 24 && forall i :: 0 <= i < 24 ==> IsHexDigit(s[i])
  }

  function LowerHex(c: char): char
  {
    if 'A' <= c <= 'F' then (c as int + 32) as char else c
  }

  /** The id an ObjectId string is cast to (hex digits are case-insensitive). */
  function CanonicalId(s: string): (r: Id)
    ensures |r| == |s|
    ensures forall i :: 0 <= i < |s| ==> r[i] == s[i] || ('A' <= s[i] <= 'F' && r[i] as int == s[i] as int + 32)
    ensures forall i :: 0 <= i < |r| ==> !('A' <= r[i] <= 'F')
    ensures IsValidObjectId(s) <==> IsValidObjectId(r)
  {
    seq(|s|, i requires 0 <= i < |s| => LowerHex(s[i]))
  }

  /** Casting an already cast id changes nothing. */
  lemma {:induction false} CanonicalIdIdempotent(s: string)
    ensures CanonicalId(CanonicalId(s)) == CanonicalId(s)
  {
    var c := CanonicalId(s);
    assert forall i :: 0 <= i < |c| ==> CanonicalId(c)[i] == c[i];
  }

  // ---------------------------------------------------------------------
  // Lookups (`findById`)

  function FindTx(s: seq<Tx>, id: Id): (r: Option<nat>)
    ensures r.Some? ==> r.value < |s| && s[r.value].id == id
    ensures r.None? ==> forall i :: 0 <= i < |s| ==> s[i].id != id
  {
    if |s| == 0 then None
    else if s[|s| - 1].id == id then Some(|s| - 1)
    else FindTx(s[..|s| - 1], id)
  }

  function FindCategory(s: seq<Category>, id: Id): (r: Option<nat>)
    ensures r.Some? ==> r.value < |s| && s[r.value].id == id
    ensures r.None? ==> forall i :: 0 <= i < |s| ==> s[i].id != id
  {
    if |s| == 0 then None
    else if s[|s| - 1].id == id then Some(|s| - 1)
    else FindCategory(s[..|s| - 1], id)
  }

  /** The category a transaction refers to, or `None` when it no longer
      exists (`$lookup` + `$unwind` with `preserveNullAndEmptyArrays`). */
  function LookupCategory(cs: seq<Category>, id: Id): (r: Option<Category>)
    ensures r.Some? ==> r.value in cs && r.value.id == id
    ensures r.None? ==> forall i :: 0 <= i < |cs| ==> cs[i].id != id
  {
    match FindCategory(cs, id)
    case Some(i) => Some(cs[i])
    case None => None
  }

  /** With unique ids, a lookup finds the one document that has the id. */
  lemma {:induction false} FindTxUnique(s: seq<Tx>, i: nat)
    requires TxIdsUnique(s) && i < |s|
    ensures FindTx(s, s[i].id) == Some(i)
  {
    assert FindTx(s, s[i].id).Some?;
  }

  // ---------------------------------------------------------------------
  // Handler outcomes

  /** The message a handler sends with an error status. */
  datatype Reason =
    | AllFieldsRequired
    | InvalidCategoryId
    | CategoryNotFound
    | CategoryTypeMismatch
    | CategoryNotOwned
    | InvalidId
    | NotFound
    | Forbidden
    | TitleAndTypeRequired
    | AlreadyExists
    | ValidationFailed
    | DuplicateId
    | QueryFailed

  /** An HTTP reply: a status with a body, or an error status with its message. */
  datatype Response<+T> = Ok(status: int, body: T) | Err(status: int, reason: Reason)

  /** A reply together with the database after the request. */
  datatype Outcome<+T> = Outcome(response: Response<T>, db: Store)

  /** Shape of an error reply: the database is left as it was. */
  function Fail<T>(db: Store, status: int, reason: Reason): (r: Outcome<T>)
    ensures r.response == Err(status, reason) && r.db == db
  {
    Outcome(Err(status, reason), db)
  }
}
