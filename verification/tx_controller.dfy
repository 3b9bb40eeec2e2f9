/** The income and expense controllers: create, list, read, update and
    delete the requesting user's transactions. Both controllers run the same
    procedure over their own collection; they differ only in the order in
    which `create` checks the chosen category's type and owner. The
    requester is the user id the auth middleware attached to the request;
    the clock (`Date.now()`), the new document's id and its `createdAt`
    stamp are parameters. */
module TxController {
  import opened Base
  import opened JsString
  import opened Sorting
  import opened Records
  import opened Entries

  /** The fields of `req.body` the handlers read. `amount` is in
      hundredths and `date` an instant in milliseconds; `None` is a field
      that is absent. */
  datatype TxBody = TxBody(
    title: Option<string>,
    amount: Option<int>,
    category: Option<string>,
    date: Option<int>,
    note: Option<string>)

  /** `title && amount && category`: all three present and truthy (a zero
      amount is falsy, a negative one is not). */
  predicate Filled(b: TxBody)
  {
    Truthy(b.title) && b.amount.Some? && b.amount.value != 0 && Truthy(b.category)
  }

  /** `!cat.user || String(cat.user) === String(req.user._id)`: a default
      category, or one of the requester's own. */
  predicate Permitted(c: Category, user: Id)
  {
    c.user.None? || c.user.value == user
  }

  /** A category the requester may file a transaction of kind `k` under. */
  predicate Usable(c: Category, user: Id, k: Kind)
  {
    c.kind == k && Permitted(c, user)
  }

  /** The category an id argument names, when it is a valid id of a stored category. */
  function Named(cs: seq<Category>, arg: string): (r: Option<Category>)
    ensures r.Some? ==> IsValidObjectId(arg) && r.value in cs && r.value.id == CanonicalId(arg)
    ensures r.None? && IsValidObjectId(arg) ==> forall i :: 0 <= i < |cs| ==> cs[i].id != CanonicalId(arg)
  {
    if IsValidObjectId(arg) then LookupCategory(cs, CanonicalId(arg)) else None
  }

  /** The checks a handler runs on the category a request names, in order:
      the id is well formed, the category exists, and then its type and its
      owner, the owner first when `ownerFirst` holds. The result is the
      first check that fails. */
  function CategoryFault(cs: seq<Category>, user: Id, k: Kind, arg: string, ownerFirst: bool): (r: Option<Reason>)
    ensures r == Some(InvalidCategoryId) <==> !IsValidObjectId(arg)
    ensures r == Some(CategoryNotFound) <==> IsValidObjectId(arg) && Named(cs, arg).None?
    ensures r.None? <==> Named(cs, arg).Some? && Usable(Named(cs, arg).value, user, k)
    ensures r == Some(CategoryTypeMismatch) ==>
      Named(cs, arg).Some? && Named(cs, arg).value.kind != k
      && (ownerFirst ==> Permitted(Named(cs, arg).value, user))
    ensures r == Some(CategoryNotOwned) ==>
      Named(cs, arg).Some? && !Permitted(Named(cs, arg).value, user)
      && (!ownerFirst ==> Named(cs, arg).value.kind == k)
    ensures r.Some? ==> r.value in {InvalidCategoryId, CategoryNotFound, CategoryTypeMismatch, CategoryNotOwned}
  {
    if !IsValidObjectId(arg) then Some(InvalidCategoryId)
    else match LookupCategory(cs, CanonicalId(arg))
      case None => Some(CategoryNotFound)
      case Some(c) =>
        if ownerFirst && !Permitted(c, user) then Some(CategoryNotOwned)
        else if c.kind != k then Some(CategoryTypeMismatch)
        else if !Permitted(c, user) then Some(CategoryNotOwned)
        else None
  }

  // ---------------------------------------------------------------------
  // Create

  /** The document `create` builds: title and note trimmed, note defaulting
      to "", date defaulting to the clock, owner the requester. */
  function NewTx(user: Id, b: TxBody, now: int, newId: Id, createdAt: int): Tx
    requires Filled(b)
  {
    Tx(newId, Trim(b.title.value), b.amount.value, CanonicalId(b.category.value), user,
       b.date.GetOr(now), Trim(b.note.GetOr("")), createdAt)
  }

  /** `createIncome` / `createExpense`. After the field check and the
      category checks, `Model.create` runs the schema validators (title
      non-empty once trimmed, amount at least 0.01), and a clash of the new
      `_id` with a stored one is a duplicate-key error; both reply 500. */
  function Create(db: Store, user: Id, k: Kind, b: TxBody, now: int, newId: Id, createdAt: int): (r: Outcome<Tx>)
    ensures !Filled(b) ==> r == Fail(db, 400, AllFieldsRequired)
    ensures Filled(b) && CategoryFault(db.categories, user, k, b.category.value, k == Expense).Some? ==>
      r == Fail(db, 400, CategoryFault(db.categories, user, k, b.category.value, k == Expense).value)
    ensures r.response.Ok? <==>
      Filled(b) && CategoryFault(db.categories, user, k, b.category.value, k == Expense).None?
      && ValidTx(NewTx(user, b, now, newId, createdAt)) && FindTx(Collection(db, k), newId).None?
    ensures r.response.Ok? ==>
      var t := r.response.body;
      && r.response.status == 201
      && r.db == WithCollection(db, k, Collection(db, k) + [t])
      && t.id == newId && t.user == user && t.createdAt == createdAt
      && t.title == Trim(b.title.value) && t.note == Trim(b.note.GetOr(""))
      && t.amount == b.amount.value && t.date == b.date.GetOr(now)
      && t.category == CanonicalId(b.category.value)
    ensures (Filled(b) && CategoryFault(db.categories, user, k, b.category.value, k == Expense).None?
      && b.date.Some? && Clip(b.date.value).None?) ==> r == Fail(db, 500, ValidationFailed)
    ensures r.response.Err? ==> r.db == db && r.response.status in {400, 500}
  {
    if !Filled(b) then Fail(db, 400, AllFieldsRequired)
    else match CategoryFault(db.categories, user, k, b.category.value, k == Expense)
      case Some(e) => Fail(db, 400, e)
      case None =>
        var t := NewTx(user, b, now, newId, createdAt);
        if !ValidTx(t) then Fail(db, 500, ValidationFailed)
        else if FindTx(Collection(db, k), newId).Some? then Fail(db, 500, DuplicateId)
        else Outcome(Ok(201, t), WithCollection(db, k, Collection(db, k) + [t]))
  }

  /** `createIncome`: the category's type is checked before its owner, so
      another user's expense category is reported as a type mismatch. */
  function CreateIncome(db: Store, user: Id, b: TxBody, now: int, newId: Id, createdAt: int): (r: Outcome<Tx>)
    ensures Filled(b) && Named(db.categories, b.category.value).Some? ==>
      var c := Named(db.categories, b.category.value).value;
      && (c.kind != Income ==> r == Fail(db, 400, CategoryTypeMismatch))
      && (c.kind == Income && !Permitted(c, user) ==> r == Fail(db, 400, CategoryNotOwned))
    ensures r.response.Ok? ==>
      Filled(b) && Named(db.categories, b.category.value).Some?
      && Usable(Named(db.categories, b.category.value).value, user, Income)
  {
    Create(db, user, Income, b, now, newId, createdAt)
  }

  /** `createExpense`: the owner is checked before the type, so another
      user's income category is reported as not belonging to the user. */
  function CreateExpense(db: Store, user: Id, b: TxBody, now: int, newId: Id, createdAt: int): (r: Outcome<Tx>)
    ensures Filled(b) && Named(db.categories, b.category.value).Some? ==>
      var c := Named(db.categories, b.category.value).value;
      && (!Permitted(c, user) ==> r == Fail(db, 400, CategoryNotOwned))
      && (Permitted(c, user) && c.kind != Expense ==> r == Fail(db, 400, CategoryTypeMismatch))
    ensures r.response.Ok? ==>
      Filled(b) && Named(db.categories, b.category.value).Some?
      && Usable(Named(db.categories, b.category.value).value, user, Expense)
  {
    Create(db, user, Expense, b, now, newId, createdAt)
  }

  // ---------------------------------------------------------------------
  // Read

  /** `isValidObjectId(id)`, `findById(id)` and the owner check that get,
      update and delete share: the position of the requester's record, or
      the first check that fails, in the order 400, 404, 403. */
  function Locate(s: seq<Tx>, user: Id, id: string): (r: Response<nat>)
    ensures !IsValidObjectId(id) ==> r == Err(400, InvalidId)
    ensures IsValidObjectId(id) && FindTx(s, CanonicalId(id)).None? ==> r == Err(404, NotFound)
    ensures IsValidObjectId(id) && FindTx(s, CanonicalId(id)).Some? ==>
      (r == Err(403, Forbidden) <==> s[FindTx(s, CanonicalId(id)).value].user != user)
    ensures r.Ok? ==> r.body < |s| && s[r.body].id == CanonicalId(id) && s[r.body].user == user
    ensures r.Err? ==> r.status in {400, 403, 404}
  {
    if !IsValidObjectId(id) then Err(400, InvalidId)
    else match FindTx(s, CanonicalId(id))
      case None => Err(404, NotFound)
      case Some(i) => if s[i].user != user then Err(403, Forbidden) else Ok(200, i)
  }

  /** `getIncomeById` / `getExpenseById`. */
  function Get(db: Store, user: Id, k: Kind, id: string): (r: Response<Tx>)
    ensures r.Err? <==> Locate(Collection(db, k), user, id).Err?
    ensures r.Err? ==> r == Err(Locate(Collection(db, k), user, id).status, Locate(Collection(db, k), user, id).reason)
    ensures r.Ok? ==>
      r.status == 200 && r.body in Collection(db, k) && r.body.id == CanonicalId(id) && r.body.user == user
  {
    match Locate(Collection(db, k), user, id)
    case Ok(_, i) => Ok(200, Collection(db, k)[i])
    case Err(s, e) => Err(s, e)
  }

  /** `getIncome` / `getExpenses`: the requester's records, later date
      first, each with its category. */
  function List(db: Store, user: Id, k: Kind): (r: seq<Listed>)
    ensures forall i :: 0 <= i < |r| ==>
      r[i].kind == k && r[i].tx in Collection(db, k) && r[i].tx.user == user
    ensures forall i :: 0 <= i < |r| ==> r[i].category == LookupCategory(db.categories, r[i].tx.category)
    ensures forall i, j :: 0 <= i < j < |r| ==> r[i].tx.date >= r[j].tx.date
    ensures |r| == |Matching(Collection(db, k), user, None)|
  {
    var m := SortLater(Tag(k, Matching(Collection(db, k), user, None)));
    var r := JoinAll(db.categories, m);
    forall i | 0 <= i < |r|
      ensures r[i].kind == k && r[i].tx in Collection(db, k) && r[i].tx.user == user
    {
      OfOwnTag(db, user, k, m, i);
    }
    r
  }

  lemma {:induction false} OfOwnTag(db: Store, user: Id, k: Kind, m: seq<Entry>, i: nat)
    requires multiset(m) == multiset(Tag(k, Matching(Collection(db, k), user, None)))
    requires i < |m|
    ensures m[i].kind == k && m[i].tx in Collection(db, k) && m[i].tx.user == user
  {
    assert m[i] in multiset(m);
    TagMembers(k, Matching(Collection(db, k), user, None), m[i]);
  }

  /** Every record of the requester's appears in the listing. */
  lemma {:induction false} ListHasAllOwn(db: Store, user: Id, k: Kind, t: Tx)
    requires t in Collection(db, k) && t.user == user
    ensures exists i :: 0 <= i < |List(db, user, k)| && List(db, user, k)[i].tx == t
  {
    var m := SortLater(Tag(k, Matching(Collection(db, k), user, None)));
    TagMembers(k, Matching(Collection(db, k), user, None), Entry(k, t));
    assert Entry(k, t) in multiset(m);
    var i :| 0 <= i < |m| && m[i] == Entry(k, t);
    assert List(db, user, k)[i].tx == t;
  }

  // ---------------------------------------------------------------------
  // Update

  /** The update document `{ ...req.body }` applied to a stored record.
      Title and note are trimmed when truthy; trimming "" gives "", so the
      guard makes no difference. Fields absent from the body are kept. */
  function Patch(t: Tx, b: TxBody): (r: Tx)
    ensures r.id == t.id && r.user == t.user && r.createdAt == t.createdAt
  {
    t.(title := if b.title.Some? then Trim(b.title.value) else t.title,
       amount := b.amount.GetOr(t.amount),
       category := if b.category.Some? then CanonicalId(b.category.value) else t.category,
       date := b.date.GetOr(t.date),
       note := if b.note.Some? then Trim(b.note.value) else t.note)
  }

  /** `runValidators` checks only the paths the update sets: a title that
      is empty once trimmed fails `required`, an amount below 0.01 fails
      `min`, an empty category cannot be cast to an ObjectId, and a date
      beyond TimeClip's range cannot be cast to a `Date`. */
  predicate PatchAccepted(b: TxBody)
  {
    && (b.title.Some? ==> |Trim(b.title.value)| > 0)
    && (b.amount.Some? ==> b.amount.value >= MinAmount)
    && b.category != Some("")
    && (b.date.Some? ==> Clip(b.date.value).Some?)
  }

  /** `updateIncomeById` / `updateExpenseById`. After the 400/404/403
      checks, a truthy `category` is checked for validity, existence,
      owner and then type (the owner first in both controllers). */
  function Update(db: Store, user: Id, k: Kind, id: string, b: TxBody): (r: Outcome<Tx>)
    ensures Locate(Collection(db, k), user, id).Err? ==>
      r == Fail(db, Locate(Collection(db, k), user, id).status, Locate(Collection(db, k), user, id).reason)
    ensures (Locate(Collection(db, k), user, id).Ok? && Truthy(b.category)
      && CategoryFault(db.categories, user, k, b.category.value, true).Some?) ==>
      r == Fail(db, 400, CategoryFault(db.categories, user, k, b.category.value, true).value)
    ensures (Locate(Collection(db, k), user, id).Ok?
      && (Truthy(b.category) ==> CategoryFault(db.categories, user, k, b.category.value, true).None?)
      && !PatchAccepted(b)) ==>
      r == Fail(db, 500, ValidationFailed)
    ensures r.response.Ok? <==>
      Locate(Collection(db, k), user, id).Ok?
      && (Truthy(b.category) ==> CategoryFault(db.categories, user, k, b.category.value, true).None?)
      && PatchAccepted(b)
    ensures r.response.Ok? ==>
      var i := Locate(Collection(db, k), user, id).body;
      var old_ := Collection(db, k)[i];
      var t := r.response.body;
      && r.response.status == 200
      && r.db == WithCollection(db, k, Collection(db, k)[i := t])
      && t.id == old_.id && t.user == user && t.createdAt == old_.createdAt
      && t.title == (if b.title.Some? then Trim(b.title.value) else old_.title)
      && t.note == (if b.note.Some? then Trim(b.note.value) else old_.note)
      && t.amount == b.amount.GetOr(old_.amount)
      && t.date == b.date.GetOr(old_.date)
      && t.category == (if b.category.Some? then CanonicalId(b.category.value) else old_.category)
    ensures (Locate(Collection(db, k), user, id).Ok?
      && (Truthy(b.category) ==> CategoryFault(db.categories, user, k, b.category.value, true).None?)
      && b.date.Some? && Clip(b.date.value).None?) ==>
      r == Fail(db, 500, ValidationFailed)
    ensures r.response.Err? ==> r.db == db
  {
    match Locate(Collection(db, k), user, id)
    case Err(s, e) => Fail(db, s, e)
    case Ok(_, i) =>
      if Truthy(b.category) && CategoryFault(db.categories, user, k, b.category.value, true).Some? then
        Fail(db, 400, CategoryFault(db.categories, user, k, b.category.value, true).value)
      else if !PatchAccepted(b) then Fail(db, 500, ValidationFailed)
      else
        var t := Patch(Collection(db, k)[i], b);
        Outcome(Ok(200, t), WithCollection(db, k, Collection(db, k)[i := t]))
  }

  // ---------------------------------------------------------------------
  // Delete

  /** `deleteIncomeById` / `deleteExpenseById`. */
  function Delete(db: Store, user: Id, k: Kind, id: string): (r: Outcome<()>)
    ensures Locate(Collection(db, k), user, id).Err? ==>
      r == Fail(db, Locate(Collection(db, k), user, id).status, Locate(Collection(db, k), user, id).reason)
    ensures r.response.Ok? <==> Locate(Collection(db, k), user, id).Ok?
    ensures r.response.Ok? ==>
      var i := Locate(Collection(db, k), user, id).body;
      && r.response.status == 200
      && r.db == WithCollection(db, k, RemoveAt(Collection(db, k), i))
  {
    match Locate(Collection(db, k), user, id)
    case Err(s, e) => Fail(db, s, e)
    case Ok(_, i) => Outcome(Ok(200, ()), WithCollection(db, k, RemoveAt(Collection(db, k), i)))
  }

  // ---------------------------------------------------------------------
  // Properties

  /** The other collection. */
  function Other(k: Kind): Kind
  {
    if k == Income then Expense else Income
  }

  lemma {:induction false} AppendKeepsIdsUnique(s: seq<Tx>, t: Tx)
    requires TxIdsUnique(s) && FindTx(s, t.id).None?
    ensures TxIdsUnique(s + [t])
  {
  }

  lemma {:induction false} ReplaceKeepsIdsUnique(s: seq<Tx>, i: nat, t: Tx)
    requires TxIdsUnique(s) && i < |s| && t.id == s[i].id
    ensures TxIdsUnique(s[i := t])
  {
  }

  lemma {:induction false} RemoveKeepsIdsUnique(s: seq<Tx>, i: nat)
    requires TxIdsUnique(s) && i < |s|
    ensures TxIdsUnique(RemoveAt(s, i))
  {
    var r := RemoveAt(s, i);
    forall a, b | 0 <= a < b < |r| ensures r[a].id != r[b].id {
      assert r[a] == s[if a < i then a else a + 1];
      assert r[b] == s[if b < i then b else b + 1];
    }
  }

  /** With unique ids, removing the record at `i` removes exactly the records with its id. */
  lemma {:induction false} RemoveById(s: seq<Tx>, i: nat, t: Tx)
    requires TxIdsUnique(s) && i < |s|
    ensures t in RemoveAt(s, i) <==> t in s && t.id != s[i].id
  {
    RemoveAtMembers(s, i, t);
    if t in s && t.id != s[i].id {
      var j :| 0 <= j < |s| && s[j] == t;
      assert j != i;
    }
  }

  /** A store whose collection `k` is replaced keeps the invariant when the
      new collection holds valid records with unique ids. */
  lemma {:induction false} WithValidCollection(db: Store, k: Kind, s: seq<Tx>)
    requires StoreInvariant(db)
    requires forall i :: 0 <= i < |s| ==> ValidTx(s[i])
    requires TxIdsUnique(s)
    ensures StoreInvariant(WithCollection(db, k, s))
  {
  }

  /** Appending a valid record with a fresh id keeps the invariant. */
  lemma {:induction false} AppendKeepsInvariant(db: Store, k: Kind, t: Tx)
    requires StoreInvariant(db) && ValidTx(t) && FindTx(Collection(db, k), t.id).None?
    ensures StoreInvariant(WithCollection(db, k, Collection(db, k) + [t]))
  {
    var c := Collection(db, k);
    var s := c + [t];
    assert forall i :: 0 <= i < |c| ==> ValidTx(c[i]);
    forall i | 0 <= i < |s| ensures ValidTx(s[i]) {
      if i < |c| { assert s[i] == c[i]; }
    }
    AppendKeepsIdsUnique(c, t);
    WithValidCollection(db, k, s);
  }

  /** A successful create keeps the schema and index invariants. */
  lemma {:induction false} CreateKeepsInvariant(db: Store, user: Id, k: Kind, b: TxBody, now: int, newId: Id, createdAt: int)
    requires StoreInvariant(db)
    ensures StoreInvariant(Create(db, user, k, b, now, newId, createdAt).db)
  {
    var r := Create(db, user, k, b, now, newId, createdAt);
    if r.response.Ok? {
      assert ValidTx(r.response.body);
      AppendKeepsInvariant(db, k, r.response.body);
    }
  }

  /** A successful create adds exactly the new record at the end of its
      collection; the category it names is one the requester may use. */
  lemma {:induction false} CreateAddsOne(db: Store, user: Id, k: Kind, b: TxBody, now: int, newId: Id, createdAt: int)
    requires Create(db, user, k, b, now, newId, createdAt).response.Ok?
    ensures var r := Create(db, user, k, b, now, newId, createdAt);
      && multiset(Collection(r.db, k)) == multiset(Collection(db, k)) + multiset{r.response.body}
      && Collection(r.db, Other(k)) == Collection(db, Other(k))
      && r.db.categories == db.categories
      && ValidTx(r.response.body) && r.response.body.user == user
      && Usable(Named(db.categories, b.category.value).value, user, k)
  {
    var r := Create(db, user, k, b, now, newId, createdAt);
    var t := r.response.body;
    assert CategoryFault(db.categories, user, k, b.category.value, k == Expense).None?;
    assert t == NewTx(user, b, now, newId, createdAt);
    assert r.db == WithCollection(db, k, Collection(db, k) + [t]);
    assert Collection(r.db, k) == Collection(db, k) + [t];
    assert multiset(Collection(r.db, k)) == multiset(Collection(db, k)) + multiset{t};
    assert Other(k) == if k == Income then Expense else Income;
  }

  /** Reading back a created record by its id finds it. */
  lemma {:induction false} CreateThenGet(db: Store, user: Id, k: Kind, b: TxBody, now: int, newId: Id, createdAt: int)
    requires IsValidObjectId(newId) && CanonicalId(newId) == newId
    requires Create(db, user, k, b, now, newId, createdAt).response.Ok?
    ensures var r := Create(db, user, k, b, now, newId, createdAt);
      Get(r.db, user, k, newId) == Ok(200, r.response.body)
  {
    var r := Create(db, user, k, b, now, newId, createdAt);
    var s := Collection(r.db, k);
    assert FindTx(s, newId) == Some(|s| - 1);
  }

  /** Only the owner gets a record: anyone else is refused with 403. */
  lemma {:induction false} GetByOtherForbidden(db: Store, user: Id, k: Kind, id: string)
    requires IsValidObjectId(id) && FindTx(Collection(db, k), CanonicalId(id)).Some?
    requires Collection(db, k)[FindTx(Collection(db, k), CanonicalId(id)).value].user != user
    ensures Get(db, user, k, id) == Err(403, Forbidden)
    ensures Update(db, user, k, id, TxBody(None, None, None, None, None)).response == Err(403, Forbidden)
    ensures Delete(db, user, k, id).response == Err(403, Forbidden)
  {
  }

  /** A successful update keeps the schema and index invariants. */
  lemma {:induction false} UpdateKeepsInvariant(db: Store, user: Id, k: Kind, id: string, b: TxBody)
    requires StoreInvariant(db)
    ensures StoreInvariant(Update(db, user, k, id, b).db)
  {
    var r := Update(db, user, k, id, b);
    if r.response.Ok? {
      var i := Locate(Collection(db, k), user, id).body;
      var s := Collection(db, k)[i := r.response.body];
      assert ValidTx(r.response.body) by {
        assert ValidTx(Collection(db, k)[i]);
      }
      assert forall j :: 0 <= j < |s| ==> ValidTx(s[j]) by {
        forall j | 0 <= j < |s| ensures ValidTx(s[j]) {
          if j != i { assert s[j] == Collection(db, k)[j]; }
        }
      }
      ReplaceKeepsIdsUnique(Collection(db, k), i, r.response.body);
      WithValidCollection(db, k, s);
    }
  }

  /** Reading back an updated record gives the updated document. */
  lemma {:induction false} UpdateThenGet(db: Store, user: Id, k: Kind, id: string, b: TxBody)
    requires TxIdsUnique(Collection(db, k))
    requires Update(db, user, k, id, b).response.Ok?
    ensures var r := Update(db, user, k, id, b);
      Get(r.db, user, k, id) == Ok(200, r.response.body)
  {
    var r := Update(db, user, k, id, b);
    var i := Locate(Collection(db, k), user, id).body;
    var s := Collection(r.db, k);
    ReplaceKeepsIdsUnique(Collection(db, k), i, r.response.body);
    FindTxUnique(s, i);
  }

  /** Sending the same update twice leaves the store as the first one did. */
  lemma {:induction false} UpdateIdempotent(db: Store, user: Id, k: Kind, id: string, b: TxBody)
    requires TxIdsUnique(Collection(db, k))
    requires Update(db, user, k, id, b).response.Ok?
    ensures var r := Update(db, user, k, id, b);
      Update(r.db, user, k, id, b) == Outcome(Ok(200, r.response.body), r.db)
  {
    var r := Update(db, user, k, id, b);
    var i := Locate(Collection(db, k), user, id).body;
    var s := Collection(r.db, k);
    ReplaceKeepsIdsUnique(Collection(db, k), i, r.response.body);
    FindTxUnique(s, i);
    FindTxUnique(Collection(db, k), i);
    assert Locate(s, user, id) == Ok(200, i);
    assert s[i := Patch(s[i], b)] == s;
  }

  /** A successful delete removes exactly the record with that id: the
      rest of its collection, the other collection and the categories are
      as they were. */
  lemma {:induction false} DeleteRemovesExactly(db: Store, user: Id, k: Kind, id: string)
    requires TxIdsUnique(Collection(db, k))
    requires Delete(db, user, k, id).response.Ok?
    ensures var r := Delete(db, user, k, id);
      && (forall t :: t in Collection(r.db, k) <==> t in Collection(db, k) && t.id != CanonicalId(id))
      && |Collection(r.db, k)| == |Collection(db, k)| - 1
      && Collection(r.db, Other(k)) == Collection(db, Other(k))
      && r.db.categories == db.categories
  {
    var s := Collection(db, k);
    var i := Locate(s, user, id).body;
    forall t ensures t in RemoveAt(s, i) <==> t in s && t.id != CanonicalId(id) {
      RemoveById(s, i, t);
    }
  }

  /** After a delete the id is gone: reading it back is a 404. */
  lemma {:induction false} DeleteThenGet(db: Store, user: Id, k: Kind, id: string)
    requires TxIdsUnique(Collection(db, k))
    requires Delete(db, user, k, id).response.Ok?
    ensures Get(Delete(db, user, k, id).db, user, k, id) == Err(404, NotFound)
  {
    var r := Delete(db, user, k, id);
    DeleteRemovesExactly(db, user, k, id);
    var s := Collection(r.db, k);
    forall j | 0 <= j < |s| ensures s[j].id != CanonicalId(id) {
      assert s[j] in s;
    }
  }

  /** A successful delete keeps the schema and index invariants. */
  lemma {:induction false} DeleteKeepsInvariant(db: Store, user: Id, k: Kind, id: string)
    requires StoreInvariant(db)
    ensures StoreInvariant(Delete(db, user, k, id).db)
  {
    var r := Delete(db, user, k, id);
    if r.response.Ok? {
      var s := Collection(db, k);
      var i := Locate(s, user, id).body;
      var rest := RemoveAt(s, i);
      assert forall j :: 0 <= j < |s| ==> ValidTx(s[j]);
      RemoveKeepsIdsUnique(s, i);
      WithValidCollection(db, k, rest);
    }
  }
}
