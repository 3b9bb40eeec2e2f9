/** The category controller: create a category of the requester's, list
    the categories a user sees, and read, update or delete one category by
    id. The unique index on `(user, title, type)` over user-owned
    categories turns a clash into the reply 409. */
module CategoryController {
  import opened Base
  import opened JsString
  import opened Sorting
  import opened Records

  /** The fields of `req.body` the handlers read; `None` is a field that is absent. */
  datatype CategoryBody = CategoryBody(
    title: Option<string>,
    kind: Option<string>,
    icon: Option<string>,
    color: Option<string>)

  /** `findOne({ title, type, user })` finds a document. */
  predicate Taken(cs: seq<Category>, title: string, kind: string, user: Id)
  {
    exists i :: 0 <= i < |cs| && cs[i].title == title && KindName(cs[i].kind) == kind && cs[i].user == Some(user)
  }

  /** The document `create` builds: trimmed title, owner the requester,
      `isDefault` false, icon and color defaulting to "". */
  function NewCategory(user: Id, b: CategoryBody, k: Kind, newId: Id, createdAt: int): Category
    requires b.title.Some?
  {
    Category(newId, Trim(b.title.value), b.icon.GetOr(""), k, Some(user), false, b.color.GetOr(""), createdAt)
  }

  /** `createCategory`. A clash of the new `_id` with a stored one is also
      a duplicate-key error (code 11000), so it too replies 409. A clash on
      the `(user, title, type)` index cannot reach `create`: the `findOne`
      before it looks for exactly that key. */
  function Create(db: Store, user: Id, b: CategoryBody, newId: Id, createdAt: int): (r: Outcome<Category>)
    ensures !Truthy(b.title) || !Truthy(b.kind) ==> r == Fail(db, 400, TitleAndTypeRequired)
    ensures Truthy(b.title) && Truthy(b.kind) && Taken(db.categories, Trim(b.title.value), b.kind.value, user) ==>
      r == Fail(db, 409, AlreadyExists)
    ensures r.response.Ok? <==>
      && Truthy(b.title) && Truthy(b.kind)
      && !Taken(db.categories, Trim(b.title.value), b.kind.value, user)
      && ParseKind(b.kind.value).Some? && |Trim(b.title.value)| > 0
      && FindCategory(db.categories, newId).None?
    ensures r.response.Ok? ==>
      var c := r.response.body;
      && r.response.status == 201
      && r.db == db.(categories := db.categories + [c])
      && c.id == newId && c.user == Some(user) && !c.isDefault && c.createdAt == createdAt
      && c.title == Trim(b.title.value) && KindName(c.kind) == b.kind.value
      && c.icon == b.icon.GetOr("") && c.color == b.color.GetOr("")
    ensures r.response.Err? ==> r.db == db && r.response.status in {400, 409, 500}
  {
    if !Truthy(b.title) || !Truthy(b.kind) then Fail(db, 400, TitleAndTypeRequired)
    else
      var title := Trim(b.title.value);
      if Taken(db.categories, title, b.kind.value, user) then Fail(db, 409, AlreadyExists)
      else match ParseKind(b.kind.value)
        case None => Fail(db, 500, ValidationFailed)
        case Some(k) =>
          if |title| == 0 then Fail(db, 500, ValidationFailed)
          else if FindCategory(db.categories, newId).Some? then Fail(db, 409, AlreadyExists)
          else
            var c := NewCategory(user, b, k, newId, createdAt);
            Outcome(Ok(201, c), db.(categories := db.categories + [c]))
  }

  /** `{ $or: [{ user: null }, { user: userId }] }`. */
  predicate Visible(c: Category, user: Id)
  {
    c.user.None? || c.user == Some(user)
  }

  /** `sort({ createdAt: -1 })`. */
  predicate NewerFirst(a: Category, b: Category)
  {
    a.createdAt >= b.createdAt
  }

  lemma {:induction false} NewerFirstOrder()
    ensures TotalPreorder(NewerFirst)
  {
  }

  /** `getCategories`: the defaults and the requester's own, newest first. */
  function List(db: Store, user: Id): (r: seq<Category>)
    ensures forall c :: c in r <==> c in db.categories && Visible(c, user)
    ensures forall c :: multiset(r)[c] == if Visible(c, user) then multiset(db.categories)[c] else 0
    ensures Sorted(r, NewerFirst)
  {
    var v := Filter(db.categories, c => Visible(c, user));
    NewerFirstOrder();
    var r := Sort(v, NewerFirst);
    forall c ensures c in r <==> c in db.categories && Visible(c, user) {
      assert c in r <==> c in multiset(v);
      FilterMembers(db.categories, c => Visible(c, user), c);
    }
    r
  }

  /** `getCategoryById`: any category by id, whoever owns it. */
  function Get(db: Store, id: string): (r: Response<Category>)
    ensures !IsValidObjectId(id) ==> r == Err(400, InvalidId)
    ensures IsValidObjectId(id) && FindCategory(db.categories, CanonicalId(id)).None? ==> r == Err(404, NotFound)
    ensures r.Ok? <==> IsValidObjectId(id) && FindCategory(db.categories, CanonicalId(id)).Some?
    ensures r.Ok? ==> r.status == 200 && r.body in db.categories && r.body.id == CanonicalId(id)
  {
    if !IsValidObjectId(id) then Err(400, InvalidId)
    else match FindCategory(db.categories, CanonicalId(id))
      case None => Err(404, NotFound)
      case Some(i) => Ok(200, db.categories[i])
  }

  /** `runValidators` on the paths the update sets: a title that is empty
      once trimmed fails `required`, a type outside the enum fails `enum`. */
  predicate PatchAccepted(b: CategoryBody)
  {
    && (b.title.Some? ==> |Trim(b.title.value)| > 0)
    && (b.kind.Some? ==> ParseKind(b.kind.value).Some?)
  }

  /** The update document `{ ...req.body }` applied to a stored category;
      the title is trimmed (trimming "" gives "", so the truthiness guard
      makes no difference). */
  function Patch(c: Category, b: CategoryBody): (r: Category)
    requires PatchAccepted(b)
    ensures r.id == c.id && r.user == c.user && r.isDefault == c.isDefault && r.createdAt == c.createdAt
  {
    c.(title := if b.title.Some? then Trim(b.title.value) else c.title,
       kind := if b.kind.Some? then ParseKind(b.kind.value).value else c.kind,
       icon := b.icon.GetOr(c.icon),
       color := b.color.GetOr(c.color))
  }

  /** Another stored category holds the owned key the patched one would have. */
  predicate KeyClash(cs: seq<Category>, i: nat, c: Category)
  {
    exists j :: 0 <= j < |cs| && j != i && SameOwnedKey(c, cs[j])
  }

  /** `updateCategoryById`. There is no ownership check: any user may
      update any category. The update validators run before the document is
      looked up, so a rejected value replies 500 even for a missing id. */
  function Update(db: Store, id: string, b: CategoryBody): (r: Outcome<Category>)
    ensures !IsValidObjectId(id) ==> r == Fail(db, 400, InvalidId)
    ensures IsValidObjectId(id) && !PatchAccepted(b) ==> r == Fail(db, 500, ValidationFailed)
    ensures IsValidObjectId(id) && PatchAccepted(b) && FindCategory(db.categories, CanonicalId(id)).None? ==>
      r == Fail(db, 404, NotFound)
    ensures r.response.Ok? <==>
      && IsValidObjectId(id) && PatchAccepted(b) && FindCategory(db.categories, CanonicalId(id)).Some?
      && var i := FindCategory(db.categories, CanonicalId(id)).value;
         !KeyClash(db.categories, i, Patch(db.categories[i], b))
    ensures r.response.Ok? ==>
      var i := FindCategory(db.categories, CanonicalId(id)).value;
      var c := r.response.body;
      && r.response.status == 200
      && r.db == db.(categories := db.categories[i := c])
      && c.id == db.categories[i].id && c.user == db.categories[i].user
      && (b.title.Some? ==> c.title == Trim(b.title.value))
      && (b.title.None? ==> c.title == db.categories[i].title)
      && (b.kind.Some? ==> KindName(c.kind) == b.kind.value)
      && (b.kind.None? ==> c.kind == db.categories[i].kind)
      && c.icon == b.icon.GetOr(db.categories[i].icon)
      && c.color == b.color.GetOr(db.categories[i].color)
      && c.isDefault == db.categories[i].isDefault && c.createdAt == db.categories[i].createdAt
    ensures r.response.Err? ==> r.db == db && r.response.status in {400, 404, 409, 500}
  {
    if !IsValidObjectId(id) then Fail(db, 400, InvalidId)
    else if !PatchAccepted(b) then Fail(db, 500, ValidationFailed)
    else match FindCategory(db.categories, CanonicalId(id))
      case None => Fail(db, 404, NotFound)
      case Some(i) =>
        var c := Patch(db.categories[i], b);
        if KeyClash(db.categories, i, c) then Fail(db, 409, AlreadyExists)
        else Outcome(Ok(200, c), db.(categories := db.categories[i := c]))
  }

  /** `deleteCategoryById`: the transactions filed under it are left alone. */
  function Delete(db: Store, id: string): (r: Outcome<()>)
    ensures !IsValidObjectId(id) ==> r == Fail(db, 400, InvalidId)
    ensures IsValidObjectId(id) && FindCategory(db.categories, CanonicalId(id)).None? ==> r == Fail(db, 404, NotFound)
    ensures r.response.Ok? <==> IsValidObjectId(id) && FindCategory(db.categories, CanonicalId(id)).Some?
    ensures r.response.Ok? ==>
      var i := FindCategory(db.categories, CanonicalId(id)).value;
      && r.response.status == 200
      && r.db == db.(categories := RemoveAt(db.categories, i))
  {
    if !IsValidObjectId(id) then Fail(db, 400, InvalidId)
    else match FindCategory(db.categories, CanonicalId(id))
      case None => Fail(db, 404, NotFound)
      case Some(i) => Outcome(Ok(200, ()), db.(categories := RemoveAt(db.categories, i)))
  }

  // ---------------------------------------------------------------------
  // Properties

  /** A store whose categories are replaced keeps the invariant when the new
      categories are valid, with unique ids and unique owned keys. */
  lemma {:induction false} WithValidCategories(db: Store, cs: seq<Category>)
    requires StoreInvariant(db)
    requires forall i :: 0 <= i < |cs| ==> ValidCategory(cs[i])
    requires CategoryIdsUnique(cs) && OwnedKeysUnique(cs)
    ensures StoreInvariant(db.(categories := cs))
  {
  }

  /** The category `create` stores clashes with no stored owned key. */
  lemma {:induction false} CreatedKeyIsFresh(db: Store, user: Id, b: CategoryBody, newId: Id, createdAt: int)
    requires Create(db, user, b, newId, createdAt).response.Ok?
    ensures var c := Create(db, user, b, newId, createdAt).response.body;
      forall i :: 0 <= i < |db.categories| ==> !SameOwnedKey(db.categories[i], c)
  {
    var c := Create(db, user, b, newId, createdAt).response.body;
    forall i | 0 <= i < |db.categories| ensures !SameOwnedKey(db.categories[i], c) {
    }
  }

  /** Appending a valid category with a fresh id and a fresh owned key keeps the invariant. */
  lemma {:induction false} AppendKeepsInvariant(db: Store, c: Category)
    requires StoreInvariant(db) && ValidCategory(c) && FindCategory(db.categories, c.id).None?
    requires forall i :: 0 <= i < |db.categories| ==> !SameOwnedKey(db.categories[i], c)
    ensures StoreInvariant(db.(categories := db.categories + [c]))
  {
    var s := db.categories;
    var cs := s + [c];
    assert forall i :: 0 <= i < |s| ==> ValidCategory(s[i]);
    assert CategoryIdsUnique(s) && OwnedKeysUnique(s);
    forall i, j | 0 <= i < j < |cs|
      ensures ValidCategory(cs[i]) && cs[i].id != cs[j].id && !SameOwnedKey(cs[i], cs[j])
    {
      assert cs[i] == s[i];
      if j < |s| { assert cs[j] == s[j]; }
    }
    forall i | 0 <= i < |cs| ensures ValidCategory(cs[i]) {
      if i < |s| { assert cs[i] == s[i]; }
    }
    WithValidCategories(db, cs);
  }

  /** A successful create keeps the schema and index invariants. */
  lemma {:induction false} CreateKeepsInvariant(db: Store, user: Id, b: CategoryBody, newId: Id, createdAt: int)
    requires StoreInvariant(db)
    ensures StoreInvariant(Create(db, user, b, newId, createdAt).db)
  {
    var r := Create(db, user, b, newId, createdAt);
    if r.response.Ok? {
      CreatedKeyIsFresh(db, user, b, newId, createdAt);
      assert ValidCategory(r.response.body);
      AppendKeepsInvariant(db, r.response.body);
    }
  }

  /** Creating the same category twice: the second request is refused with
      409 and stores nothing. */
  lemma {:induction false} CreateTwiceConflicts(db: Store, user: Id, b: CategoryBody, id1: Id, id2: Id, t1: int, t2: int)
    requires Create(db, user, b, id1, t1).response.Ok?
    ensures var db1 := Create(db, user, b, id1, t1).db;
      Create(db1, user, b, id2, t2) == Fail(db1, 409, AlreadyExists)
  {
    var r := Create(db, user, b, id1, t1);
    var cs := r.db.categories;
    assert cs[|cs| - 1] == r.response.body;
    assert Taken(cs, Trim(b.title.value), b.kind.value, user);
  }

  /** The requester sees a category they have just created. */
  lemma {:induction false} CreateThenListed(db: Store, user: Id, b: CategoryBody, newId: Id, createdAt: int)
    requires Create(db, user, b, newId, createdAt).response.Ok?
    ensures var r := Create(db, user, b, newId, createdAt);
      r.response.body in List(r.db, user)
  {
    var r := Create(db, user, b, newId, createdAt);
    assert r.response.body in r.db.categories;
  }

  /** Default categories are listed for every user; another user's own categories never are. */
  lemma {:induction false} ListVisibility(db: Store, user: Id, c: Category)
    requires c in db.categories
    ensures c.user.None? ==> c in List(db, user)
    ensures c.user.Some? && c.user.value != user ==> c !in List(db, user)
  {
  }

  lemma {:induction false} ReplaceKeepsCategoryIdsUnique(cs: seq<Category>, i: nat, c: Category)
    requires CategoryIdsUnique(cs) && i < |cs| && c.id == cs[i].id
    ensures CategoryIdsUnique(cs[i := c])
  {
  }

  /** A successful update keeps the schema and index invariants. */
  lemma {:induction false} UpdateKeepsInvariant(db: Store, id: string, b: CategoryBody)
    requires StoreInvariant(db)
    ensures StoreInvariant(Update(db, id, b).db)
  {
    var r := Update(db, id, b);
    if r.response.Ok? {
      var i := FindCategory(db.categories, CanonicalId(id)).value;
      var c := r.response.body;
      var cs := db.categories[i := c];
      assert ValidCategory(db.categories[i]);
      assert c == Patch(db.categories[i], b);
      assert ValidCategory(c);
      assert forall j :: 0 <= j < |db.categories| ==> ValidCategory(db.categories[j]);
      forall j | 0 <= j < |cs| ensures ValidCategory(cs[j]) {
        if j != i { assert cs[j] == db.categories[j]; }
      }
      assert !KeyClash(db.categories, i, c);
      assert OwnedKeysUnique(db.categories);
      forall a, a' | 0 <= a < a' < |cs| ensures !SameOwnedKey(cs[a], cs[a']) {
        if a == i {
          assert !SameOwnedKey(c, db.categories[a']);
        } else if a' == i {
          assert !SameOwnedKey(c, db.categories[a]);
        } else {
          assert cs[a] == db.categories[a] && cs[a'] == db.categories[a'];
        }
      }
      ReplaceKeepsCategoryIdsUnique(db.categories, i, c);
      WithValidCategories(db, cs);
    }
  }

  lemma {:induction false} RemoveKeepsCategoriesValid(db: Store, i: nat)
    requires StoreInvariant(db) && i < |db.categories|
    ensures var cs := RemoveAt(db.categories, i);
      && (forall j :: 0 <= j < |cs| ==> ValidCategory(cs[j]))
      && CategoryIdsUnique(cs) && OwnedKeysUnique(cs)
  {
    var s := db.categories;
    var cs := RemoveAt(s, i);
    assert forall j :: 0 <= j < |s| ==> ValidCategory(s[j]);
    assert CategoryIdsUnique(s) && OwnedKeysUnique(s);
    forall a, b | 0 <= a < b < |cs| ensures cs[a].id != cs[b].id && !SameOwnedKey(cs[a], cs[b]) {
      assert cs[a] == s[if a < i then a else a + 1];
      assert cs[b] == s[if b < i then b else b + 1];
    }
  }

  /** A successful delete keeps the schema and index invariants. */
  lemma {:induction false} DeleteKeepsInvariant(db: Store, id: string)
    requires StoreInvariant(db)
    ensures StoreInvariant(Delete(db, id).db)
  {
    var r := Delete(db, id);
    if r.response.Ok? {
      var i := FindCategory(db.categories, CanonicalId(id)).value;
      RemoveKeepsCategoriesValid(db, i);
      WithValidCategories(db, RemoveAt(db.categories, i));
    }
  }

  /** With unique ids, removing the category at `i` removes exactly the categories with its id. */
  lemma {:induction false} RemoveCategoryById(s: seq<Category>, i: nat, c: Category)
    requires CategoryIdsUnique(s) && i < |s|
    ensures c in RemoveAt(s, i) <==> c in s && c.id != s[i].id
  {
    RemoveAtMembers(s, i, c);
    if c in s && c.id != s[i].id {
      var j :| 0 <= j < |s| && s[j] == c;
      assert j != i;
    }
  }

  /** A successful delete removes exactly the category with that id and
      leaves the transactions alone; those filed under it now find no
      category. */
  lemma {:induction false} DeleteRemovesExactly(db: Store, id: string, t: Tx)
    requires CategoryIdsUnique(db.categories)
    requires Delete(db, id).response.Ok?
    ensures var r := Delete(db, id);
      && (forall c :: c in r.db.categories <==> c in db.categories && c.id != CanonicalId(id))
      && r.db.incomes == db.incomes && r.db.expenses == db.expenses
      && (t.category == CanonicalId(id) ==> LookupCategory(r.db.categories, t.category).None?)
  {
    var s := db.categories;
    var i := FindCategory(s, CanonicalId(id)).value;
    forall c ensures c in RemoveAt(s, i) <==> c in s && c.id != CanonicalId(id) {
      RemoveCategoryById(s, i, c);
    }
  }

  /** A category reads back by its id right after it is created. */
  lemma {:induction false} CreateThenGet(db: Store, user: Id, b: CategoryBody, newId: Id, createdAt: int)
    requires IsValidObjectId(newId) && CanonicalId(newId) == newId
    requires Create(db, user, b, newId, createdAt).response.Ok?
    ensures var r := Create(db, user, b, newId, createdAt);
      Get(r.db, newId) == Ok(200, r.response.body)
  {
    var r := Create(db, user, b, newId, createdAt);
    var s := r.db.categories;
    assert FindCategory(s, newId) == Some(|s| - 1);
  }

  /** After a delete the id reads back as 404. */
  lemma {:induction false} DeleteThenGet(db: Store, id: string)
    requires CategoryIdsUnique(db.categories)
    requires Delete(db, id).response.Ok?
    ensures Get(Delete(db, id).db, id) == Err(404, NotFound)
  {
    var i := FindCategory(db.categories, CanonicalId(id)).value;
    var s := Delete(db, id).db.categories;
    forall j | 0 <= j < |s| ensures s[j].id != CanonicalId(id) {
      assert s[j] in s;
      RemoveCategoryById(db.categories, i, s[j]);
    }
  }
}
