/** Transactions as the listings see them: filtered by owner and date,
    tagged with the collection they come from, ordered newest first and
    joined with their category. */
module Entries {
  import opened Base
  import opened Sorting
  import opened Records
  import opened DateMatch

  /** A transaction tagged with its collection (the `_type` / `type` field
      the listings add). */
  datatype Entry = Entry(kind: Kind, tx: Tx)

  /** A listed transaction together with its category, or `None` when the
      category document no longer exists. */
  datatype Listed = Listed(kind: Kind, tx: Tx, category: Option<Category>)

  function Tag(k: Kind, s: seq<Tx>): (r: seq<Entry>)
    ensures |r| == |s|
    ensures forall i :: 0 <= i < |r| ==> r[i] == Entry(k, s[i])
  {
    seq(|s|, i requires 0 <= i < |s| => Entry(k, s[i]))
  }

  /** The entries of a tagged collection are its records under its tag. */
  lemma {:induction false} TagMembers(k: Kind, s: seq<Tx>, e: Entry)
    ensures e in Tag(k, s) <==> e.kind == k && e.tx in s
  {
    var r := Tag(k, s);
    if e.kind == k && e.tx in s {
      var i :| 0 <= i < |s| && s[i] == e.tx;
      assert r[i] == e;
    }
  }

  /** Tagging keeps the multiplicity of every record. */
  lemma {:induction false} TagCount(k: Kind, s: seq<Tx>, e: Entry)
    ensures multiset(Tag(k, s))[e] == if e.kind == k then multiset(s)[e.tx] else 0
    decreases |s|
  {
    if |s| > 0 {
      var init := s[..|s| - 1];
      assert s == init + [s[|s| - 1]];
      assert Tag(k, s) == Tag(k, init) + [Entry(k, s[|s| - 1])];
      TagCount(k, init, e);
    }
  }

  /** `{ user: userId, date: <window> }`: the owner matches and the date passes the window. */
  predicate Selected(user: Id, w: Option<Window>, t: Tx)
  {
    t.user == user && InWindow(w, t.date)
  }

  /** The records of one collection that a `$match` on owner and date keeps. */
  function Matching(s: seq<Tx>, user: Id, w: Option<Window>): (r: seq<Tx>)
    ensures forall t :: t in r <==> t in s && Selected(user, w, t)
    ensures forall t :: multiset(r)[t] == if Selected(user, w, t) then multiset(s)[t] else 0
  {
    var r := Filter(s, t => Selected(user, w, t));
    assert forall t :: t in r <==> t in s && Selected(user, w, t) by {
      forall t ensures t in r <==> t in s && Selected(user, w, t) {
        FilterMembers(s, t => Selected(user, w, t), t);
      }
    }
    r
  }

  /** `{ date: -1, createdAt: -1 }`: later date first, then later creation. */
  predicate NewestFirst(a: Entry, b: Entry)
  {
    a.tx.date > b.tx.date || (a.tx.date == b.tx.date && a.tx.createdAt >= b.tx.createdAt)
  }

  /** `{ date: -1 }` alone, and `(a, b) => new Date(b.date) - new Date(a.date)`. */
  predicate LaterFirst(a: Entry, b: Entry)
  {
    a.tx.date >= b.tx.date
  }

  lemma {:induction false} NewestFirstOrder()
    ensures TotalPreorder(NewestFirst)
  {
  }

  lemma {:induction false} LaterFirstOrder()
    ensures TotalPreorder(LaterFirst)
  {
  }

  /** `$sort: { date: -1, createdAt: -1 }`. */
  function SortNewest(es: seq<Entry>): (r: seq<Entry>)
    ensures multiset(r) == multiset(es) && |r| == |es|
    ensures Sorted(r, NewestFirst)
  {
    NewestFirstOrder();
    Sort(es, NewestFirst)
  }

  /** `sort({ date: -1 })` and the date comparator of the combined list. */
  function SortLater(es: seq<Entry>): (r: seq<Entry>)
    ensures multiset(r) == multiset(es) && |r| == |es|
    ensures Sorted(r, LaterFirst)
  {
    LaterFirstOrder();
    Sort(es, LaterFirst)
  }

  /** `$lookup` of the category followed by `$unwind` that keeps entries
      whose category is gone. */
  function Join(cs: seq<Category>, e: Entry): (r: Listed)
    ensures r.kind == e.kind && r.tx == e.tx
    ensures r.category.Some? ==> r.category.value in cs && r.category.value.id == e.tx.category
    ensures r.category.None? ==> forall i :: 0 <= i < |cs| ==> cs[i].id != e.tx.category
  {
    Listed(e.kind, e.tx, LookupCategory(cs, e.tx.category))
  }

  function JoinAll(cs: seq<Category>, es: seq<Entry>): (r: seq<Listed>)
    ensures |r| == |es|
    ensures forall i :: 0 <= i < |r| ==> r[i] == Join(cs, es[i])
  {
    seq(|es|, i requires 0 <= i < |es| => Join(cs, es[i]))
  }

  function Amount(t: Tx): int { t.amount }
}
