/** Ordering and sorting. Every `$sort` stage and every `Array.prototype.sort`
    of the source is modelled by `Sort`, a stable insertion sort under a
    total preorder `le` ("may come first"). */
module Sorting {

  ghost predicate TotalPreorder<T(!new)>(le: (T, T) -> bool)
  {
    && (forall a, b :: le(a, b) || le(b, a))
    && (forall a, b, c :: le(a, b) && le(b, c) ==> le(a, c))
  }

  predicate Sorted<T>(s: seq<T>, le: (T, T) -> bool)
  {
    forall i, j :: 0 <= i < j < |s| ==> le(s[i], s[j])
  }

  function Insert<T(!new)>(x: T, s: seq<T>, le: (T, T) -> bool): (r: seq<T>)
    requires TotalPreorder(le) && Sorted(s, le)
    ensures multiset(r) == multiset(s) + multiset{x}
    ensures Sorted(r, le)
  {
    if |s| == 0 then [x]
    else if le(x, s[0]) then
      assert forall j :: 0 <= j < |s| ==> le(x, s[j]) by {
        forall j | 0 <= j < |s| ensures le(x, s[j]) {
          if j > 0 { assert le(s[0], s[j]); }
        }
      }
      [x] + s
    else
      var tail := Insert(x, s[1..], le);
      assert s == [s[0]] + s[1..];
      HeadFirst(x, s, tail, le);
      [s[0]] + tail
  }

  /** The head of a sorted sequence may come before the rest with `x`
      inserted, when `x` may not come before the head. */
  lemma {:induction false} HeadFirst<T(!new)>(x: T, s: seq<T>, tail: seq<T>, le: (T, T) -> bool)
    requires TotalPreorder(le) && Sorted(s, le) && |s| > 0 && !le(x, s[0])
    requires multiset(tail) == multiset(s[1..]) + multiset{x}
    ensures forall j :: 0 <= j < |tail| ==> le(s[0], tail[j])
  {
    forall j | 0 <= j < |tail| ensures le(s[0], tail[j]) {
      assert tail[j] in multiset(tail);
      if tail[j] != x {
        assert tail[j] in multiset(s[1..]);
        var k :| 0 <= k < |s[1..]| && s[1..][k] == tail[j];
        assert le(s[0], s[k + 1]);
      }
    }
  }

  /** The sorted permutation of `s` (insertion sort). */
  function Sort<T(!new)>(s: seq<T>, le: (T, T) -> bool): (r: seq<T>)
    requires TotalPreorder(le)
    ensures multiset(r) == multiset(s)
    ensures |r| == |s|
    ensures Sorted(r, le)
  {
    if |s| == 0 then []
    else
      assert s == [s[0]] + s[1..];
      Insert(s[0], Sort(s[1..], le), le)
  }

  /** The first `n` elements, or all of them when there are fewer (`$limit`). */
  function Take<T>(s: seq<T>, n: nat): (r: seq<T>)
    ensures |r| == if n < |s| then n else |s|
    ensures r == s[..|r|]
  {
    if n < |s| then s[..n] else s
  }

  /** In a sorted sequence, an element outside the first `n` ranks no
      earlier than the last of them (a top-`n` list). */
  lemma {:induction false} TakeOfSorted<T>(s: seq<T>, le: (T, T) -> bool, n: nat, x: T)
    requires Sorted(s, le) && x in s && n > 0
    ensures x in Take(s, n) || (|Take(s, n)| == n && le(s[n - 1], x))
  {
    var k :| 0 <= k < |s| && s[k] == x;
    if k < n {
      assert Take(s, n)[k] == x;
    } else {
      assert le(s[n - 1], s[k]);
    }
  }

  /** The elements of a sequence holding the elements of two others are
      those of either. */
  lemma {:induction false} UnionMembers<T>(r: seq<T>, a: seq<T>, b: seq<T>, x: T)
    requires multiset(r) == multiset(a) + multiset(b)
    ensures x in r <==> x in a || x in b
  {
    assert x in r <==> x in multiset(r);
    assert x in a <==> x in multiset(a);
    assert x in b <==> x in multiset(b);
  }

  /** The elements satisfying `p`, in their original order (a `$match` stage). */
  function Filter<T(!new)>(s: seq<T>, p: T -> bool): (r: seq<T>)
    ensures |r| <= |s|
    ensures forall i :: 0 <= i < |r| ==> p(r[i])
    ensures forall x :: multiset(r)[x] == if p(x) then multiset(s)[x] else 0
    decreases |s|
  {
    if |s| == 0 then []
    else
      var init := s[..|s| - 1];
      var y := s[|s| - 1];
      assert s == init + [y];
      if p(y) then Filter(init, p) + [y] else Filter(init, p)
  }

  lemma {:induction false} FilterMembers<T(!new)>(s: seq<T>, p: T -> bool, x: T)
    ensures x in Filter(s, p) <==> x in s && p(x)
  {
    assert x in Filter(s, p) <==> multiset(Filter(s, p))[x] > 0;
    assert x in s <==> multiset(s)[x] > 0;
  }

  /** `s` without its element at position `i` (a `findByIdAndDelete`). */
  function RemoveAt<T>(s: seq<T>, i: nat): (r: seq<T>)
    requires i < |s|
    ensures |r| == |s| - 1
    ensures forall j :: 0 <= j < |r| ==> r[j] == s[if j < i then j else j + 1]
  {
    s[..i] + s[i + 1..]
  }

  /** The elements left after a removal are those held at the other positions. */
  lemma {:induction false} RemoveAtMembers<T>(s: seq<T>, i: nat, x: T)
    requires i < |s|
    ensures x in RemoveAt(s, i) <==> exists j :: 0 <= j < |s| && j != i && s[j] == x
  {
    var r := RemoveAt(s, i);
    if x in r {
      var a :| 0 <= a < |r| && r[a] == x;
      assert s[if a < i then a else a + 1] == x;
    }
    if exists j :: 0 <= j < |s| && j != i && s[j] == x {
      var j :| 0 <= j < |s| && j != i && s[j] == x;
      assert r[if j < i then j else j - 1] == x;
    }
  }
}
