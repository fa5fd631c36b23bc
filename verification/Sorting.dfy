/**
 The stable sort the source calls as a library, and the two facts everything
 here takes from it: nothing is gained or lost, and a strict order on distinct
 elements leaves only one way to write a collection down.
*/
module Sorting {

  /** A strict order in which "neither is smaller" is itself transitive. */
  ghost predicate Ordering<T(!new)>(less: (T, T) -> bool) {
    && (forall x, y :: less(x, y) ==> !less(y, x))
    && (forall x, y, z :: less(x, y) && less(y, z) ==> less(x, z))
    && (forall x, y, z :: !less(x, y) && !less(y, z) ==> !less(x, z))
  }

  ghost predicate Sorted<T>(less: (T, T) -> bool, s: seq<T>) {
    forall i, j :: 0 <= i < j < |s| ==> !less(s[j], s[i])
  }

  ghost predicate StrictlySorted<T>(less: (T, T) -> bool, s: seq<T>) {
    forall i, j :: 0 <= i < j < |s| ==> less(s[i], s[j])
  }

  function Insert<T>(less: (T, T) -> bool, s: seq<T>, x: T): seq<T> {
    if s == [] then [x]
    else if less(x, s[0]) then [x] + s
    else [s[0]] + Insert(less, s[1..], x)
  }

  /** Later elements go after their equals, as a stable sort leaves them. */
  function Sort<T>(less: (T, T) -> bool, s: seq<T>): seq<T> {
    if s == [] then [] else Insert(less, Sort(less, s[..|s| - 1]), s[|s| - 1])
  }

  lemma {:induction false} InsertKeeps<T>(less: (T, T) -> bool, s: seq<T>, x: T)
    ensures multiset(Insert(less, s, x)) == multiset(s) + multiset{x}
  {
    if s != [] {
      assert s == [s[0]] + s[1..];
      InsertKeeps(less, s[1..], x);
    }
  }

  lemma {:induction false} SortKeeps<T>(less: (T, T) -> bool, s: seq<T>)
    ensures multiset(Sort(less, s)) == multiset(s)
    ensures |Sort(less, s)| == |s|
    ensures forall x :: x in Sort(less, s) <==> x in s
  {
    if s != [] {
      var front := s[..|s| - 1];
      assert s == front + [s[|s| - 1]];
      SortKeeps(less, front);
      InsertKeeps(less, Sort(less, front), s[|s| - 1]);
    }
    assert |multiset(Sort(less, s))| == |multiset(s)|;
    forall x ensures x in Sort(less, s) <==> x in s {
      assert x in Sort(less, s) <==> x in multiset(Sort(less, s));
    }
  }

  lemma {:induction false} InsertSorted<T(!new)>(less: (T, T) -> bool, s: seq<T>, x: T)
    requires Ordering(less) && Sorted(less, s)
    ensures Sorted(less, Insert(less, s, x))
  {
    if s != [] && !less(x, s[0]) {
      var rest := Insert(less, s[1..], x);
      InsertSorted(less, s[1..], x);
      InsertKeeps(less, s[1..], x);
      forall k | 0 <= k < |rest| ensures !less(rest[k], s[0]) {
        assert rest[k] in multiset(rest);
        assert rest[k] == x || rest[k] in s[1..];
      }
    }
  }

  lemma {:induction false} SortSorts<T(!new)>(less: (T, T) -> bool, s: seq<T>)
    requires Ordering(less)
    ensures Sorted(less, Sort(less, s))
  {
    if s != [] {
      SortSorts(less, s[..|s| - 1]);
      InsertSorted(less, Sort(less, s[..|s| - 1]), s[|s| - 1]);
    }
  }

  /** Two strictly sorted lists of the same things are the same list. */
  lemma {:induction false} StrictlySortedUnique<T(!new)>(less: (T, T) -> bool, a: seq<T>, b: seq<T>)
    requires Ordering(less)
    requires StrictlySorted(less, a) && StrictlySorted(less, b)
    requires forall x :: x in a <==> x in b
    ensures a == b
  {
    if a != [] && b != [] {
      HeadIsLeast(less, a, b[0]);
      HeadIsLeast(less, b, a[0]);
      forall x ensures x in a[1..] <==> x in b[1..] {
        TailMember(less, a, x);
        TailMember(less, b, x);
      }
      StrictlySortedUnique(less, a[1..], b[1..]);
      assert a == [a[0]] + a[1..] && b == [b[0]] + b[1..];
    } else {
      HasMember(a);
      HasMember(b);
    }
  }

  lemma HasMember<T>(s: seq<T>)
    ensures s != [] ==> exists x :: x in s
  {
    if s != [] {
      assert s[0] in s;
    }
  }

  lemma HeadIsLeast<T>(less: (T, T) -> bool, s: seq<T>, x: T)
    requires StrictlySorted(less, s) && x in s
    ensures x == s[0] || less(s[0], x)
  {
  }

  lemma TailMember<T(!new)>(less: (T, T) -> bool, a: seq<T>, x: T)
    requires Ordering(less) && StrictlySorted(less, a) && a != []
    ensures x in a[1..] <==> x in a && x != a[0]
  {
    if x in a[1..] {
      var k :| 0 <= k < |a[1..]| && a[1..][k] == x;
      assert less(a[0], a[k + 1]);
    }
    if x in a && x != a[0] {
      var k :| 0 <= k < |a| && a[k] == x;
      assert a[1..][k - 1] == x;
    }
  }

  /** Elements told apart by a key stay apart in any rearrangement. */
  lemma KeysStayApart<T(!new), K(!new)>(key: T -> K, before: seq<T>, after: seq<T>)
    requires multiset(before) == multiset(after)
    requires forall i, j :: 0 <= i < j < |before| ==> key(before[i]) != key(before[j])
    ensures forall i, j :: 0 <= i < j < |after| ==> key(after[i]) != key(after[j])
  {
    forall i, j | 0 <= i < j < |after| ensures key(after[i]) != key(after[j]) {
      assert after[i] in multiset(before) && after[j] in multiset(before);
      var k :| 0 <= k < |before| && before[k] == after[i];
      var l :| 0 <= l < |before| && before[l] == after[j];
      TwiceCounts(after, i, j);
      OnceCounts(key, before, k);
    }
  }

  lemma TwiceCounts<T>(s: seq<T>, i: nat, j: nat)
    requires i < j < |s|
    ensures s[i] == s[j] ==> multiset(s)[s[i]] >= 2
  {
    assert s == s[..i] + [s[i]] + s[i + 1..j] + [s[j]] + s[j + 1..];
  }

  lemma OnceCounts<T, K>(key: T -> K, s: seq<T>, k: nat)
    requires forall i, j :: 0 <= i < j < |s| ==> key(s[i]) != key(s[j])
    requires k < |s|
    ensures multiset(s)[s[k]] == 1
  {
    assert s == s[..k] + [s[k]] + s[k + 1..];
    assert s[k] !in s[..k] && s[k] !in s[k + 1..];
  }

  // --------------------------------------------------------------- stability

  /** The elements `keep` picks, in order. */
  function Only<T>(keep: T -> bool, s: seq<T>): seq<T> {
    if s == [] then [] else (if keep(s[0]) then [s[0]] else []) + Only(keep, s[1..])
  }

  lemma {:induction false} OnlyJoin<T>(keep: T -> bool, a: seq<T>, b: seq<T>)
    ensures Only(keep, a + b) == Only(keep, a) + Only(keep, b)
  {
    if a == [] {
      assert a + b == b;
    } else {
      OnlyJoin(keep, a[1..], b);
      assert (a + b)[1..] == a[1..] + b && (a + b)[0] == a[0];
    }
  }

  /** No two of the elements picked are in order. */
  ghost predicate Equals<T(!new)>(less: (T, T) -> bool, keep: T -> bool) {
    forall x, y :: keep(x) && keep(y) ==> !less(x, y)
  }

  lemma {:induction false} InsertAfterEquals<T(!new)>(less: (T, T) -> bool, keep: T -> bool, s: seq<T>, x: T)
    requires Ordering(less) && Equals(less, keep) && Sorted(less, s)
    ensures Only(keep, Insert(less, s, x)) == Only(keep, s) + (if keep(x) then [x] else [])
  {
    if s != [] {
      if less(x, s[0]) {
        OnlyJoin(keep, [x], s);
        if keep(x) {
          NoneOfThem(less, keep, s, x);
        }
      } else {
        SortedTail(less, s);
        InsertAfterEquals(less, keep, s[1..], x);
        var rest := Insert(less, s[1..], x);
        assert Insert(less, s, x)[1..] == rest;
      }
    }
  }

  lemma SortedTail<T>(less: (T, T) -> bool, s: seq<T>)
    requires s != [] && Sorted(less, s)
    ensures Sorted(less, s[1..]) && (|s| > 1 ==> !less(s[1], s[0]))
  {
  }

  lemma {:induction false} NoneOfThem<T(!new)>(less: (T, T) -> bool, keep: T -> bool, s: seq<T>, x: T)
    requires Ordering(less) && Equals(less, keep) && keep(x)
    requires s != [] ==> less(x, s[0])
    requires Sorted(less, s)
    ensures Only(keep, s) == []
  {
    if s != [] {
      SortedTail(less, s);
      assert s[1..] != [] ==> less(x, s[1]);
      NoneOfThem(less, keep, s[1..], x);
    }
  }

  /** Elements that no comparison tells apart stay in the order they came. */
  lemma {:induction false} SortIsStable<T(!new)>(less: (T, T) -> bool, keep: T -> bool, s: seq<T>)
    requires Ordering(less) && Equals(less, keep)
    ensures Only(keep, Sort(less, s)) == Only(keep, s)
  {
    if s != [] {
      var front, last := s[..|s| - 1], s[|s| - 1];
      assert s == front + [last];
      SortSorts(less, front);
      SortIsStable(less, keep, front);
      InsertAfterEquals(less, keep, Sort(less, front), last);
      OnlyJoin(keep, front, [last]);
    }
  }
}
