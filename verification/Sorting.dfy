/** Sorting by a total order, as Python's sorted does. */
module Sorting {

  /** Any two items compare, and comparison is transitive. */
  ghost predicate TotalOrder<T(!new)>(le: (T, T) -> bool) {
    (forall a, b :: le(a, b) || le(b, a)) && (forall a, b, c :: le(a, b) && le(b, c) ==> le(a, c))
  }

  ghost predicate Ascending<T>(s: seq<T>, le: (T, T) -> bool) {
    forall i, j | 0 <= i < j < |s| :: le(s[i], s[j])
  }

  function Insert<T>(s: seq<T>, x: T, le: (T, T) -> bool): seq<T> {
    if s == [] || le(s[|s| - 1], x) then s + [x] else Insert(s[..|s| - 1], x, le) + [s[|s| - 1]]
  }

  function SortBy<T>(s: seq<T>, le: (T, T) -> bool): seq<T> {
    if s == [] then [] else Insert(SortBy(s[..|s| - 1], le), s[|s| - 1], le)
  }

  lemma {:induction false} InsertKeeps<T>(s: seq<T>, x: T, le: (T, T) -> bool)
    ensures multiset(Insert(s, x, le)) == multiset(s + [x])
    ensures forall y :: y in Insert(s, x, le) ==> y in s || y == x
  {
    if s != [] {
      var (front, last) := (s[..|s| - 1], s[|s| - 1]);
      assert s == front + [last];
      InsertKeeps(front, x, le);
    }
  }

  lemma {:induction false} InsertSorts<T(!new)>(s: seq<T>, x: T, le: (T, T) -> bool)
    requires TotalOrder(le) && Ascending(s, le)
    ensures Ascending(Insert(s, x, le), le)
  {
    if s != [] {
      var (front, last) := (s[..|s| - 1], s[|s| - 1]);
      if le(last, x) {
        AscendingAppend(s, x, le);
      } else {
        InsertSorts(front, x, le);
        InsertKeeps(front, x, le);
        AscendingAppend(Insert(front, x, le), last, le);
      }
    }
  }

  lemma AscendingAppend<T(!new)>(s: seq<T>, x: T, le: (T, T) -> bool)
    requires TotalOrder(le) && Ascending(s, le) && forall y | y in s :: le(y, x) || (s != [] && le(s[|s| - 1], x))
    ensures Ascending(s + [x], le)
  {
    forall i | 0 <= i < |s|
      ensures le(s[i], x)
    {
      assert s[i] in s;
      assert le(s[i], s[|s| - 1]);
    }
  }

  lemma {:induction false} SortSorts<T(!new)>(s: seq<T>, le: (T, T) -> bool)
    requires TotalOrder(le)
    ensures multiset(SortBy(s, le)) == multiset(s) && Ascending(SortBy(s, le), le)
    ensures |SortBy(s, le)| == |s|
  {
    if s != [] {
      var (front, last) := (s[..|s| - 1], s[|s| - 1]);
      assert s == front + [last];
      SortSorts(front, le);
      InsertSorts(SortBy(front, le), last, le);
      InsertKeeps(SortBy(front, le), last, le);
    }
    assert |multiset(SortBy(s, le))| == |multiset(s)|;
  }
}
