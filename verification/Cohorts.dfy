/**
  Grouping units and drawing cohorts from the groups
  (core/inkdrop_acquisition_funnel.py, core/inkdrop_candidate_replay.py).
 */
module Strata {
  import opened Sorting
  import opened RoundRobin

  predicate Distinct<T(==)>(s: seq<T>) { forall i, j | 0 <= i < j < |s| :: s[i] != s[j] }

  /** The units with one key, in their order. */
  function RowsOf<U, K(==)>(units: seq<U>, key: U -> K, k: K): seq<U> {
    if units == [] then []
    else RowsOf(units[..|units| - 1], key, k) + if key(units[|units| - 1]) == k then [units[|units| - 1]] else []
  }

  /** The keys of the units, in order of first appearance. */
  function KeysOf<U, K(==)>(units: seq<U>, key: U -> K): seq<K> {
    if units == [] then []
    else
      var keys := KeysOf(units[..|units| - 1], key);
      if key(units[|units| - 1]) in keys then keys else keys + [key(units[|units| - 1])]
  }

  /** Larger groups first, then by key. */
  predicate GroupLe<U, K(==)>(units: seq<U>, key: U -> K, keyLe: (K, K) -> bool, a: K, b: K) {
    |RowsOf(units, key, a)| > |RowsOf(units, key, b)|
    || (|RowsOf(units, key, a)| == |RowsOf(units, key, b)| && keyLe(a, b))
  }

  /** The groups of some keys, each in rank order. */
  function GroupsOf<U, K(==)>(units: seq<U>, key: U -> K, rowLe: (U, U) -> bool, keys: seq<K>): (g: seq<seq<U>>)
    ensures |g| == |keys|
  {
    seq(|keys|, i requires 0 <= i < |keys| => SortBy(RowsOf(units, key, keys[i]), rowLe))
  }

  function OrderedKeys<U, K(==)>(units: seq<U>, key: U -> K, keyLe: (K, K) -> bool): seq<K> {
    SortBy(KeysOf(units, key), (a, b) => GroupLe(units, key, keyLe, a, b))
  }

  function Groups<U, K(==)>(units: seq<U>, key: U -> K, keyLe: (K, K) -> bool, rowLe: (U, U) -> bool): seq<seq<U>> {
    GroupsOf(units, key, rowLe, OrderedKeys(units, key, keyLe))
  }

  // ------------------------------------------------------------------ partition

  lemma RowsNext<U, K>(units: seq<U>, key: U -> K, i: nat, k: K)
    requires i < |units|
    ensures RowsOf(units[..i + 1], key, k)
            == if key(units[i]) == k then RowsOf(units[..i], key, k) + [units[i]] else RowsOf(units[..i], key, k)
  {
    assert units[..i + 1][..i] == units[..i];
  }

  lemma KeysNext<U, K>(units: seq<U>, key: U -> K, i: nat)
    requires i < |units|
    ensures KeysOf(units[..i + 1], key)
            == if key(units[i]) in KeysOf(units[..i], key) then KeysOf(units[..i], key)
               else KeysOf(units[..i], key) + [key(units[i])]
  {
    assert units[..i + 1][..i] == units[..i];
  }

  lemma {:induction false} KeysDistinct<U, K>(units: seq<U>, key: U -> K)
    ensures Distinct(KeysOf(units, key))
    ensures forall u | u in units :: key(u) in KeysOf(units, key)
  {
    if units != [] {
      var (front, last) := (units[..|units| - 1], units[|units| - 1]);
      KeysDistinct(front, key);
      assert units == front + [last];
    }
  }

  lemma {:induction false} RowsCount<U, K>(units: seq<U>, key: U -> K, k: K, u: U)
    ensures multiset(RowsOf(units, key, k))[u] == if key(u) == k then multiset(units)[u] else 0
  {
    if units != [] {
      var (front, last) := (units[..|units| - 1], units[|units| - 1]);
      RowsCount(front, key, k, u);
      assert units == front + [last];
    }
  }

  lemma {:induction false} GroupsCount<U(!new), K(!new)>(units: seq<U>, key: U -> K, rowLe: (U, U) -> bool,
                                                         keys: seq<K>, u: U)
    requires TotalOrder(rowLe) && Distinct(keys)
    ensures multiset(Concat(GroupsOf(units, key, rowLe, keys)))[u] == if key(u) in keys then multiset(units)[u] else 0
  {
    if keys == [] {
      assert GroupsOf(units, key, rowLe, keys) == [];
    } else {
      hide SortBy, Concat, RowsOf, TotalOrder;
      var (front, last) := (keys[..|keys| - 1], keys[|keys| - 1]);
      GroupsCount(units, key, rowLe, front, u);
      assert keys == front + [last];
      var rows := RowsOf(units, key, last);
      assert GroupsOf(units, key, rowLe, keys) == GroupsOf(units, key, rowLe, front) + [SortBy(rows, rowLe)];
      ConcatSnoc(GroupsOf(units, key, rowLe, front), SortBy(rows, rowLe));
      SortSorts(rows, rowLe);
      RowsCount(units, key, last, u);
    }
  }

  lemma {:induction false} DistinctCounts<K>(s: seq<K>, x: K)
    ensures Distinct(s) ==> multiset(s)[x] <= 1
    ensures multiset(s)[x] > 0 <==> x in s
  {
    if s != [] {
      DistinctCounts(s[..|s| - 1], x);
      assert s == s[..|s| - 1] + [s[|s| - 1]];
    }
  }

  lemma {:induction false} CountsDistinct<K>(s: seq<K>)
    requires forall x | x in s :: multiset(s)[x] <= 1
    ensures Distinct(s)
  {
    forall i, j | 0 <= i < j < |s|
      ensures s[i] != s[j]
    {
      var rest := s[..j] + s[j + 1..];
      assert s == s[..j] + [s[j]] + s[j + 1..];
      assert multiset(s) == multiset(rest) + multiset{s[j]};
      assert rest[i] == s[i];
      DistinctCounts(rest, s[i]);
      assert multiset(s)[s[i]] == multiset(rest)[s[i]] + if s[i] == s[j] then 1 else 0;
    }
  }

  lemma SameItemsDistinct<K(!new)>(s: seq<K>, t: seq<K>)
    requires Distinct(s) && multiset(s) == multiset(t)
    ensures Distinct(t) && forall x :: x in s <==> x in t
  {
    forall x
      ensures multiset(t)[x] <= 1 && (x in s <==> x in t)
    {
      DistinctCounts(s, x);
      DistinctCounts(t, x);
    }
    CountsDistinct(t);
  }

  lemma GroupLeTotal<U, K(!new)>(units: seq<U>, key: U -> K, keyLe: (K, K) -> bool)
    requires TotalOrder(keyLe)
    ensures TotalOrder((a: K, b: K) => GroupLe(units, key, keyLe, a, b))
  {
  }

  /** Every unit stands in exactly one group: the groups share out the units. */
  lemma GroupsPartition<U(!new), K(!new)>(units: seq<U>, key: U -> K, keyLe: (K, K) -> bool, rowLe: (U, U) -> bool)
    requires TotalOrder(keyLe) && TotalOrder(rowLe)
    ensures multiset(Concat(Groups(units, key, keyLe, rowLe))) == multiset(units)
    ensures Total(Groups(units, key, keyLe, rowLe)) == |units|
  {
    hide SortBy, Concat, GroupsOf, KeysOf, GroupLe, TotalOrder, Distinct;
    var le := (a: K, b: K) => GroupLe(units, key, keyLe, a, b);
    var keys := OrderedKeys(units, key, keyLe);
    GroupLeTotal(units, key, keyLe);
    SortSorts(KeysOf(units, key), le);
    KeysDistinct(units, key);
    SameItemsDistinct(KeysOf(units, key), keys);
    forall u
      ensures multiset(Concat(Groups(units, key, keyLe, rowLe)))[u] == multiset(units)[u]
    {
      GroupsCount(units, key, rowLe, keys, u);
      assert u in units <==> multiset(units)[u] > 0;
    }
    assert multiset(Concat(Groups(units, key, keyLe, rowLe))) == multiset(units);
    assert |multiset(Concat(Groups(units, key, keyLe, rowLe)))| == |multiset(units)|;
  }

  /** Every unit with the key is in the group as often as it is among the units, and nothing else is. */
  ghost predicate HoldsKey<U(!new), K>(group: seq<U>, units: seq<U>, key: U -> K, k: K) {
    forall u :: multiset(group)[u] == if key(u) == k then multiset(units)[u] else 0
  }

  /** A group holds all units of one key and no others, in rank order; larger groups come first. */
  lemma GroupIsRanked<U(!new), K(!new)>(units: seq<U>, key: U -> K, keyLe: (K, K) -> bool, rowLe: (U, U) -> bool,
                                        g: nat)
    requires TotalOrder(keyLe) && TotalOrder(rowLe) && g < |Groups(units, key, keyLe, rowLe)|
    ensures var group := Groups(units, key, keyLe, rowLe)[g];
            Ascending(group, rowLe) && exists k :: HoldsKey(group, units, key, k)
    ensures forall h | g < h < |Groups(units, key, keyLe, rowLe)| ::
        |Groups(units, key, keyLe, rowLe)[h]| <= |Groups(units, key, keyLe, rowLe)[g]|
  {
    hide SortBy, KeysOf, TotalOrder, Ascending;
    var keys := OrderedKeys(units, key, keyLe);
    var le := (a: K, b: K) => GroupLe(units, key, keyLe, a, b);
    var group := Groups(units, key, keyLe, rowLe)[g];
    SortSorts(RowsOf(units, key, keys[g]), rowLe);
    forall u
      ensures multiset(group)[u] == if key(u) == keys[g] then multiset(units)[u] else 0
    {
      RowsCount(units, key, keys[g], u);
    }
    assert HoldsKey(group, units, key, keys[g]);
    GroupLeTotal(units, key, keyLe);
    SortSorts(KeysOf(units, key), le);
    forall h | g < h < |keys|
      ensures |Groups(units, key, keyLe, rowLe)[h]| <= |group|
    {
      SortSorts(RowsOf(units, key, keys[h]), rowLe);
      AscendingAt(keys, le, g, h);
    }
  }

  lemma AscendingAt<K(!new)>(s: seq<K>, le: (K, K) -> bool, i: nat, j: nat)
    requires Ascending(s, le) && i < j < |s|
    ensures le(s[i], s[j])
  {
  }

  /** Group the units by key, sort each group by rank and the groups by size and key. */
  method Stratify<U(==), K(==)>(units: seq<U>, key: U -> K, keyLe: (K, K) -> bool, rowLe: (U, U) -> bool)
    returns (groups: seq<seq<U>>)
    ensures groups == Groups(units, key, keyLe, rowLe)
  {
    hide RowsOf, KeysOf, SortBy, GroupLe;
    var rows: map<K, seq<U>>, keys: seq<K> := map[], [];
    KeysNone(key);
    assert units[..0] == [];
    for i := 0 to |units|
      invariant keys == KeysOf(units[..i], key)
      invariant forall k | k in keys :: k in rows && rows[k] == RowsOf(units[..i], key, k)
      invariant forall k | k !in keys :: RowsOf(units[..i], key, k) == []
    {
      var k := key(units[i]);
      KeysNext(units, key, i);
      forall j
        ensures RowsOf(units[..i + 1], key, j)
                == if key(units[i]) == j then RowsOf(units[..i], key, j) + [units[i]] else RowsOf(units[..i], key, j)
      {
        RowsNext(units, key, i, j);
      }
      rows := rows[k := (if k in keys then rows[k] else []) + [units[i]]];
      keys := if k in keys then keys else keys + [k];
      assert k in rows && rows[k] == RowsOf(units[..i + 1], key, k);
    }
    assert units[..|units|] == units;
    var ordered := SortBy(keys, (a, b) => GroupLe(units, key, keyLe, a, b));
    SortedSubset(keys, (a, b) => GroupLe(units, key, keyLe, a, b));
    groups := [];
    for i := 0 to |ordered|
      invariant groups == GroupsOf(units, key, rowLe, ordered)[..i]
    {
      groups := groups + [SortBy(rows[ordered[i]], rowLe)];
    }
  }

  lemma KeysNone<U, K>(key: U -> K)
    ensures KeysOf([], key) == [] && forall k :: RowsOf([], key, k) == []
  {
  }

  lemma {:induction false} SortedSubset<T>(s: seq<T>, le: (T, T) -> bool)
    ensures forall x | x in SortBy(s, le) :: x in s
  {
    if s != [] {
      SortedSubset(s[..|s| - 1], le);
      InsertKeeps(SortBy(s[..|s| - 1], le), s[|s| - 1], le);
    }
  }

  // ------------------------------------------------------- what a fair selection takes

  /** Where the rows with this key stand. */
  function Places<U, K(==)>(rows: seq<U>, key: U -> K, k: K): (p: set<nat>)
    ensures forall i: nat :: i in p <==> i < |rows| && key(rows[i]) == k
  {
    set i: nat | i < |rows| && key(rows[i]) == k
  }

  function Having<U, K(==)>(rows: seq<U>, key: U -> K, k: K): nat { |Places(rows, key, k)| }

  lemma {:induction false} HavingRows<U, K>(rows: seq<U>, key: U -> K, k: K)
    ensures Having(rows, key, k) == |RowsOf(rows, key, k)|
  {
    if rows != [] {
      var n := |rows| - 1;
      HavingRows(rows[..n], key, k);
      assert Places(rows, key, k) == Places(rows[..n], key, k) + if key(rows[n]) == k then {n} else {};
    }
  }

  /** Some occurrence of v among the units was not chosen. */
  predicate LeftOut<U(==)>(units: seq<U>, chosen: seq<U>, v: U) { multiset(chosen)[v] < multiset(units)[v] }

  /**
    Said of the units alone: a unit is chosen before those of its key that rank
    behind it; while one key has a unit left out, no other key has more than one
    chosen more, and one more only if that key has more units or comes first.
   */
  ghost predicate ChosenFairly<U(!new), K>(units: seq<U>, chosen: seq<U>, key: U -> K, keyLe: (K, K) -> bool,
                                           rowLe: (U, U) -> bool)
  {
    multiset(chosen) <= multiset(units)
    && (forall u, v | u in chosen && LeftOut(units, chosen, v) && key(u) == key(v) :: rowLe(u, v))
    && forall u, v | u in units && LeftOut(units, chosen, v) && key(u) != key(v) ::
         NoMore(units, chosen, key, keyLe, key(u), key(v))
  }

  predicate NoMore<U, K(==)>(units: seq<U>, chosen: seq<U>, key: U -> K, keyLe: (K, K) -> bool, a: K, b: K) {
    Having(chosen, key, a) <= Having(chosen, key, b) + 1
    && (Having(chosen, key, a) == Having(chosen, key, b) + 1 ==>
          Having(units, key, a) > Having(units, key, b)
          || (Having(units, key, a) == Having(units, key, b) && keyLe(a, b)))
  }

  /** Only one of the parts has the item. */
  lemma {:induction false} ConcatCount<U>(parts: seq<seq<U>>, g: nat, u: U)
    requires g < |parts| && forall h | 0 <= h < |parts| && h != g :: multiset(parts[h])[u] == 0
    ensures multiset(Concat(parts))[u] == multiset(parts[g])[u]
  {
    var n := |parts| - 1;
    if g < n {
      ConcatCount(parts[..n], g, u);
    } else {
      NoneHas(parts[..n], u);
    }
  }

  lemma {:induction false} NoneHas<U>(parts: seq<seq<U>>, u: U)
    requires forall h | 0 <= h < |parts| :: multiset(parts[h])[u] == 0
    ensures multiset(Concat(parts))[u] == 0
  {
    if parts != [] {
      NoneHas(parts[..|parts| - 1], u);
    }
  }

  /** How many rows of a group a fair selection takes, at most. */
  function Depth(g: nat, k: nat, m: nat): nat { if g < m then k + 1 else k }

  /** Of the units of one key a fair selection takes the first of their group. */
  lemma ShareOfKey<U(!new), K(!new)>(units: seq<U>, key: U -> K, keyLe: (K, K) -> bool, rowLe: (U, U) -> bool,
                                     target: nat, chosen: seq<U>, k: nat, m: nat, g: nat)
    requires TotalOrder(keyLe) && TotalOrder(rowLe) && Fair(Groups(units, key, keyLe, rowLe), target, chosen, k, m)
    requires g < |OrderedKeys(units, key, keyLe)|
    ensures var (groups, kg) := (Groups(units, key, keyLe, rowLe), OrderedKeys(units, key, keyLe)[g]);
            multiset(RowsOf(chosen, key, kg)) == multiset(Share(groups[g], Depth(g, k, m)))
            && multiset(RowsOf(units, key, kg)) == multiset(groups[g]) && Ascending(groups[g], rowLe)
  {
    hide SortBy, Concat, KeysOf, TotalOrder, Ascending, Fair, RowsOf;
    var (groups, keys) := (Groups(units, key, keyLe, rowLe), OrderedKeys(units, key, keyLe));
    FairShares(groups, target, chosen, k, m);
    OrderedDistinct(units, key, keyLe);
    SortSorts(RowsOf(units, key, keys[g]), rowLe);
    var share := Share(groups[g], Depth(g, k, m));
    assert Shares(groups, k, m)[g] == share;
    forall u
      ensures multiset(RowsOf(chosen, key, keys[g]))[u] == multiset(share)[u]
    {
      RowsCount(chosen, key, keys[g], u);
      if key(u) == keys[g] {
        forall h | 0 <= h < |groups| && h != g
          ensures multiset(Shares(groups, k, m)[h])[u] == 0
        {
          GroupHas(units, key, keyLe, rowLe, h, u);
          ShareCount(groups[h], Depth(h, k, m), u);
        }
        ConcatCount(Shares(groups, k, m), g, u);
      } else {
        GroupHas(units, key, keyLe, rowLe, g, u);
        ShareCount(groups[g], Depth(g, k, m), u);
      }
    }
  }

  lemma OrderedDistinct<U(!new), K(!new)>(units: seq<U>, key: U -> K, keyLe: (K, K) -> bool)
    requires TotalOrder(keyLe)
    ensures Distinct(OrderedKeys(units, key, keyLe))
    ensures forall u | u in units :: key(u) in OrderedKeys(units, key, keyLe)
    ensures Ascending(OrderedKeys(units, key, keyLe), (a, b) => GroupLe(units, key, keyLe, a, b))
  {
    hide SortBy, KeysOf, TotalOrder, GroupLe, Ascending, Distinct;
    GroupLeTotal(units, key, keyLe);
    SortSorts(KeysOf(units, key), (a: K, b: K) => GroupLe(units, key, keyLe, a, b));
    KeysDistinct(units, key);
    SameItemsDistinct(KeysOf(units, key), OrderedKeys(units, key, keyLe));
  }

  lemma GroupHas<U(!new), K(!new)>(units: seq<U>, key: U -> K, keyLe: (K, K) -> bool, rowLe: (U, U) -> bool,
                                   h: nat, u: U)
    requires TotalOrder(rowLe) && h < |OrderedKeys(units, key, keyLe)| && key(u) != OrderedKeys(units, key, keyLe)[h]
    ensures multiset(Groups(units, key, keyLe, rowLe)[h])[u] == 0
  {
    hide SortBy, KeysOf, TotalOrder, RowsOf, OrderedKeys;
    var k := OrderedKeys(units, key, keyLe)[h];
    SortSorts(RowsOf(units, key, k), rowLe);
    RowsCount(units, key, k, u);
  }

  lemma ShareCount<U>(rows: seq<U>, n: nat, u: U)
    ensures multiset(Share(rows, n))[u] <= multiset(rows)[u]
  {
    assert rows == Share(rows, n) + rows[|Share(rows, n)|..];
  }

  /** What is left out of a group stands behind what was taken. */
  lemma BehindShare<U(!new)>(group: seq<U>, n: nat, rowLe: (U, U) -> bool, u: U, v: U)
    requires Ascending(group, rowLe) && u in Share(group, n) && multiset(Share(group, n))[v] < multiset(group)[v]
    ensures rowLe(u, v) && |group| > n
  {
    var (share, rest) := (Share(group, n), group[|Share(group, n)|..]);
    assert group == share + rest;
    assert v in rest by {
      assert multiset(group) == multiset(share) + multiset(rest);
    }
    var i :| 0 <= i < |share| && share[i] == u;
    var j :| 0 <= j < |rest| && rest[j] == v;
    assert group[i] == u && group[|share| + j] == v;
  }

  /** A fair selection of the groups is fair to the units. */
  lemma FairToUnits<U(!new), K(!new)>(units: seq<U>, key: U -> K, keyLe: (K, K) -> bool, rowLe: (U, U) -> bool,
                                      target: nat, chosen: seq<U>, k: nat, m: nat)
    requires TotalOrder(keyLe) && TotalOrder(rowLe) && Fair(Groups(units, key, keyLe, rowLe), target, chosen, k, m)
    ensures ChosenFairly(units, chosen, key, keyLe, rowLe)
  {
    hide TotalOrder, Ascending, Fair, RowsOf, Groups, OrderedKeys, NoMore, Having, Share, Concat;
    var groups := Groups(units, key, keyLe, rowLe);
    FairShares(groups, target, chosen, k, m);
    GroupsPartition(units, key, keyLe, rowLe);
    forall u, v | u in chosen && LeftOut(units, chosen, v) && key(u) == key(v)
      ensures rowLe(u, v)
    {
      var g := KeyAt(units, key, keyLe, v);
      LeftInGroup(units, key, keyLe, rowLe, target, chosen, k, m, g, v);
      RowsCount(chosen, key, key(u), u);
      ShareOfKey(units, key, keyLe, rowLe, target, chosen, k, m, g);
      assert u in multiset(RowsOf(chosen, key, key(u)));
      GroupsLength(units, key, keyLe, rowLe);
      BehindShare(groups[g], Depth(g, k, m), rowLe, u, v);
    }
    forall u, v | u in units && LeftOut(units, chosen, v) && key(u) != key(v)
      ensures NoMore(units, chosen, key, keyLe, key(u), key(v))
    {
      var g := KeyAt(units, key, keyLe, u);
      var h := KeyAt(units, key, keyLe, v);
      LeftInGroup(units, key, keyLe, rowLe, target, chosen, k, m, h, v);
      KeysCompare(units, key, keyLe, rowLe, target, chosen, k, m, g, h);
    }
  }

  lemma GroupsLength<U, K>(units: seq<U>, key: U -> K, keyLe: (K, K) -> bool, rowLe: (U, U) -> bool)
    ensures |Groups(units, key, keyLe, rowLe)| == |OrderedKeys(units, key, keyLe)|
  {
    hide OrderedKeys;
  }

  lemma KeyAt<U(!new), K(!new)>(units: seq<U>, key: U -> K, keyLe: (K, K) -> bool, u: U) returns (g: nat)
    requires TotalOrder(keyLe) && multiset(units)[u] > 0
    ensures g < |OrderedKeys(units, key, keyLe)| && OrderedKeys(units, key, keyLe)[g] == key(u)
  {
    hide OrderedKeys, TotalOrder;
    OrderedDistinct(units, key, keyLe);
    assert u in units;
    g :| g < |OrderedKeys(units, key, keyLe)| && OrderedKeys(units, key, keyLe)[g] == key(u);
  }

  /** A key with a unit left out has more units than were taken of it. */
  lemma LeftInGroup<U(!new), K(!new)>(units: seq<U>, key: U -> K, keyLe: (K, K) -> bool, rowLe: (U, U) -> bool,
                                      target: nat, chosen: seq<U>, k: nat, m: nat, g: nat, v: U)
    requires TotalOrder(keyLe) && TotalOrder(rowLe) && Fair(Groups(units, key, keyLe, rowLe), target, chosen, k, m)
    requires g < |OrderedKeys(units, key, keyLe)| && OrderedKeys(units, key, keyLe)[g] == key(v)
    requires LeftOut(units, chosen, v)
    ensures var group := Groups(units, key, keyLe, rowLe);
            g < |group| && multiset(Share(group[g], Depth(g, k, m)))[v] < multiset(group[g])[v]
            && |group[g]| > Depth(g, k, m)
  {
    hide TotalOrder, Ascending, Fair, RowsOf, Groups, OrderedKeys;
    GroupsLength(units, key, keyLe, rowLe);
    ShareOfKey(units, key, keyLe, rowLe, target, chosen, k, m, g);
    RowsCount(chosen, key, key(v), v);
    RowsCount(units, key, key(v), v);
    ShareAll(Groups(units, key, keyLe, rowLe)[g], Depth(g, k, m));
  }

  lemma ShareAll<U>(rows: seq<U>, n: nat)
    ensures |rows| <= n ==> Share(rows, n) == rows
  {
  }

  /** Of two keys, the second with a unit left out. */
  lemma KeysCompare<U(!new), K(!new)>(units: seq<U>, key: U -> K, keyLe: (K, K) -> bool, rowLe: (U, U) -> bool,
                                      target: nat, chosen: seq<U>, k: nat, m: nat, g: nat, h: nat)
    requires TotalOrder(keyLe) && TotalOrder(rowLe) && Fair(Groups(units, key, keyLe, rowLe), target, chosen, k, m)
    requires g < |OrderedKeys(units, key, keyLe)| && h < |OrderedKeys(units, key, keyLe)|
    requires |Groups(units, key, keyLe, rowLe)| > h && |Groups(units, key, keyLe, rowLe)[h]| > Depth(h, k, m)
    ensures NoMore(units, chosen, key, keyLe, OrderedKeys(units, key, keyLe)[g], OrderedKeys(units, key, keyLe)[h])
  {
    hide TotalOrder, Fair, RowsOf, Groups, OrderedKeys, Having;
    var (groups, keys) := (Groups(units, key, keyLe, rowLe), OrderedKeys(units, key, keyLe));
    GroupsLength(units, key, keyLe, rowLe);
    ShareOfKey(units, key, keyLe, rowLe, target, chosen, k, m, g);
    ShareOfKey(units, key, keyLe, rowLe, target, chosen, k, m, h);
    SameSize(RowsOf(chosen, key, keys[g]), Share(groups[g], Depth(g, k, m)));
    SameSize(RowsOf(chosen, key, keys[h]), Share(groups[h], Depth(h, k, m)));
    HavingRows(chosen, key, keys[g]);
    HavingRows(chosen, key, keys[h]);
    HavingRows(units, key, keys[g]);
    HavingRows(units, key, keys[h]);
    OrderedDistinct(units, key, keyLe);
    if g < h {
      AscendingAt(keys, (a: K, b: K) => GroupLe(units, key, keyLe, a, b), g, h);
    }
  }

  lemma SameSize<U>(a: seq<U>, b: seq<U>)
    requires multiset(a) == multiset(b)
    ensures |a| == |b|
  {
    assert |multiset(a)| == |a| && |multiset(b)| == |b|;
  }
}

/** The cohorts and samples drawn by fair selection. */
module Cohorts {
  import opened NaturalOrder
  import opened Sorting
  import opened RoundRobin
  import opened Strata

  /** The primary recovery state of a missing unit. */
  datatype Bucket =
    | NeverSearched | DueForSearch | ProviderPlanned | ProviderCalled
    | CompletedWithResults | CompletedWithZeroResults | TimedOut | Failed | Malformed
    | Normalized | AllRejected | SafeAvailable | Selected
    | HandoffAttempted | HandoffAcknowledged | TransferActive | TransferStalled | TransferCompleted
    | ArtifactMissing | ArtifactRejected | ArtifactQuarantined
    | ReadyToImport | Imported | ScanPending | ReaderVisible | CompletionRecorded

  datatype Stratum = Stratum(media: string, unitType: string, divergence: string, pack: string, age: string)

  /** A wanted unit, with the recovery state it counts under. */
  datatype Unit = Unit(wantedId: string, series: string, created: real, stratum: Stratum, bucket: Bucket)

  function Fields(s: Stratum): Key { [Text(s.media), Text(s.unitType), Text(s.divergence), Text(s.pack), Text(s.age)] }

  predicate StratumLe(a: Stratum, b: Stratum) { Compare(Fields(a), Fields(b)) in {Less, Equal} }

  /** Oldest first, then by id. */
  predicate RankLe(a: Unit, b: Unit) {
    a.created < b.created || (a.created == b.created && TextLe(a.wantedId, b.wantedId))
  }

  lemma StratumLeTotal()
    ensures TotalOrder(StratumLe)
  {
    hide Compare;
    forall a, b
      ensures StratumLe(a, b) || StratumLe(b, a)
    {
      AlignedTotal(Fields(a), Fields(b));
    }
    forall a, b, c | StratumLe(a, b) && StratumLe(b, c)
      ensures StratumLe(a, c)
    {
      AlignedTotal(Fields(a), Fields(b));
      AlignedTotal(Fields(b), Fields(c));
      if Fields(a) != Fields(b) && Fields(b) != Fields(c) {
        AlignedTransitive(Fields(a), Fields(b), Fields(c));
      }
    }
  }

  lemma RankLeTotal()
    ensures TotalOrder(RankLe)
  {
    hide TextLe;
    TextLeTotal();
    forall a, b, c | RankLe(a, b) && RankLe(b, c)
      ensures RankLe(a, c)
    {
      if a.created == b.created == c.created {
        assert TextLe(a.wantedId, c.wantedId);
      }
    }
  }

  // -------------------------------------------------------------- fair cohort

  function Stratified(units: seq<Unit>): seq<seq<Unit>> {
    Groups(units, (u: Unit) => u.stratum, StratumLe, RankLe)
  }

  /** A target is clamped to the number of units; none is asked for by zero or less. */
  function Clamp(target: int, n: nat): nat { if target <= 0 then 0 else Min(target, n) }

  lemma StratifiedShares(units: seq<Unit>)
    ensures multiset(Concat(Stratified(units))) == multiset(units) && Total(Stratified(units)) == |units|
  {
    hide Concat, Groups, TotalOrder;
    StratumLeTotal();
    RankLeTotal();
    GroupsPartition(units, (u: Unit) => u.stratum, StratumLe, RankLe);
  }

  // ------------------------------------------------- what the cohort promises

  /** Two units of one kind: the same medium, unit type, first divergence, pack evidence and age. */
  predicate SameKind(u: Unit, v: Unit) {
    u.stratum.media == v.stratum.media && u.stratum.unitType == v.stratum.unitType
    && u.stratum.divergence == v.stratum.divergence && u.stratum.pack == v.stratum.pack
    && u.stratum.age == v.stratum.age
  }

  function OfKind(units: seq<Unit>, u: Unit): nat { |set i: nat | i < |units| && SameKind(units[i], u)| }

  ghost predicate Before(a: string, b: string) { exists i: nat :: PartsBefore(a, b, i) }

  /** The older unit, or of two as old the one with the smaller id. */
  ghost predicate Older(u: Unit, v: Unit) {
    u.created < v.created || (u.created == v.created && (Before(u.wantedId, v.wantedId) || u.wantedId == v.wantedId))
  }

  /** The smaller text in the first field in which the kinds differ. */
  ghost predicate EarlierKind(u: Unit, v: Unit) {
    var (a, b) := (u.stratum, v.stratum);
    if a.media != b.media then Before(a.media, b.media)
    else if a.unitType != b.unitType then Before(a.unitType, b.unitType)
    else if a.divergence != b.divergence then Before(a.divergence, b.divergence)
    else if a.pack != b.pack then Before(a.pack, b.pack)
    else Before(a.age, b.age)
  }

  /**
    The promise, unit by unit: within a kind older units are chosen first; a kind
    that has a unit left out is at most one behind any other, and only behind a
    larger kind, or one as large that comes earlier.
   */
  ghost predicate FairCohort(units: seq<Unit>, chosen: seq<Unit>) {
    multiset(chosen) <= multiset(units)
    && (forall u, v | u in chosen && LeftOut(units, chosen, v) && SameKind(u, v) :: Older(u, v))
    && forall u, v | u in units && LeftOut(units, chosen, v) && !SameKind(u, v) :: AtMostOneMore(units, chosen, u, v)
  }

  ghost predicate AtMostOneMore(units: seq<Unit>, chosen: seq<Unit>, u: Unit, v: Unit) {
    OfKind(chosen, u) <= OfKind(chosen, v) + 1
    && (OfKind(chosen, u) == OfKind(chosen, v) + 1 ==>
          OfKind(units, u) > OfKind(units, v) || (OfKind(units, u) == OfKind(units, v) && EarlierKind(u, v)))
  }

  lemma BeforeExactly(a: string, b: string)
    ensures TextLe(a, b) <==> Before(a, b) || a == b
    ensures CompareText(a, b) == Equal <==> a == b
    ensures CompareText(a, b) == Less <==> Before(a, b)
  {
    TextExactly(a, b);
    TextTotal(a, b);
  }

  lemma OlderExactly(u: Unit, v: Unit)
    ensures RankLe(u, v) <==> Older(u, v)
  {
    hide TextLe, Before;
    BeforeExactly(u.wantedId, v.wantedId);
  }

  lemma EarlierExactly(u: Unit, v: Unit)
    requires !SameKind(u, v)
    ensures StratumLe(u.stratum, v.stratum) ==> EarlierKind(u, v)
  {
    var (a, b) := (u.stratum, v.stratum);
    BeforeExactly(a.media, b.media);
    BeforeExactly(a.unitType, b.unitType);
    BeforeExactly(a.divergence, b.divergence);
    BeforeExactly(a.pack, b.pack);
    BeforeExactly(a.age, b.age);
    hide CompareText, Before, TextLe;
    CompareFields(Fields(a), Fields(b));
  }

  /** The first of five fields that differs decides. */
  lemma CompareFields(x: Key, y: Key)
    requires |x| == 5 && |y| == 5
    ensures Compare(x, y)
            == if CompareAtom(x[0], y[0]) != Equal then CompareAtom(x[0], y[0])
               else if CompareAtom(x[1], y[1]) != Equal then CompareAtom(x[1], y[1])
               else if CompareAtom(x[2], y[2]) != Equal then CompareAtom(x[2], y[2])
               else if CompareAtom(x[3], y[3]) != Equal then CompareAtom(x[3], y[3])
               else CompareAtom(x[4], y[4])
  {
    hide CompareAtom, Compare;
    CompareStep(x, y);
    CompareStep(x[1..], y[1..]);
    CompareStep(x[2..], y[2..]);
    CompareStep(x[3..], y[3..]);
    CompareStep(x[4..], y[4..]);
    CompareEnd(x[5..], y[5..]);
    assert x[1..][1..] == x[2..] && x[2..][1..] == x[3..] && x[3..][1..] == x[4..] && x[4..][1..] == x[5..];
    assert y[1..][1..] == y[2..] && y[2..][1..] == y[3..] && y[3..][1..] == y[4..] && y[4..][1..] == y[5..];
  }

  lemma CompareStep(x: Key, y: Key)
    requires x != [] && y != []
    ensures Compare(x, y)
            == if CompareAtom(x[0], y[0]) != Equal then CompareAtom(x[0], y[0]) else Compare(x[1..], y[1..])
  {
  }

  lemma CompareEnd(x: Key, y: Key)
    requires x == [] && y == []
    ensures Compare(x, y) == Equal
  {
  }

  lemma KindCounts(units: seq<Unit>, u: Unit, key: Unit -> Stratum)
    requires forall x :: key(x) == x.stratum
    ensures OfKind(units, u) == Having(units, key, u.stratum)
  {
    assert (set i: nat | i < |units| && SameKind(units[i], u)) == Places(units, key, u.stratum);
  }

  /** A fair selection of the strata keeps the promise. */
  lemma FairToKinds(units: seq<Unit>, target: nat, chosen: seq<Unit>, k: nat, m: nat)
    requires Fair(Stratified(units), target, chosen, k, m)
    ensures FairCohort(units, chosen)
  {
    var key := (x: Unit) => x.stratum;
    StratumLeTotal();
    RankLeTotal();
    hide TotalOrder, Fair, Groups, StratumLe, RankLe, Older, EarlierKind, Having, OfKind;
    FairToUnits(units, key, StratumLe, RankLe, target, chosen, k, m);
    forall u, v | u in chosen && LeftOut(units, chosen, v) && SameKind(u, v)
      ensures Older(u, v)
    {
      assert key(u) == key(v);
      OlderExactly(u, v);
    }
    forall u, v | u in units && LeftOut(units, chosen, v) && !SameKind(u, v)
      ensures AtMostOneMore(units, chosen, u, v)
    {
      assert key(u) != key(v);
      assert NoMore(units, chosen, key, StratumLe, key(u), key(v));
      KindCounts(chosen, u, key);
      KindCounts(chosen, v, key);
      KindCounts(units, u, key);
      KindCounts(units, v, key);
      EarlierExactly(u, v);
    }
  }

  /** _stratified_cohort */
  method StratifiedCohort(units: seq<Unit>, target: int) returns (chosen: seq<Unit>, ghost k: nat, ghost m: nat)
    ensures Fair(Stratified(units), Clamp(target, |units|), chosen, k, m) && FairCohort(units, chosen)
    ensures |chosen| == (if target <= 0 then 0 else if target <= |units| then target else |units|)
  {
    hide Groups, Fair, FairCohort;
    StratifiedShares(units);
    if |units| == 0 || target <= 0 {
      FairNothing(Stratified(units));
      FairToKinds(units, 0, [], 0, 0);
      return [], 0, 0;
    }
    var groups := Stratify(units, (u: Unit) => u.stratum, StratumLe, RankLe);
    chosen, k, m := Select(groups, Min(target, |units|));
    FairShares(groups, Min(target, |units|), chosen, k, m);
    FairToKinds(units, Min(target, |units|), chosen, k, m);
  }

  lemma FairNothing<T>(groups: seq<seq<T>>)
    ensures Fair(groups, 0, [], 0, 0)
  {
    TurnsWithin(groups, 0, 0, []);
  }

  // --------------------------------------------------------- the replay sample

  /** A wanted item's newest refusal and the first code it was stored with. */
  datatype Refusal = Refusal(wantedId: string, code: string)

  predicate IdLe(a: Refusal, b: Refusal) { TextLe(a.wantedId, b.wantedId) }

  predicate HashLe(rank: string -> string, a: Refusal, b: Refusal) { TextLe(rank(a.wantedId), rank(b.wantedId)) }

  function Refused(items: seq<Refusal>, rank: string -> string): seq<seq<Refusal>> {
    Groups(items, (r: Refusal) => r.code, TextLe, (a, b) => HashLe(rank, a, b))
  }

  lemma RefusalOrders(rank: string -> string)
    ensures TotalOrder(IdLe) && TotalOrder(TextLe) && TotalOrder((a, b) => HashLe(rank, a, b))
  {
    hide TextLe;
    TextLeTotal();
    ByText((r: Refusal) => r.wantedId);
    ByText((r: Refusal) => rank(r.wantedId));
  }

  lemma ByText<T(!new)>(text: T -> string)
    requires TotalOrder(TextLe)
    ensures TotalOrder((a, b) => TextLe(text(a), text(b)))
  {
    hide TextLe;
  }

  function WithCode(items: seq<Refusal>, code: string): nat { |set i: nat | i < |items| && items[i].code == code| }

  /**
    The same promise for refusals: of one code those of smaller rank are chosen
    first, and no code with an item left out is more than one behind another.
   */
  ghost predicate FairSample(items: seq<Refusal>, chosen: seq<Refusal>, rank: string -> string) {
    multiset(chosen) <= multiset(items)
    && (forall a, b | a in chosen && LeftOut(items, chosen, b) && a.code == b.code ::
          Before(rank(a.wantedId), rank(b.wantedId)) || rank(a.wantedId) == rank(b.wantedId))
    && forall a, b | a in items && LeftOut(items, chosen, b) && a.code != b.code ::
         var (x, y) := (WithCode(chosen, a.code), WithCode(chosen, b.code));
         x <= y + 1
         && (x == y + 1 ==>
               WithCode(items, a.code) > WithCode(items, b.code)
               || (WithCode(items, a.code) == WithCode(items, b.code) && Before(a.code, b.code)))
  }

  lemma CodeCounts(items: seq<Refusal>, code: string, key: Refusal -> string)
    requires forall r :: key(r) == r.code
    ensures WithCode(items, code) == Having(items, key, code)
  {
    assert (set i: nat | i < |items| && items[i].code == code) == Places(items, key, code);
  }

  lemma FairToRefusals(items: seq<Refusal>, target: nat, chosen: seq<Refusal>, k: nat, m: nat, rank: string -> string)
    requires Fair(Refused(items, rank), target, chosen, k, m)
    ensures FairSample(items, chosen, rank)
  {
    var (key, hashLe) := ((r: Refusal) => r.code, (a: Refusal, b: Refusal) => HashLe(rank, a, b));
    RefusalOrders(rank);
    hide TotalOrder, Fair, Groups, TextLe, Having, WithCode, Before;
    FairToUnits(items, key, TextLe, hashLe, target, chosen, k, m);
    forall a, b | a in chosen && LeftOut(items, chosen, b) && a.code == b.code
      ensures Before(rank(a.wantedId), rank(b.wantedId)) || rank(a.wantedId) == rank(b.wantedId)
    {
      assert key(a) == key(b) && hashLe(a, b);
      BeforeExactly(rank(a.wantedId), rank(b.wantedId));
    }
    forall a, b | a in items && LeftOut(items, chosen, b) && a.code != b.code
      ensures var (x, y) := (WithCode(chosen, a.code), WithCode(chosen, b.code));
              x <= y + 1
              && (x == y + 1 ==>
                    WithCode(items, a.code) > WithCode(items, b.code)
                    || (WithCode(items, a.code) == WithCode(items, b.code) && Before(a.code, b.code)))
    {
      assert key(a) != key(b) && NoMore(items, chosen, key, TextLe, key(a), key(b));
      CodeCounts(chosen, a.code, key);
      CodeCounts(chosen, b.code, key);
      CodeCounts(items, a.code, key);
      CodeCounts(items, b.code, key);
      BeforeExactly(a.code, b.code);
    }
  }

  /** stratified_sample: every item when none or all are asked for, else a fair selection; in order of id. */
  method StratifiedSample(items: seq<Refusal>, limit: int, rank: string -> string)
    returns (sample: seq<Refusal>, ghost picked: seq<Refusal>, ghost k: nat, ghost m: nat)
    ensures Ascending(sample, IdLe) && multiset(sample) == multiset(picked)
    ensures limit <= 0 || limit >= |items| ==> picked == items
    ensures 0 < limit < |items| ==>
              Fair(Refused(items, rank), limit, picked, k, m) && FairSample(items, picked, rank) && |sample| == limit
    ensures multiset(sample) <= multiset(items)
  {
    hide Groups, Fair, SortBy, Ascending, TotalOrder, FairSample;
    RefusalOrders(rank);
    if limit <= 0 || limit >= |items| {
      SortSorts(items, IdLe);
      return SortBy(items, IdLe), items, 0, 0;
    }
    var hashLe := (a, b) => HashLe(rank, a, b);
    var groups := Stratify(items, (r: Refusal) => r.code, TextLe, hashLe);
    GroupsPartition(items, (r: Refusal) => r.code, TextLe, hashLe);
    var chosen: seq<Refusal>;
    chosen, k, m := Select(groups, limit);
    FairShares(groups, limit, chosen, k, m);
    FairToRefusals(items, limit, chosen, k, m, rank);
    SortSorts(chosen, IdLe);
    picked := chosen;
    sample := SortBy(chosen, IdLe);
  }
}
