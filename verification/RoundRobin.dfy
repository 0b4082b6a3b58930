/**
  The fair selection loop shared by the acquisition funnel's cohorts
  (core/inkdrop_acquisition_funnel.py) and the candidate replay's sample
  (core/inkdrop_candidate_replay.py): one row from every group in turn.
 */
module RoundRobin {
  /** The row at one offset of each of the first n groups that has one. */
  function Column<T>(groups: seq<seq<T>>, offset: nat, n: nat): seq<T>
    requires n <= |groups|
  {
    if n == 0 then []
    else Column(groups, offset, n - 1) + if offset < |groups[n - 1]| then [groups[n - 1][offset]] else []
  }

  /** The first k full rounds, one after another. */
  function Rounds<T>(groups: seq<seq<T>>, k: nat): seq<T> {
    if k == 0 then [] else Rounds(groups, k - 1) + Column(groups, k - 1, |groups|)
  }

  function Min(a: int, b: int): int { if a < b then a else b }

  /** The first n rows of a group, or all there are. */
  function Share<T>(rows: seq<T>, n: nat): seq<T> { rows[..Min(|rows|, n)] }

  /** The first rows of each group: k + 1 of those before position m, k of the others. */
  function Shares<T>(groups: seq<seq<T>>, k: nat, m: nat): (s: seq<seq<T>>)
    ensures |s| == |groups|
  {
    seq(|groups|, g requires 0 <= g < |groups| => Share(groups[g], if g < m then k + 1 else k))
  }

  function Concat<T>(s: seq<seq<T>>): seq<T> {
    if s == [] then [] else Concat(s[..|s| - 1]) + s[|s| - 1]
  }

  lemma {:induction false} ConcatUpdate<T>(s: seq<seq<T>>, i: nat, x: T)
    requires i < |s|
    ensures multiset(Concat(s[i := s[i] + [x]])) == multiset(Concat(s)) + multiset{x}
  {
    var t := s[i := s[i] + [x]];
    var n := |s| - 1;
    if i < n {
      ConcatUpdate(s[..n], i, x);
      assert t[..n] == s[..n][i := s[i] + [x]];
    } else {
      assert t[..n] == s[..n];
    }
  }

  lemma {:induction false} EmptyShares<T>(groups: seq<seq<T>>)
    ensures Concat(Shares(groups, 0, 0)) == []
  {
    if groups != [] {
      var n := |groups| - 1;
      EmptyShares(groups[..n]);
      assert Shares(groups, 0, 0)[..n] == Shares(groups[..n], 0, 0);
    }
  }

  /** Turns up to the m-th group of round k give each group its share. */
  ghost predicate Balanced<T>(groups: seq<seq<T>>, k: nat, m: nat)
    requires m <= |groups|
  {
    multiset(Rounds(groups, k) + Column(groups, k, m)) == multiset(Concat(Shares(groups, k, m)))
  }

  /** Giving every group its turn is giving each group its first rows. */
  lemma {:induction false} TurnsAreShares<T>(groups: seq<seq<T>>, k: nat, m: nat)
    requires m <= |groups|
    ensures Balanced(groups, k, m)
    decreases k, m
  {
    hide *;
    if m > 0 {
      TurnsAreShares(groups, k, m - 1);
      NextTurn(groups, k, m - 1, Rounds(groups, k), Column(groups, k, m - 1));
    } else if k > 0 {
      TurnsAreShares(groups, k - 1, |groups|);
      NextRound(groups, k);
    } else {
      NoTurns(groups);
    }
  }

  lemma NoTurns<T>(groups: seq<seq<T>>)
    ensures Balanced(groups, 0, 0)
  {
    hide Concat, Shares;
    EmptyShares(groups);
  }

  lemma NextRound<T>(groups: seq<seq<T>>, k: nat)
    requires k > 0 && Balanced(groups, k - 1, |groups|)
    ensures Balanced(groups, k, 0)
  {
    hide Concat, Shares;
    RoundEnds(groups, k);
    assert Rounds(groups, k) + Column(groups, k, 0) == Rounds(groups, k);
  }

  lemma RoundEnds<T>(groups: seq<seq<T>>, k: nat)
    requires k > 0
    ensures Shares(groups, k - 1, |groups|) == Shares(groups, k, 0)
  {
    hide Share;
  }

  lemma NextTurn<T>(groups: seq<seq<T>>, k: nat, i: nat, rounds: seq<T>, column: seq<T>)
    requires i < |groups| && rounds == Rounds(groups, k) && column == Column(groups, k, i)
    requires Balanced(groups, k, i)
    ensures Balanced(groups, k, i + 1)
  {
    hide Concat, Shares, Rounds;
    NextShare(groups, k, i);
    if k < |groups[i]| {
      assert rounds + Column(groups, k, i + 1) == (rounds + column) + [groups[i][k]];
    } else {
      assert Column(groups, k, i + 1) == column;
    }
  }

  lemma NextShare<T>(groups: seq<seq<T>>, k: nat, i: nat)
    requires i < |groups|
    ensures k < |groups[i]|
            ==> multiset(Concat(Shares(groups, k, i + 1)))
                == multiset(Concat(Shares(groups, k, i))) + multiset{groups[i][k]}
    ensures k >= |groups[i]| ==> Shares(groups, k, i + 1) == Shares(groups, k, i)
  {
    hide Concat, Share;
    var s := Shares(groups, k, i);
    ShareGrows(groups[i], k);
    if k < |groups[i]| {
      assert Shares(groups, k, i + 1) == s[i := s[i] + [groups[i][k]]];
      ConcatUpdate(s, i, groups[i][k]);
    } else {
      assert Shares(groups, k, i + 1) == s;
    }
  }

  lemma ShareGrows<T>(rows: seq<T>, k: nat)
    ensures Share(rows, k + 1) == if k < |rows| then Share(rows, k) + [rows[k]] else Share(rows, k)
    ensures Share(rows, 0) == []
  {
  }

  function Total<T>(groups: seq<seq<T>>): (n: nat)
    ensures n == |Concat(groups)|
  {
    |Concat(groups)|
  }

  predicate AllTaken<T>(groups: seq<seq<T>>, k: nat, m: nat) {
    forall g | 0 <= g < |groups| :: |groups[g]| <= if g < m then k + 1 else k
  }

  lemma {:induction false} SharesBelow<T>(groups: seq<seq<T>>, k: nat, m: nat)
    ensures multiset(Concat(Shares(groups, k, m))) <= multiset(Concat(groups))
    ensures |Concat(Shares(groups, k, m))| <= Total(groups)
    ensures |Concat(Shares(groups, k, m))| == Total(groups) <==> AllTaken(groups, k, m)
  {
    hide *;
    if groups != [] {
      var n := |groups| - 1;
      var d := if n < m then k + 1 else k;
      assert groups == groups[..n] + [groups[n]];
      SharesBelow(groups[..n], k, m);
      SharesSnoc(groups[..n], groups[n], k, m);
      ConcatSnoc(groups[..n], groups[n]);
      ConcatSnoc(Shares(groups[..n], k, m), Share(groups[n], d));
      ShareBelow(Concat(Shares(groups[..n], k, m)), Concat(groups[..n]), groups[n], d);
    } else {
      EmptyBelow(groups, k, m);
    }
  }

  lemma EmptyBelow<T>(groups: seq<seq<T>>, k: nat, m: nat)
    requires groups == []
    ensures Concat(Shares(groups, k, m)) == [] && Concat(groups) == [] && AllTaken(groups, k, m)
  {
  }

  lemma ConcatSnoc<T>(s: seq<seq<T>>, x: seq<T>)
    ensures Concat(s + [x]) == Concat(s) + x
  {
    assert (s + [x])[..|s|] == s;
  }

  lemma SharesSnoc<T>(front: seq<seq<T>>, rows: seq<T>, k: nat, m: nat)
    ensures var d := if |front| < m then k + 1 else k;
            Shares(front + [rows], k, m) == Shares(front, k, m) + [Share(rows, d)]
            && (AllTaken(front + [rows], k, m) <==> AllTaken(front, k, m) && |rows| <= d)
  {
    hide Share;
    var all := front + [rows];
    assert all[|front|] == rows && forall g | 0 <= g < |front| :: all[g] == front[g];
  }

  lemma ShareBelow<T>(a: seq<T>, b: seq<T>, rows: seq<T>, d: nat)
    requires multiset(a) <= multiset(b) && |a| <= |b|
    ensures multiset(a + Share(rows, d)) <= multiset(b + rows) && |a + Share(rows, d)| <= |b + rows|
    ensures |a + Share(rows, d)| == |b + rows| <==> |a| == |b| && |rows| <= d
  {
    assert rows == Share(rows, d) + rows[|Share(rows, d)|..];
  }

  /** The rows taken by k full rounds and the first m groups of the next. */
  ghost predicate Taken<T>(groups: seq<seq<T>>, chosen: seq<T>, k: nat, m: nat) {
    m <= |groups| && chosen == Rounds(groups, k) + Column(groups, k, m)
  }

  /** What a fair selection is: some number of full rounds and part of one more. */
  ghost predicate Fair<T>(groups: seq<seq<T>>, target: nat, chosen: seq<T>, k: nat, m: nat) {
    Taken(groups, chosen, k, m) && |chosen| == Min(target, Total(groups))
  }

  /** One round: a row from each group in turn, until the target is met. */
  method TakeRound<T>(groups: seq<seq<T>>, offset: nat, target: nat, chosen: seq<T>)
    returns (chosen': seq<T>, progressed: bool, ghost m: nat)
    requires |chosen| < target && Taken(groups, chosen, offset, 0)
    ensures Taken(groups, chosen', offset, m) && |chosen| <= |chosen'| <= target
            && (progressed <==> |chosen| < |chosen'|)
    ensures |chosen'| == target || m == |groups|
  {
    hide Rounds;
    chosen', m := chosen, 0;
    progressed := false;
    var i := 0;
    while i < |groups| && |chosen'| < target
      invariant i <= |groups| && m == i && Taken(groups, chosen', offset, m)
      invariant |chosen| <= |chosen'| <= target && (progressed <==> |chosen| < |chosen'|)
    {
      if offset < |groups[i]| {
        chosen' := chosen' + [groups[i][offset]];
        progressed := true;
      }
      i := i + 1;
      m := i;
    }
  }

  /** The loop that takes one row from each group in turn until the target is met. */
  method Select<T>(groups: seq<seq<T>>, target: nat) returns (chosen: seq<T>, ghost k: nat, ghost m: nat)
    ensures |chosen| == Min(target, Total(groups)) && multiset(chosen) <= multiset(Concat(groups))
    ensures Fair(groups, target, chosen, k, m)
  {
    hide Concat, Taken;
    chosen, k, m := [], 0, 0;
    var offset, going := 0, true;
    NothingTaken(groups);
    while going && |chosen| < target
      invariant Taken(groups, chosen, k, m) && |chosen| <= target
      invariant going ==> k == offset && m == 0
      invariant going || |chosen| == Total(groups)
      decreases going, target - |chosen|
    {
      ghost var before := chosen;
      var progressed: bool;
      chosen, progressed, m := TakeRound(groups, offset, target, chosen);
      going := progressed;
      if !progressed {
        Exhausted(groups, offset, before, chosen, m);
      } else if |chosen| < target {
        RoundTaken(groups, offset, chosen);
        offset := offset + 1;
        k, m := offset, 0;
      } else {
        break;
      }
    }
    TurnsWithin(groups, k, m, chosen);
  }

  lemma NothingTaken<T>(groups: seq<seq<T>>)
    ensures Taken(groups, [], 0, 0)
  {
  }

  lemma RoundTaken<T>(groups: seq<seq<T>>, k: nat, chosen: seq<T>)
    requires Taken(groups, chosen, k, |groups|)
    ensures Taken(groups, chosen, k + 1, 0)
  {
    assert Rounds(groups, k + 1) + Column(groups, k + 1, 0) == Rounds(groups, k + 1);
  }

  lemma TurnsWithin<T>(groups: seq<seq<T>>, k: nat, m: nat, chosen: seq<T>)
    requires Taken(groups, chosen, k, m)
    ensures |chosen| <= Total(groups) && multiset(chosen) <= multiset(Concat(groups))
    ensures |chosen| == |Concat(Shares(groups, k, m))| && multiset(chosen) == multiset(Concat(Shares(groups, k, m)))
  {
    hide Concat, Shares, Rounds, Column;
    TurnsAreShares(groups, k, m);
    SharesBelow(groups, k, m);
    assert |chosen| == |multiset(chosen)| == |multiset(Concat(Shares(groups, k, m)))|;
  }

  /** A round that took nothing means every row is taken. */
  lemma Exhausted<T>(groups: seq<seq<T>>, k: nat, before: seq<T>, chosen: seq<T>, m: nat)
    requires Taken(groups, before, k, 0) && Taken(groups, chosen, k, m) && |chosen| == |before| && m == |groups|
    ensures |chosen| == Total(groups)
  {
    hide Concat, Shares, Rounds;
    assert |Column(groups, k, |groups|)| == 0;
    forall g | 0 <= g < |groups|
      ensures |groups[g]| <= k
    {
      NothingInColumn(groups, k, |groups|, g);
    }
    SharesBelow(groups, k, |groups|);
    TurnsWithin(groups, k, |groups|, chosen);
  }

  lemma {:induction false} NothingInColumn<T>(groups: seq<seq<T>>, k: nat, n: nat, g: nat)
    requires g < n <= |groups| && Column(groups, k, n) == []
    ensures |groups[g]| <= k
  {
    if g < n - 1 {
      NothingInColumn(groups, k, n - 1, g);
    }
  }

  /**
    A fair selection meets the clamped target with rows of the groups, each at
    most as often as it occurs, and every group gave its first rows: all it has,
    or as many as any other group or one fewer, earlier groups going first.
   */
  lemma FairShares<T>(groups: seq<seq<T>>, target: nat, chosen: seq<T>, k: nat, m: nat)
    requires Fair(groups, target, chosen, k, m)
    ensures |chosen| == Min(target, Total(groups)) && multiset(chosen) <= multiset(Concat(groups))
    ensures multiset(chosen) == multiset(Concat(Shares(groups, k, m)))
    ensures forall g | 0 <= g < |groups| :: Shares(groups, k, m)[g] <= groups[g]
              && |Shares(groups, k, m)[g]| == Min(|groups[g]|, if g < m then k + 1 else k)
  {
    hide Concat, Rounds, Column;
    TurnsWithin(groups, k, m, chosen);
    SharesBelow(groups, k, m);
  }
}
