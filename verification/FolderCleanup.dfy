/** Sweeping folders left empty by a removed file (core/inkdrop_folder_cleanup.py). */
module FolderCleanup {
  import opened Outcomes

  /** A resolved path, component by component; the parents of a path are its proper prefixes. */
  type Path = seq<string>

  function Parent(p: Path): Path { if p == [] then p else p[..|p| - 1] }

  datatype Tree = Tree(dirs: set<Path>, files: set<Path>)

  function Entries(t: Tree, d: Path): set<Path> {
    set p | p in t.dirs + t.files && p != [] && Parent(p) == d
  }

  /** Everything lies in a directory of the tree. */
  ghost predicate WellFormed(t: Tree) {
    t.dirs !! t.files && forall p | p in t.dirs + t.files && p != [] :: Parent(p) in t.dirs
  }

  datatype Reason = ResolveFailed | OutsideRoot | Swept | NothingEmpty
  datatype Report = Report(ok: bool, removed: seq<Path>, reason: Reason)

  /** A folder below the root that nothing but what is gone keeps in use. */
  predicate Removable(t: Tree, root: Path, d: Path, gone: set<Path>, faulty: set<Path>) {
    root < d && d in t.dirs && d !in faulty && Entries(t, d) <= gone
  }

  /** What could be removed of the path's folders from current upward; some folders raise when looked at or removed. */
  function Chain(t: Tree, root: Path, current: Path, pruned: set<Path>, faulty: set<Path>): (c: seq<Path>)
    decreases |current|
  {
    if Removable(t, root, current, pruned, faulty)
    then [current] + Chain(t, root, Parent(current), pruned + {current}, faulty)
    else []
  }

  function SetOf(s: seq<Path>): set<Path> { set p | p in s }

  class Folders {
    var dirs: set<Path>
    var files: set<Path>

    constructor (dirs: set<Path>, files: set<Path>)
      ensures this.dirs == dirs && this.files == files
    {
      this.dirs, this.files := dirs, files;
    }

    function Now(): Tree
      reads this
    {
      Tree(dirs, files)
    }

    /** remove_empty_parents; looking at some folders raises, and so does removing some. */
    method RemoveEmptyParents(removedPath: Option<Path>, stopRoot: Option<Path>, dryRun: bool, unreadable: set<Path>,
                              stuck: set<Path>)
      returns (report: Report)
      modifies this
      ensures removedPath.None? || stopRoot.None? ==> report == Report(false, [], ResolveFailed)
      ensures removedPath.Some? && stopRoot.Some? && !(stopRoot.value < removedPath.value)
              ==> report == Report(false, [], OutsideRoot)
      ensures removedPath.Some? && stopRoot.Some? && stopRoot.value < removedPath.value ==>
                report.ok && report.reason == (if report.removed == [] then NothingEmpty else Swept)
                && report.removed == Chain(old(Now()), stopRoot.value, Parent(removedPath.value), {},
                                           Faulty(dryRun, unreadable, stuck))
      ensures Now() == if dryRun then old(Now()) else Without(old(Now()), SetOf(report.removed))
    {
      if removedPath.None? || stopRoot.None? {
        return Report(false, [], ResolveFailed);
      }
      var root := stopRoot.value;
      if !(root < removedPath.value) {
        return Report(false, [], OutsideRoot);
      }
      hide Chain, Removable, Faulty, Without, SetOf;
      ghost var before := Now();
      ghost var faulty := Faulty(dryRun, unreadable, stuck);
      var pruned: set<Path>, removed: seq<Path>, current, going := {}, [], Parent(removedPath.value), true;
      WithoutNothing(before);
      ghost var whole := Chain(before, root, current, pruned, faulty);
      ghost var rest := whole;
      while going && root < current
        invariant pruned == SetOf(removed) && Now() == if dryRun then before else Without(before, pruned)
        invariant whole == removed + rest && rest == if going then Chain(before, root, current, pruned, faulty) else []
        invariant forall p | p in pruned :: current < p
        decreases going, |current|
      {
        ChainStep(before, root, current, pruned, faulty);
        going := RemoveIfEmpty(root, current, pruned, dryRun, unreadable, stuck, before);
        if going {
          rest := Chain(before, root, Parent(current), pruned + {current}, faulty);
          Regroup(removed, current, rest);
          SetOfAppend(removed, current);
          pruned := pruned + {current};
          removed := removed + [current];
          current := Parent(current);
        } else {
          rest := [];
        }
      }
      if going {
        ChainStep(before, root, current, pruned, faulty);
        NotBelow(before, root, current, pruned, faulty);
      }
      assert rest == [] && whole == removed;
      report := Report(true, removed, if removed == [] then NothingEmpty else Swept);
    }

    /** One folder: look, and remove it if nothing is left in it; any failure ends the walk. */
    method RemoveIfEmpty(ghost root: Path, current: Path, pruned: set<Path>, dryRun: bool, unreadable: set<Path>,
                         stuck: set<Path>, ghost before: Tree)
      returns (going: bool)
      requires Now() == (if dryRun then before else Without(before, pruned)) && root < current && current !in pruned
      modifies this
      ensures going <==> Removable(before, root, current, pruned, Faulty(dryRun, unreadable, stuck))
      ensures Now() == if dryRun then before else Without(before, if going then pruned + {current} else pruned)
    {
      hide Entries;
      EntriesWithout(before, current, pruned);
      going := current in dirs && current !in unreadable && Entries(Now(), current) <= pruned
               && (dryRun || current !in stuck);
      if going && !dryRun {
        dirs := dirs - {current};
      }
    }
  }

  lemma Regroup(a: seq<Path>, p: Path, b: seq<Path>)
    ensures a + ([p] + b) == (a + [p]) + b
  {
  }

  lemma SetOfAppend(s: seq<Path>, p: Path)
    ensures SetOf(s + [p]) == SetOf(s) + {p}
  {
  }

  lemma WithoutNothing(t: Tree)
    ensures Without(t, {}) == t && SetOf([]) == {}
  {
  }

  lemma NotBelow(t: Tree, root: Path, current: Path, pruned: set<Path>, faulty: set<Path>)
    requires !(root < current)
    ensures !Removable(t, root, current, pruned, faulty)
  {
  }

  /** A dry run removes nothing, so nothing fails to be removed. */
  function Faulty(dryRun: bool, unreadable: set<Path>, stuck: set<Path>): set<Path> {
    if dryRun then unreadable else unreadable + stuck
  }

  function Without(t: Tree, gone: set<Path>): Tree { t.(dirs := t.dirs - gone) }

  lemma ChainStep(t: Tree, root: Path, current: Path, pruned: set<Path>, faulty: set<Path>)
    ensures Chain(t, root, current, pruned, faulty)
            == if Removable(t, root, current, pruned, faulty)
               then [current] + Chain(t, root, Parent(current), pruned + {current}, faulty) else []
  {
  }

  lemma EntriesWithout(t: Tree, d: Path, pruned: set<Path>)
    ensures Entries(Without(t, pruned), d) <= pruned <==> Entries(t, d) <= pruned
  {
    assert Entries(t, d) - pruned <= Entries(Without(t, pruned), d) <= Entries(t, d);
  }

  /** containing_root: the deepest configured root strictly above the path. */
  method ContainingRoot(path: Option<Path>, roots: seq<Option<Path>>) returns (found: Option<Path>)
    ensures found.Some? ==> found in roots && path.Some? && found.value < path.value
    ensures found.Some? ==> forall r | Some(r) in roots && r < path.value :: r <= found.value
    ensures found.None? ==> path.None? || forall r | Some(r) in roots :: !(r < path.value)
  {
    found := None;
    if path.None? {
      return;
    }
    for i := 0 to |roots|
      invariant found.Some? ==> found in roots[..i] && found.value < path.value
      invariant found.Some? ==> forall r | Some(r) in roots[..i] && r < path.value :: r <= found.value
      invariant found.None? ==> forall r | Some(r) in roots[..i] :: !(r < path.value)
    {
      assert roots[..i + 1] == roots[..i] + [roots[i]];
      if roots[i].Some? && roots[i].value < path.value && (found.None? || |found.value| < |roots[i].value|) {
        found := roots[i];
      }
    }
    assert roots[..|roots|] == roots;
  }

  // ----------------------------------------------------------------- what is removed

  /** The removed folders are the path's own, from its parent upward without a gap, each below the root. */
  lemma {:induction false} ChainClimbs(t: Tree, root: Path, current: Path, pruned: set<Path>, faulty: set<Path>)
    ensures var c := Chain(t, root, current, pruned, faulty);
            |c| <= |current| && forall i | 0 <= i < |c| ::
                c[i] == current[..|current| - i] && root < c[i] && c[i] in t.dirs && c[i] !in faulty
    decreases |current|
  {
    var c := Chain(t, root, current, pruned, faulty);
    if c != [] {
      ChainClimbs(t, root, Parent(current), pruned + {current}, faulty);
      forall i | 1 <= i < |c|
        ensures c[i] == current[..|current| - i]
      {
        assert c[i] == Chain(t, root, Parent(current), pruned + {current}, faulty)[i - 1];
        assert Parent(current)[..|current| - 1 - (i - 1)] == current[..|current| - i];
      }
    }
  }

  predicate EmptyInTurn(t: Tree, c: seq<Path>, pruned: set<Path>) {
    forall i | 0 <= i < |c| :: Entries(t, c[i]) <= pruned + SetOf(c[..i])
  }

  lemma EmptyInTurnCons(t: Tree, d: Path, rest: seq<Path>, pruned: set<Path>)
    requires Entries(t, d) <= pruned && EmptyInTurn(t, rest, pruned + {d})
    ensures EmptyInTurn(t, [d] + rest, pruned) && pruned + SetOf([d] + rest) == pruned + {d} + SetOf(rest)
  {
    hide Entries;
    var c := [d] + rest;
    forall i | 0 <= i < |c|
      ensures Entries(t, c[i]) <= pruned + SetOf(c[..i])
    {
      if i > 0 {
        assert c[i] == rest[i - 1] && c[..i] == [d] + rest[..i - 1];
        assert SetOf(c[..i]) == {d} + SetOf(rest[..i - 1]);
      }
    }
  }

  /** Each folder is empty once those before it are gone; the walk stops where one is not. */
  lemma {:induction false} ChainMaximal(t: Tree, root: Path, current: Path, pruned: set<Path>, faulty: set<Path>)
    ensures var c := Chain(t, root, current, pruned, faulty);
            EmptyInTurn(t, c, pruned) && |c| <= |current|
            && !Removable(t, root, current[..|current| - |c|], pruned + SetOf(c), faulty)
    decreases |current|
  {
    hide EmptyInTurn, Entries;
    var c := Chain(t, root, current, pruned, faulty);
    if c == [] {
      assert current[..|current|] == current;
      assert pruned + SetOf(c) == pruned;
      NothingInTurn(t, pruned);
    } else {
      var rest := Chain(t, root, Parent(current), pruned + {current}, faulty);
      ChainMaximal(t, root, Parent(current), pruned + {current}, faulty);
      EmptyInTurnCons(t, current, rest, pruned);
      assert Parent(current)[..|current| - 1 - |rest|] == current[..|current| - |c|];
    }
  }

  lemma NothingInTurn(t: Tree, pruned: set<Path>)
    ensures EmptyInTurn(t, [], pruned)
  {
  }

  /** Below d lie only folders of the path itself. */
  ghost predicate OnlyPathBelow(t: Tree, d: Path, parent: Path) {
    forall p | p in t.dirs + t.files && d < p :: p in t.dirs && p <= parent
  }

  /** The folders from d down to parent can all be looked at and removed. */
  ghost predicate Sound(t: Tree, d: Path, parent: Path, faulty: set<Path>) {
    forall n | |d| <= n <= |parent| :: parent[..n] in t.dirs && parent[..n] !in faulty
  }

  /**
    A folder is removed exactly when it is below the root and on the path, and
    nothing lies beneath it but the path's own folders, all removable.
   */
  lemma RemovedExactly(t: Tree, root: Path, target: Path, faulty: set<Path>, d: Path)
    requires WellFormed(t) && root < target
    ensures d in Chain(t, root, Parent(target), {}, faulty)
            <==> root < d <= Parent(target) && OnlyPathBelow(t, d, Parent(target))
                 && Sound(t, d, Parent(target), faulty)
  {
    var parent := Parent(target);
    var c := Chain(t, root, parent, {}, faulty);
    ChainClimbs(t, root, parent, {}, faulty);
    ChainMaximal(t, root, parent, {}, faulty);
    if d in c {
      var i :| 0 <= i < |c| && c[i] == d;
      RemovedHasNothingBelow(t, root, parent, faulty, i);
      RemovedSound(t, root, parent, faulty, i);
    }
    if root < d <= parent && OnlyPathBelow(t, d, parent) && Sound(t, d, parent, faulty) {
      var k := |parent| - |d|;
      assert d == parent[..|d|];
      NotStopped(t, root, parent, faulty, d);
      assert c[k] == d;
    }
  }

  lemma RemovedSound(t: Tree, root: Path, parent: Path, faulty: set<Path>, i: nat)
    requires i < |Chain(t, root, parent, {}, faulty)|
    ensures var d := Chain(t, root, parent, {}, faulty)[i]; d <= parent && Sound(t, d, parent, faulty)
  {
    var c := Chain(t, root, parent, {}, faulty);
    ChainClimbs(t, root, parent, {}, faulty);
    forall n | |c[i]| <= n <= |parent|
      ensures parent[..n] in t.dirs && parent[..n] !in faulty
    {
      assert c[|parent| - n] == parent[..n];
    }
  }

  /** Everything below a removed folder was removed before it. */
  lemma RemovedHasNothingBelow(t: Tree, root: Path, parent: Path, faulty: set<Path>, i: nat)
    requires WellFormed(t) && i < |Chain(t, root, parent, {}, faulty)|
    ensures OnlyPathBelow(t, Chain(t, root, parent, {}, faulty)[i], parent)
  {
    var c := Chain(t, root, parent, {}, faulty);
    forall p | p in t.dirs + t.files && c[i] < p
      ensures p in t.dirs && p <= parent
    {
      BelowRemoved(t, root, parent, faulty, i, p);
      ChainClimbs(t, root, parent, {}, faulty);
    }
  }

  lemma {:induction false} BelowRemoved(t: Tree, root: Path, parent: Path, faulty: set<Path>, i: nat, p: Path)
    requires WellFormed(t) && i < |Chain(t, root, parent, {}, faulty)|
    requires p in t.dirs + t.files && Chain(t, root, parent, {}, faulty)[i] < p
    ensures p in Chain(t, root, parent, {}, faulty)[..i]
    decreases |p|
  {
    var c := Chain(t, root, parent, {}, faulty);
    ChainMaximal(t, root, parent, {}, faulty);
    hide Chain;
    if Parent(p) == c[i] {
      InTurn(t, c, i, p);
    } else {
      BelowRemoved(t, root, parent, faulty, i, Parent(p));
      var j :| 0 <= j < i && c[j] == Parent(p);
      InTurn(t, c, j, p);
      assert c[..j] <= c[..i];
    }
  }

  lemma InTurn(t: Tree, c: seq<Path>, i: nat, p: Path)
    requires EmptyInTurn(t, c, {}) && i < |c| && p in t.dirs + t.files && p != [] && Parent(p) == c[i]
    ensures p in c[..i]
  {
    assert p in Entries(t, c[i]);
    assert p in {} + SetOf(c[..i]);
  }

  /** The walk does not stop at or before a folder with nothing but removable path folders beneath it. */
  lemma NotStopped(t: Tree, root: Path, parent: Path, faulty: set<Path>, d: Path)
    requires root < d <= parent && OnlyPathBelow(t, d, parent) && Sound(t, d, parent, faulty)
    ensures |Chain(t, root, parent, {}, faulty)| > |parent| - |d|
  {
    var c := Chain(t, root, parent, {}, faulty);
    ChainClimbs(t, root, parent, {}, faulty);
    hide Chain, EmptyInTurn, Entries, OnlyPathBelow;
    var next := parent[..|parent| - |c|];
    if |c| <= |parent| - |d| {
      EntriesOnPath(t, parent, d, c);
      assert {} + SetOf(c) == SetOf(c);
      assert Removable(t, root, next, {} + SetOf(c), faulty);
    }
    ChainMaximal(t, root, parent, {}, faulty);
  }

  /** A folder between d and the path's parent holds at most the folder removed just before it. */
  lemma EntriesOnPath(t: Tree, parent: Path, d: Path, c: seq<Path>)
    requires d <= parent && OnlyPathBelow(t, d, parent) && |c| <= |parent| - |d|
    requires forall i | 0 <= i < |c| :: c[i] == parent[..|parent| - i]
    ensures Entries(t, parent[..|parent| - |c|]) <= SetOf(c)
  {
    var next := parent[..|parent| - |c|];
    assert d <= next;
    forall p | p in Entries(t, next)
      ensures p in SetOf(c)
    {
      assert next < p && d < p;
      assert p == parent[..|p|] && |p| == |next| + 1;
      assert c[|c| - 1] == p;
    }
  }

  /** A sweep never takes the root or a file, and leaves a tree in which everything still lies in a directory. */
  lemma SweepKeepsTree(t: Tree, root: Path, target: Path, faulty: set<Path>)
    requires WellFormed(t) && root < target
    ensures forall p | p in t.files :: p !in Chain(t, root, Parent(target), {}, faulty)
    ensures root !in Chain(t, root, Parent(target), {}, faulty)
    ensures WellFormed(Without(t, SetOf(Chain(t, root, Parent(target), {}, faulty))))
  {
    var parent := Parent(target);
    var c := Chain(t, root, parent, {}, faulty);
    ChainClimbs(t, root, parent, {}, faulty);
    var t' := Without(t, SetOf(c));
    forall p | p in t.dirs + t.files && p != [] && Parent(p) in c
      ensures p in SetOf(c)
    {
      var i :| 0 <= i < |c| && c[i] == Parent(p);
      BelowRemoved(t, root, parent, faulty, i, p);
    }
  }

  /** When nothing is stuck, a dry run lists exactly what a live run would remove; otherwise it lists at least that. */
  lemma {:induction false} DryRunForetells(t: Tree, root: Path, current: Path, pruned: set<Path>, unreadable: set<Path>,
                                           stuck: set<Path>)
    ensures Chain(t, root, current, pruned, Faulty(false, unreadable, stuck))
            <= Chain(t, root, current, pruned, Faulty(true, unreadable, stuck))
    ensures Chain(t, root, current, pruned, Faulty(false, unreadable, stuck))
            == Chain(t, root, current, pruned, Faulty(true, unreadable, stuck))
            <==> forall d | d in Chain(t, root, current, pruned, Faulty(true, unreadable, stuck)) :: d !in stuck
    decreases |current|
  {
    var (live, dry) := (Faulty(false, unreadable, stuck), Faulty(true, unreadable, stuck));
    if Removable(t, root, current, pruned, dry) {
      DryRunForetells(t, root, Parent(current), pruned + {current}, unreadable, stuck);
      var rest := Chain(t, root, Parent(current), pruned + {current}, dry);
      assert Chain(t, root, current, pruned, dry) == [current] + rest;
      assert current in [current] + rest;
      assert forall d :: d in [current] + rest <==> d == current || d in rest;
    }
  }
}
