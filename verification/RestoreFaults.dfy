/**
  What the faults of a backup restore decide (core/inkdrop_backup_restore.py):
  when it is refused, where each target stands when a copy fails, and what the
  rollback then reports.  Every step that touches the files may fail, before or
  after its effect.
 */
module RestoreFaults {
  import opened Outcomes

  /** What a database holds; the generation is the state database's claim on an auth store. */
  datatype Content = Content(body: string, generation: string)

  /** A live file: missing, a database, or one SQLite calls corrupt. */
  datatype File = Absent | Database(content: Content) | Corrupt(bytes: string)

  /** SQLite reads a file of no bytes as a database of no tables. */
  const EMPTY := Content("", "")

  /** A step fails before it opens the file, then before its effect, or after it. */
  datatype Fault = NoFault | BeforeOpen | BeforeCommit | AfterCommit

  /** How the step at each tick of the restore's own clock turns out. */
  type Faults = nat -> Fault

  predicate Fails(f: Faults, clock: nat) { f(clock) != NoFault }

  /** The step at this tick has its effect. */
  predicate Commits(f: Faults, clock: nat) { f(clock) in {NoFault, AfterCommit} }

  // --------------------------------------------------------------------- refusal

  /** The idle probe of some database fails; corrupt and missing files are not held against the restore. */
  ghost predicate ProbeFails(before: seq<File>, f: Faults, clock: nat) {
    exists i :: 0 <= i < |before| && before[i].Database? && Fails(f, clock + i)
  }

  /** The snapshot of some existing file fails. */
  ghost predicate SnapshotFails(before: seq<File>, f: Faults, clock: nat) {
    exists i :: 0 <= i < |before| && !before[i].Absent? && Fails(f, clock + i)
  }

  /** All probes come first, then all snapshots. */
  ghost predicate Refuses(before: seq<File>, f: Faults, clock: nat) {
    ProbeFails(before, f, clock) || SnapshotFails(before, f, clock + |before|)
  }

  // ---------------------------------------------------------------------- copying

  /**
    Where a target stands: not reached, its unreadable file unlinked, a copy that
    gave up with the target opened or not, or a copy that committed.
   */
  datatype Place = Waiting | Unlinked | GaveUp(reached: bool) | Copied

  predicate Attempted(p: Place) { p.GaveUp? || p.Copied? }

  /** Where the targets stand, whether all went well, and the clock afterwards. */
  datatype Copying = Copying(places: seq<Place>, ok: bool, clock: nat)

  /** One target: an unreadable file is unlinked first, then the staged database is copied in. */
  function CopyOf(b: File, f: Faults, clock: nat): (Place, bool, nat) {
    if b.Corrupt? && Fails(f, clock) then (if Commits(f, clock) then Unlinked else Waiting, false, clock + 1)
    else
      var at := if b.Corrupt? then clock + 1 else clock;
      (if Commits(f, at) then Copied else GaveUp(f(at).BeforeCommit?), !Fails(f, at), at + 1)
  }

  /** The copy loop stops at the first target that fails. */
  function Copies(before: seq<File>, f: Faults, clock: nat): (c: Copying)
    ensures |c.places| == |before|
  {
    if before == [] then Copying([], true, clock)
    else
      var (place, ok, next) := CopyOf(before[0], f, clock);
      if !ok then Copying([place] + seq(|before| - 1, _ => Waiting), false, next)
      else
        var rest := Copies(before[1..], f, next);
        Copying([place] + rest.places, rest.ok, rest.clock)
  }

  lemma {:induction false} CopiedWell(before: seq<File>, f: Faults, clock: nat)
    requires Copies(before, f, clock).ok
    ensures forall i | 0 <= i < |before| :: Copies(before, f, clock).places[i].Copied?
  {
    if before != [] {
      CopiedWell(before[1..], f, CopyOf(before[0], f, clock).2);
    }
  }

  /** k of n targets copied and the rest waiting. */
  function Line(n: nat, k: nat): (p: seq<Place>)
    requires k <= n
    ensures |p| == n
  {
    seq(k, _ => Copied) + seq(n - k, _ => Waiting)
  }

  /** The attempted and the copied targets come first. */
  predicate Counts(places: seq<Place>, attempted: nat, committed: nat) {
    attempted <= |places| && committed <= |places|
    && forall i | 0 <= i < |places| ::
        (Attempted(places[i]) <==> i < attempted) && (places[i].Copied? <==> i < committed)
  }

  lemma LineNext(n: nat, i: nat, place: Place, next: seq<Place>)
    requires i < n && next == Line(n, i)[i := place]
    ensures place.Copied? ==> next == Line(n, i + 1)
    ensures Counts(next, if Attempted(place) then i + 1 else i, if place.Copied? then i + 1 else i)
  {
    assert forall k | 0 <= k < n :: next[k] == if k < i then Copied else if k == i then place else Waiting;
  }

  /** The loop has copied n targets and is at this tick. */
  ghost predicate Progress(before: seq<File>, f: Faults, start: nat, n: nat, clock: nat) {
    n <= |before|
    && var rest := Copies(before[n..], f, clock);
       Copies(before, f, start) == Copying(seq(n, _ => Copied) + rest.places, rest.ok, rest.clock)
  }

  lemma ProgressStarts(before: seq<File>, f: Faults, start: nat)
    ensures Progress(before, f, start, 0, start)
  {
    assert before[0..] == before;
    assert seq(0, _ => Copied) + Copies(before, f, start).places == Copies(before, f, start).places;
  }

  lemma ProgressNext(before: seq<File>, f: Faults, start: nat, n: nat, clock: nat)
    requires Progress(before, f, start, n, clock) && n < |before|
    ensures var (place, ok, next) := CopyOf(before[n], f, clock);
            if ok then place.Copied? && Progress(before, f, start, n + 1, next)
            else Copies(before, f, start) == Copying(Line(|before|, n)[n := place], false, next)
  {
    var (place, ok, next) := CopyOf(before[n], f, clock);
    assert before[n..][0] == before[n] && before[n..][1..] == before[n + 1..];
    if ok {
      assert seq(n, _ => Copied) + ([Copied] + Copies(before[n + 1..], f, next).places)
             == seq(n + 1, _ => Copied) + Copies(before[n + 1..], f, next).places;
    } else {
      assert seq(n, _ => Copied) + ([place] + seq(|before| - n - 1, _ => Waiting)) == Line(|before|, n)[n := place];
    }
  }

  lemma ProgressEnds(before: seq<File>, f: Faults, start: nat, clock: nat)
    requires Progress(before, f, start, |before|, clock)
    ensures Copies(before, f, start) == Copying(Line(|before|, |before|), true, clock)
            && Counts(Line(|before|, |before|), |before|, |before|)
  {
    assert before[|before|..] == [];
    assert seq(|before|, _ => Copied) + [] == Line(|before|, |before|);
  }

  // --------------------------------------------------------------------- rollback

  /** What the error report says about one attempted target. */
  datatype Outcome = Unchanged | RolledBack | NoSnapshot | NotAutomatic | RollbackFailed

  /** Only a copy that committed over a readable database is put back, by one more copy. */
  function RollOf(b: File, place: Place, f: Faults, clock: nat): (Option<Outcome>, nat) {
    if !Attempted(place) then (None, clock)
    else if b.Corrupt? then (Some(NotAutomatic), clock)
    else if place.GaveUp? then (Some(Unchanged), clock)
    else if b.Absent? then (Some(NoSnapshot), clock)
    else (Some(if Fails(f, clock) then RollbackFailed else RolledBack), clock + 1)
  }

  function Rolls(before: seq<File>, places: seq<Place>, f: Faults, clock: nat): (r: seq<Option<Outcome>>)
    requires |before| == |places|
    ensures |r| == |before|
  {
    if before == [] then []
    else
      var (outcome, next) := RollOf(before[0], places[0], f, clock);
      [outcome] + Rolls(before[1..], places[1..], f, next)
  }

  /** The rollback loop is at target i and at this tick. */
  ghost predicate Rolling(before: seq<File>, places: seq<Place>, f: Faults, start: nat, i: nat, clock: nat)
    requires |before| == |places|
  {
    i <= |before| && Rolls(before, places, f, start)[i..] == Rolls(before[i..], places[i..], f, clock)
  }

  lemma RollingStarts(before: seq<File>, places: seq<Place>, f: Faults, start: nat)
    requires |before| == |places|
    ensures Rolling(before, places, f, start, 0, start)
  {
    assert before[0..] == before && places[0..] == places;
    assert Rolls(before, places, f, start)[0..] == Rolls(before, places, f, start);
  }

  lemma RollingNext(before: seq<File>, places: seq<Place>, f: Faults, start: nat, i: nat, clock: nat)
    requires |before| == |places| && Rolling(before, places, f, start, i, clock) && i < |before|
    ensures var (outcome, next) := RollOf(before[i], places[i], f, clock);
            Rolls(before, places, f, start)[i] == outcome && Rolling(before, places, f, start, i + 1, next)
  {
    var rolls := Rolls(before, places, f, start);
    assert before[i..][0] == before[i] && before[i..][1..] == before[i + 1..];
    assert places[i..][0] == places[i] && places[i..][1..] == places[i + 1..];
    assert rolls[i..][0] == rolls[i] && rolls[i..][1..] == rolls[i + 1..];
  }

  lemma {:induction false} NoneRolled(before: seq<File>, places: seq<Place>, f: Faults, clock: nat)
    requires |before| == |places| && forall i | 0 <= i < |places| :: !Attempted(places[i])
    ensures forall i | 0 <= i < |before| :: Rolls(before, places, f, clock)[i].None?
  {
    if before != [] {
      NoneRolled(before[1..], places[1..], f, clock);
    }
  }

  /** Past the attempted targets there is nothing to roll back. */
  lemma RollingEnds(before: seq<File>, places: seq<Place>, f: Faults, start: nat, i: nat, clock: nat)
    requires |before| == |places| && Rolling(before, places, f, start, i, clock)
             && forall k | i <= k < |places| :: !Attempted(places[k])
    ensures forall k | i <= k < |before| :: Rolls(before, places, f, start)[k].None?
  {
    NoneRolled(before[i..], places[i..], f, clock);
    var rolls := Rolls(before, places, f, start);
    assert forall k | i <= k < |before| :: rolls[k] == rolls[i..][k - i];
  }

  // -------------------------------------------------- what a quiet failure leaves

  /** What a target holds after a failed restore without other writers, if its rollback copy did not fail. */
  function QuietLeft(b: File, archive: Content, place: Place, outcome: Option<Outcome>): File {
    if outcome == Some(RolledBack) then b
    else
      match place
      case Waiting => b
      case Unlinked => Absent
      case GaveUp(reached) => if b.Database? then b else if reached then Database(EMPTY) else Absent
      case Copied => Database(archive)
  }

  /** The restore fails, and every rollback copy it makes succeeds. */
  ghost predicate FailsCleanly(before: seq<File>, f: Faults, clock: nat) {
    var copying := Copies(before, f, clock + 2 * |before|);
    !Refuses(before, f, clock) && !copying.ok
    && forall i | 0 <= i < |before| :: Rolls(before, copying.places, f, copying.clock)[i] != Some(RollbackFailed)
  }

  /** A clean failure leaves every target as it was. */
  ghost predicate LeavesAll(before: seq<File>, archives: seq<Content>, f: Faults, clock: nat)
    requires |before| == |archives|
  {
    var copying := Copies(before, f, clock + 2 * |before|);
    forall i | 0 <= i < |before| ::
      QuietLeft(before[i], archives[i], copying.places[i], Rolls(before, copying.places, f, copying.clock)[i])
      == before[i]
  }

  /** Readable databases: the copy gave up and changed nothing, or it is put back. */
  lemma {:induction false} DatabasesLeft(before: seq<File>, places: seq<Place>, f: Faults, clock: nat, archive: Content,
                                         i: nat)
    requires |before| == |places| && i < |before| && before[i].Database? && places[i] != Unlinked
    requires Rolls(before, places, f, clock)[i] != Some(RollbackFailed)
    ensures QuietLeft(before[i], archive, places[i], Rolls(before, places, f, clock)[i]) == before[i]
  {
    if i > 0 {
      DatabasesLeft(before[1..], places[1..], f, RollOf(before[0], places[0], f, clock).1, archive, i - 1);
    }
  }

  lemma {:induction false} OnlyCorruptUnlinked(before: seq<File>, f: Faults, clock: nat, i: nat)
    requires i < |before|
    ensures Copies(before, f, clock).places[i].Unlinked? ==> before[i].Corrupt?
  {
    var (_, ok, next) := CopyOf(before[0], f, clock);
    if i > 0 && ok {
      OnlyCorruptUnlinked(before[1..], f, next, i - 1);
    }
  }

  /** One fault at one tick, with the file open and before its step has any effect. */
  function OnlyAt(n: nat): Faults { k => if k == n then BeforeCommit else NoFault }

  /** A fault in the copy of target i stops the loop there; the targets before it have been copied. */
  lemma {:induction false} GivesUpAt(before: seq<File>, clock: nat, i: nat) returns (n: nat)
    requires i < |before|
    ensures n >= clock && Copies(before, OnlyAt(n), clock).places[i] == GaveUp(true)
    ensures !Copies(before, OnlyAt(n), clock).ok && Copies(before, OnlyAt(n), clock).clock > n
  {
    var here := if before[0].Corrupt? then clock + 1 else clock;
    if i == 0 {
      n := here;
    } else {
      n := GivesUpAt(before[1..], here + 1, i - 1);
      assert CopyOf(before[0], OnlyAt(n), clock) == (Copied, true, here + 1);
    }
  }

  lemma {:induction false} RollsWell(before: seq<File>, places: seq<Place>, n: nat, clock: nat)
    requires |before| == |places| && clock > n
    ensures forall i | 0 <= i < |before| :: Rolls(before, places, OnlyAt(n), clock)[i] != Some(RollbackFailed)
  {
    if before != [] {
      RollsWell(before[1..], places[1..], n, RollOf(before[0], places[0], OnlyAt(n), clock).1);
    }
  }

  /** An attempted target that is no readable database is not put back. */
  lemma {:induction false} NeverPutBack(before: seq<File>, places: seq<Place>, f: Faults, clock: nat, i: nat)
    requires |before| == |places| && i < |before| && !before[i].Database?
    ensures Rolls(before, places, f, clock)[i] != Some(RolledBack)
  {
    if i > 0 {
      NeverPutBack(before[1..], places[1..], f, RollOf(before[0], places[0], f, clock).1, i - 1);
    }
  }

  /** A schedule that leaves a missing or corrupt target changed, with every rollback copy succeeding. */
  lemma LeavesChanged(before: seq<File>, archives: seq<Content>, clock: nat, i: nat) returns (f: Faults)
    requires |before| == |archives| && i < |before| && !before[i].Database?
    ensures FailsCleanly(before, f, clock) && !LeavesAll(before, archives, f, clock)
  {
    var start := clock + 2 * |before|;
    var n := GivesUpAt(before, start, i);
    f := OnlyAt(n);
    var copying := Copies(before, f, start);
    RollsWell(before, copying.places, n, copying.clock);
    NeverPutBack(before, copying.places, f, copying.clock, i);
    assert forall k: nat | Fails(f, k) :: k >= start;
    assert QuietLeft(before[i], archives[i], copying.places[i], Rolls(before, copying.places, f, copying.clock)[i])
           == Database(EMPTY);
  }

  /** One corrupt target, and one missing: a copy that gives up leaves an empty file in their place. */
  lemma CorruptAndMissingLost(archive: Content, bytes: string)
    ensures FailsCleanly([Corrupt(bytes)], OnlyAt(3), 0) && !LeavesAll([Corrupt(bytes)], [archive], OnlyAt(3), 0)
    ensures FailsCleanly([Absent], OnlyAt(2), 0) && !LeavesAll([Absent], [archive], OnlyAt(2), 0)
  {
    var (corrupt, missing) := (Copies([Corrupt(bytes)], OnlyAt(3), 2), Copies([Absent], OnlyAt(2), 2));
    assert corrupt.places == [GaveUp(true)] && corrupt.clock == 4;
    assert missing.places == [GaveUp(true)] && missing.clock == 3;
    RollsWell([Corrupt(bytes)], corrupt.places, 3, 4);
    RollsWell([Absent], missing.places, 2, 3);
    assert QuietLeft(Corrupt(bytes), archive, GaveUp(true), Rolls([Corrupt(bytes)], corrupt.places, OnlyAt(3), 4)[0])
           == Database(EMPTY);
    assert QuietLeft(Absent, archive, GaveUp(true), Rolls([Absent], missing.places, OnlyAt(2), 3)[0])
           == Database(EMPTY);
  }

  /**
    Without other writers, every failed restore whose rollback copies succeed
    leaves all targets as they were, for every schedule of faults, exactly when
    every target was a readable database before.
   */
  lemma AllOrNothingExactly(before: seq<File>, archives: seq<Content>, clock: nat)
    requires |before| == |archives|
    ensures (forall f: Faults :: FailsCleanly(before, f, clock) ==> LeavesAll(before, archives, f, clock))
            <==> forall i | 0 <= i < |before| :: before[i].Database?
  {
    if forall i | 0 <= i < |before| :: before[i].Database? {
      forall f: Faults | FailsCleanly(before, f, clock)
        ensures LeavesAll(before, archives, f, clock)
      {
        var copying := Copies(before, f, clock + 2 * |before|);
        forall i | 0 <= i < |before|
          ensures QuietLeft(before[i], archives[i], copying.places[i],
                            Rolls(before, copying.places, f, copying.clock)[i]) == before[i]
        {
          OnlyCorruptUnlinked(before, f, clock + 2 * |before|, i);
          DatabasesLeft(before, copying.places, f, copying.clock, archives[i], i);
        }
      }
    } else {
      var i :| 0 <= i < |before| && !before[i].Database?;
      var f := LeavesChanged(before, archives, clock, i);
    }
  }
}
