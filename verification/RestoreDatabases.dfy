/**
  The apply section of a backup restore (core/inkdrop_backup_restore.py): several
  databases are replaced one after another while other connections may write,
  and any step may fail.
 */
module RestoreDatabases {
  import opened Outcomes
  import opened RestoreFaults

  type Target = string

  // ------------------------------------------------------------------ histories

  /** A change of one live file, by another connection or by this restore. */
  datatype Change = Wrote(file: File) | Restored(file: File)

  function Now(initial: File, h: seq<Change>): File {
    if h == [] then initial else h[|h| - 1].file
  }

  /** What this restore did to the file last, if anything. */
  function LastRestore(h: seq<Change>): Option<File> {
    if h == [] then None
    else if h[|h| - 1].Restored? then Some(h[|h| - 1].file)
    else LastRestore(h[..|h| - 1])
  }

  /** Only other connections changed the file. */
  predicate WritersOnly(h: seq<Change>) {
    forall i | 0 <= i < |h| :: h[i].Wrote?
  }

  lemma {:induction false} UntouchedExactly(h: seq<Change>)
    ensures WritersOnly(h) <==> LastRestore(h).None?
  {
    if h != [] {
      UntouchedExactly(h[..|h| - 1]);
      assert h == h[..|h| - 1] + [h[|h| - 1]];
    }
  }

  lemma LastRestoreAfter(h: seq<Change>, c: Change)
    ensures LastRestore(h + [c]) == if c.Restored? then Some(c.file) else LastRestore(h)
    ensures Now(Absent, h + [c]) == c.file
  {
    assert (h + [c])[..|h|] == h;
  }

  /** f is what a file held after the first n changes, all made by others. */
  predicate Held(before: File, h: seq<Change>, n: nat, f: File) {
    n <= |h| && WritersOnly(h[..n]) && f == Now(before, h[..n])
  }

  lemma HeldLater(before: File, h: seq<Change>, c: Change, n: nat, f: File)
    requires Held(before, h, n, f)
    ensures Held(before, h + [c], n, f)
  {
    assert (h + [c])[..n] == h[..n];
  }

  /** With no other writer, a file holds what the restore last put there, or what it held before. */
  lemma {:induction false} QuietHistory(initial: File, h: seq<Change>)
    requires forall i | 0 <= i < |h| :: h[i].Restored?
    ensures Now(initial, h) == if LastRestore(h).Some? then LastRestore(h).value else initial
  {
  }

  // --------------------------------------------------------------- one target

  /** A file changes its kind only by this restore. */
  predicate SameKind(f: File, f': File) {
    (f.Database? <==> f'.Database?) && (!f.Database? ==> f' == f)
  }

  /**
    A target of the restore: the file before it began, the live file, everything
    that changed it, what this restore did to it last, and its snapshot with the
    length of the history when it was taken.
   */
  datatype Slot = Slot(before: File, live: File, history: seq<Change>, last: Option<File>, snapshot: Option<File>,
                       cut: nat)

  predicate Sound(s: Slot) {
    s.live == Now(s.before, s.history) && s.last == LastRestore(s.history)
    && (s.last.None? ==> SameKind(s.before, s.live))
    && (s.snapshot.Some? ==> Held(s.before, s.history, s.cut, s.snapshot.value) && SameKind(s.before, s.snapshot.value))
  }

  /** No other connection ever changed the file, nor was a snapshot anything but the file before. */
  predicate Calm(s: Slot) {
    (forall i | 0 <= i < |s.history| :: s.history[i].Restored?) && (s.snapshot.Some? ==> s.snapshot.value == s.before)
  }

  function Begin(f: File): (s: Slot)
    ensures Sound(s)
  {
    Slot(f, f, [], None, None, 0)
  }

  /** Another connection commits into the database, if it is one. */
  function Committed(s: Slot, write: Option<Content>): Slot {
    if s.live.Database? && write.Some?
    then s.(live := Database(write.value), history := s.history + [Wrote(Database(write.value))]) else s
  }

  /** This restore changes the file. */
  function Replaced(s: Slot, f: File): Slot {
    s.(live := f, history := s.history + [Restored(f)], last := Some(f))
  }

  /** The file is copied aside. */
  function Kept(s: Slot): Slot {
    s.(snapshot := Some(s.live), cut := |s.history|)
  }

  /** Nothing but commits of other connections separates two states of a target. */
  predicate OthersOnly(s: Slot, s': Slot) {
    s'.before == s.before && s'.last == s.last && s'.snapshot == s.snapshot && SameKind(s.live, s'.live)
  }

  lemma CommittedSound(s: Slot, write: Option<Content>)
    requires Sound(s)
    ensures Sound(Committed(s, write)) && OthersOnly(s, Committed(s, write))
    ensures Calm(s) && write.None? ==> Calm(Committed(s, write))
  {
    if s.live.Database? && write.Some? {
      var c := Wrote(Database(write.value));
      LastRestoreAfter(s.history, c);
      if s.snapshot.Some? {
        HeldLater(s.before, s.history, c, s.cut, s.snapshot.value);
      }
    }
  }

  lemma ReplacedSound(s: Slot, f: File)
    requires Sound(s)
    ensures Sound(Replaced(s, f)) && (Calm(s) ==> Calm(Replaced(s, f)))
  {
    LastRestoreAfter(s.history, Restored(f));
    if s.snapshot.Some? {
      HeldLater(s.before, s.history, Restored(f), s.cut, s.snapshot.value);
    }
  }

  lemma KeptSound(s: Slot)
    requires Sound(s) && s.last.None?
    ensures Sound(Kept(s)) && (Calm(s) ==> Calm(Kept(s)))
  {
    UntouchedExactly(s.history);
    assert s.history[..|s.history|] == s.history;
    if s.history != [] {
      assert s.history[0].Wrote?;
    }
  }

  /** Without other writers a target holds what the restore last put there, or what it held before. */
  lemma CalmContent(s: Slot)
    requires Sound(s) && Calm(s)
    ensures s.live == if s.last.Some? then s.last.value else s.before
    ensures s.snapshot.Some? ==> s.snapshot.value == s.before
  {
    QuietHistory(s.before, s.history);
  }

  // ------------------------------------------------------ stages of one target

  /** Not yet touched; kept tells whether its snapshot was due. */
  predicate Pristine(s: Slot, kept: bool) {
    s.last.None? && SameKind(s.before, s.live) && (s.snapshot.Some? <==> kept && !s.before.Absent?)
  }

  /** A target whose file existed has its snapshot. */
  predicate Backed(s: Slot) {
    s.snapshot.Some? <==> !s.before.Absent?
  }

  /** What this restore has done to a target, by where it stands. */
  predicate Standing(s: Slot, archive: Content, place: Place) {
    match place
    case Waiting => s.last.None?
    case Unlinked => s.before.Corrupt? && s.last == Some(Absent)
    case GaveUp(reached) =>
      s.last == if s.before.Database? then None
                else if reached then Some(Database(EMPTY))
                else if s.before.Corrupt? then Some(Absent)
                else None
    case Copied => s.live.Database? && s.last == Some(Database(archive))
  }

  /** What the report of a failed restore says about a target. */
  predicate Settled(s: Slot, archive: Content, place: Place, outcome: Option<Outcome>) {
    match outcome
    case Some(RolledBack) => s.before.Database? && s.snapshot.Some? && s.last == s.snapshot
    case Some(RollbackFailed) => s.before.Database? && s.snapshot.Some?
      && s.last in {Some(Database(archive)), s.snapshot}
    case _ => Standing(s, archive, place)
  }

  /** A restored state database drops its claim on an auth store it never met. */
  function Cleared(c: Content): Content { c.(generation := "") }

  /**
    What has become of a target when the restore reports success: the archive's
    content was put there last or, where the claim was dropped, last before that, and
    dropping it changed nothing else of what the database held by then.
   */
  predicate Landed(s: Slot, archive: Content, cleared: bool) {
    if cleared then
      s.history != []
      && var (h, c) := (s.history[..|s.history| - 1], s.history[|s.history| - 1]);
         LastRestore(h) == Some(Database(archive)) && c.Restored?
         && Now(s.before, h).Database? && c.file.Database?
         && c.file.content.body == Now(s.before, h).content.body && c.file.content.generation == ""
    else s.last == Some(Database(archive))
  }

  /** A database with the archive's rows and its claim, or none. */
  predicate Holds(f: File, archive: Content, cleared: bool) {
    f.Database? && f.content.body == archive.body
    && f.content.generation == if cleared then "" else archive.generation
  }

  /** Commits of other connections change no stage. */
  lemma OthersStay(s: Slot, s': Slot)
    requires OthersOnly(s, s')
    ensures forall kept: bool :: Pristine(s, kept) ==> Pristine(s', kept)
    ensures Backed(s) ==> Backed(s')
    ensures forall a: Content, p: Place :: Standing(s, a, p) ==> Standing(s', a, p)
    ensures forall a: Content, p: Place, o: Option<Outcome> :: Settled(s, a, p, o) ==> Settled(s', a, p, o)
  {
  }

  // --------------------------------------------------------------- all targets

  /** A database to restore and what the archive holds for it. */
  datatype Copy = Copy(target: Target, archive: Content)

  type Slots = map<Target, Slot>

  /** Distinct known targets. */
  predicate Planned(slots: Slots, copies: seq<Copy>) {
    (forall i | 0 <= i < |copies| :: copies[i].target in slots)
    && (forall i, j | 0 <= i < j < |copies| :: copies[i].target != copies[j].target)
  }

  /** Nothing of this restore has reached a target; the first kept have their snapshots. */
  predicate Untouched(slots: Slots, copies: seq<Copy>, kept: nat) {
    forall i | 0 <= i < |copies| :: copies[i].target in slots && Pristine(slots[copies[i].target], i < kept)
  }

  /** Every target that existed has its snapshot. */
  predicate AllBacked(slots: Slots, copies: seq<Copy>) {
    forall i | 0 <= i < |copies| :: copies[i].target in slots && Backed(slots[copies[i].target])
  }

  /** What each target held before the restore. */
  function Befores(slots: Slots, copies: seq<Copy>): (b: seq<File>)
    requires Planned(slots, copies)
    ensures |b| == |copies| && forall i | 0 <= i < |copies| :: b[i] == slots[copies[i].target].before
  {
    seq(|copies|, i requires 0 <= i < |copies| => slots[copies[i].target].before)
  }

  /** What each target holds now. */
  function Lives(slots: Slots, copies: seq<Copy>): (l: seq<File>)
    requires Planned(slots, copies)
    ensures |l| == |copies| && forall i | 0 <= i < |copies| :: l[i] == slots[copies[i].target].live
  {
    seq(|copies|, i requires 0 <= i < |copies| => slots[copies[i].target].live)
  }

  /** What the archive holds for each target. */
  function Archives(copies: seq<Copy>): (a: seq<Content>)
    ensures |a| == |copies| && forall i | 0 <= i < |copies| :: a[i] == copies[i].archive
  {
    seq(|copies|, i requires 0 <= i < |copies| => copies[i].archive)
  }

  /** Every target stands where the list says. */
  predicate Stand(slots: Slots, copies: seq<Copy>, places: seq<Place>) {
    |places| == |copies|
    && forall i | 0 <= i < |copies| ::
        copies[i].target in slots && Standing(slots[copies[i].target], copies[i].archive, places[i])
  }

  predicate Ahead(slots: Slots, copies: seq<Copy>, from: nat) {
    forall i | from <= i < |copies| :: copies[i].target in slots && Pristine(slots[copies[i].target], true)
  }

  /** Which targets SQLite calls corrupt. */
  function Unreadable(slots: Slots, copies: seq<Copy>, n: nat): set<Target>
    requires Planned(slots, copies) && n <= |copies|
  {
    set i | 0 <= i < n && slots[copies[i].target].before.Corrupt? :: copies[i].target
  }

  function OutcomeOf(outcome: map<Target, Outcome>, t: Target): Option<Outcome> {
    if t in outcome then Some(outcome[t]) else None
  }

  /** The rollback loop has dealt with the first done targets; the others stand where the copy loop left them. */
  predicate Dealt(slots: Slots, copies: seq<Copy>, places: seq<Place>, rolls: seq<Option<Outcome>>, done: nat,
                  outcome: map<Target, Outcome>) {
    |places| == |copies| == |rolls|
    && forall i | 0 <= i < |copies| :: copies[i].target in slots
         && OutcomeOf(outcome, copies[i].target) == (if i < done then rolls[i] else None)
         && if i < done then Settled(slots[copies[i].target], copies[i].archive, places[i], rolls[i])
            else Standing(slots[copies[i].target], copies[i].archive, places[i])
  }

  /** Same targets, and what each held before. */
  predicate SameTargets(was: Slots, slots: Slots) {
    slots.Keys == was.Keys && forall t | t in slots :: slots[t].before == was[t].before
  }

  /** Apart from target, only other connections changed anything. */
  predicate OthersKept(was: Slots, slots: Slots, target: Target) {
    slots.Keys == was.Keys && target in slots && slots[target].before == was[target].before
    && forall t | t in slots && t != target :: OthersOnly(was[t], slots[t])
  }

  lemma KeptBefore(was: Slots, slots: Slots, target: Target)
    requires OthersKept(was, slots, target)
    ensures SameTargets(was, slots)
    ensures forall t | t in slots && t != target :: OthersOnly(was[t], slots[t])
  {
  }

  /** Other connections neither take a snapshot away nor touch what was untouched. */
  lemma BackedStays(was: Slots, slots: Slots, target: Target, copies: seq<Copy>)
    requires OthersKept(was, slots, target) && OthersOnly(was[target], slots[target]) && AllBacked(was, copies)
    ensures AllBacked(slots, copies)
  {
    hide Backed, OthersOnly;
    forall i | 0 <= i < |copies|
      ensures copies[i].target in slots && Backed(slots[copies[i].target])
    {
      OthersStay(was[copies[i].target], slots[copies[i].target]);
    }
  }

  lemma UntouchedStays(was: Slots, slots: Slots, target: Target, copies: seq<Copy>, kept: nat)
    requires OthersKept(was, slots, target) && OthersOnly(was[target], slots[target]) && Untouched(was, copies, kept)
    ensures Untouched(slots, copies, kept) && SameTargets(was, slots)
  {
    hide Pristine, OthersOnly;
    KeptBefore(was, slots, target);
    forall i | 0 <= i < |copies|
      ensures copies[i].target in slots && Pristine(slots[copies[i].target], i < kept)
    {
      OthersStay(was[copies[i].target], slots[copies[i].target]);
    }
  }

  /** A pristine target is corrupt now exactly when it was before the restore. */
  lemma NextUnreadable(was: Slots, slots: Slots, copies: seq<Copy>, i: nat)
    requires Planned(was, copies) && Untouched(slots, copies, 0) && SameTargets(was, slots) && i < |copies|
    ensures Planned(slots, copies)
    ensures Unreadable(slots, copies, i + 1) == Unreadable(was, copies, i) + if slots[copies[i].target].live.Corrupt?
          then {copies[i].target} else {}
  {
    var s := slots[copies[i].target];
    assert Pristine(s, false);
    assert s.live.Corrupt? <==> s.before.Corrupt?;
    assert forall j | 0 <= j < i :: slots[copies[j].target].before == was[copies[j].target].before;
  }

  lemma PristineKept(s: Slot)
    requires Pristine(s, false)
    ensures Pristine(if s.live.Absent? then s else Kept(s), true) && Kept(s).before == s.before
  {
  }

  lemma OthersKeptTwice(s0: Slots, s1: Slots, s2: Slots, target: Target)
    requires OthersKept(s0, s1, target) && OthersKept(s1, s2, target)
    ensures OthersKept(s0, s2, target)
  {
  }

  lemma BackedPut(slots: Slots, target: Target, f: File, copies: seq<Copy>)
    requires target in slots && AllBacked(slots, copies)
    ensures AllBacked(slots[target := Replaced(slots[target], f)], copies)
  {
  }

  lemma UnreadableMember(slots: Slots, copies: seq<Copy>, i: nat)
    requires Planned(slots, copies) && i < |copies|
    ensures copies[i].target in Unreadable(slots, copies, |copies|) <==> slots[copies[i].target].before.Corrupt?
  {
  }

  lemma UnreadableSame(was: Slots, slots: Slots, copies: seq<Copy>)
    requires Planned(was, copies) && SameTargets(was, slots)
    ensures Planned(slots, copies) && Unreadable(slots, copies, |copies|) == Unreadable(was, copies, |copies|)
  {
    assert forall j | 0 <= j < |copies| :: slots[copies[j].target].before == was[copies[j].target].before;
  }

  lemma BeforeCopying(slots: Slots, copies: seq<Copy>)
    requires Untouched(slots, copies, |copies|)
    ensures AllBacked(slots, copies) && Stand(slots, copies, Line(|copies|, 0)) && Ahead(slots, copies, 0)
  {
  }

  lemma StandNext(was: Slots, slots: Slots, copies: seq<Copy>, places: seq<Place>, n: nat, place: Place)
    requires Planned(was, copies) && n < |copies|
    requires AllBacked(was, copies) && Stand(was, copies, places) && Ahead(was, copies, n)
    requires OthersKept(was, slots, copies[n].target)
             && slots[copies[n].target].snapshot == was[copies[n].target].snapshot
    requires Standing(slots[copies[n].target], copies[n].archive, place)
    ensures Planned(slots, copies) && AllBacked(slots, copies) && SameTargets(was, slots)
    ensures Stand(slots, copies, places[n := place]) && Ahead(slots, copies, n + 1)
  {
    hide Standing, Pristine, OthersOnly;
    KeptBefore(was, slots, copies[n].target);
    forall i | 0 <= i < |copies|
      ensures i != n ==> copies[i].target in slots && OthersOnly(was[copies[i].target], slots[copies[i].target])
      ensures i != n ==> Standing(slots[copies[i].target], copies[i].archive, places[i])
      ensures i > n ==> Pristine(slots[copies[i].target], true)
      ensures Backed(slots[copies[i].target])
    {
      if i != n {
        OthersStay(was[copies[i].target], slots[copies[i].target]);
      }
    }
  }

  lemma OthersNone(slots: Slots, target: Target)
    requires target in slots
    ensures OthersKept(slots, slots, target)
  {
  }

  lemma SnapshotReadable(s: Slot)
    requires Sound(s) && Backed(s) && s.snapshot.Some? && !s.before.Corrupt?
    ensures s.before.Database? && s.snapshot.value.Database?
  {
  }

  lemma BeforeDealing(slots: Slots, copies: seq<Copy>, places: seq<Place>, rolls: seq<Option<Outcome>>)
    requires Stand(slots, copies, places) && |rolls| == |copies|
    ensures Dealt(slots, copies, places, rolls, 0, map[])
  {
    hide Standing, Settled;
  }

  lemma NextToDeal(slots: Slots, copies: seq<Copy>, places: seq<Place>, rolls: seq<Option<Outcome>>, i: nat,
                   outcome: map<Target, Outcome>)
    requires Dealt(slots, copies, places, rolls, i, outcome) && i < |copies| && AllBacked(slots, copies)
    ensures copies[i].target in slots && Backed(slots[copies[i].target])
    ensures Standing(slots[copies[i].target], copies[i].archive, places[i])
  {
    hide Standing, Settled;
  }

  lemma DealtNext(was: Slots, slots: Slots, copies: seq<Copy>, places: seq<Place>, rolls: seq<Option<Outcome>>, n: nat,
                  outcome: map<Target, Outcome>, result: Outcome)
    requires Planned(was, copies) && n < |copies|
    requires AllBacked(was, copies) && Dealt(was, copies, places, rolls, n, outcome) && rolls[n] == Some(result)
    requires OthersKept(was, slots, copies[n].target)
             && slots[copies[n].target].snapshot == was[copies[n].target].snapshot
    requires Settled(slots[copies[n].target], copies[n].archive, places[n], Some(result))
    ensures Planned(slots, copies) && AllBacked(slots, copies) && SameTargets(was, slots)
    ensures Dealt(slots, copies, places, rolls, n + 1, outcome[copies[n].target := result])
  {
    hide Standing, Settled, OthersOnly;
    KeptBefore(was, slots, copies[n].target);
    forall i | 0 <= i < |copies|
      ensures i != n ==> copies[i].target in slots && copies[i].target != copies[n].target
      ensures i < n ==> Settled(slots[copies[i].target], copies[i].archive, places[i], rolls[i])
      ensures n < i ==> Standing(slots[copies[i].target], copies[i].archive, places[i])
      ensures Backed(slots[copies[i].target])
    {
      if i != n {
        OthersStay(was[copies[i].target], slots[copies[i].target]);
      }
    }
  }

  /** Targets past the attempted ones have no outcome and stand as they stood. */
  lemma RestUnattempted(slots: Slots, copies: seq<Copy>, places: seq<Place>, rolls: seq<Option<Outcome>>, n: nat,
                        outcome: map<Target, Outcome>)
    requires Dealt(slots, copies, places, rolls, n, outcome) && n <= |copies|
             && forall i | n <= i < |copies| :: rolls[i].None?
    ensures Dealt(slots, copies, places, rolls, |copies|, outcome)
  {
    hide Standing;
  }

  lemma StandingLive(s: Slot, s': Slot, archive: Content)
    requires OthersOnly(s, s') && Standing(s, archive, Copied)
    ensures Standing(s', archive, Copied) && s'.live.Database? && Landed(s', archive, false)
  {
  }

  lemma ClearedLands(s: Slot, archive: Content)
    requires Sound(s) && Standing(s, archive, Copied)
    ensures s.live.Database? && Landed(Replaced(s, Database(Cleared(s.live.content))), archive, true)
  {
    var s' := Replaced(s, Database(Cleared(s.live.content)));
    assert s'.history[..|s'.history| - 1] == s.history;
  }

  lemma SameTwice(s0: Slots, s1: Slots, s2: Slots)
    requires SameTargets(s0, s1) && SameTargets(s1, s2)
    ensures SameTargets(s0, s2)
  {
  }

  lemma SameBefores(s0: Slots, s1: Slots, copies: seq<Copy>)
    requires SameTargets(s0, s1) && Planned(s0, copies)
    ensures Planned(s1, copies) && Befores(s1, copies) == Befores(s0, copies)
  {
  }

  lemma NothingReached(slots: Slots, copies: seq<Copy>, kept: nat)
    requires Untouched(slots, copies, kept)
    ensures forall i | 0 <= i < |copies| :: copies[i].target in slots && slots[copies[i].target].last.None?
  {
  }

  lemma AllCopied(slots: Slots, copies: seq<Copy>, places: seq<Place>)
    requires Stand(slots, copies, places) && forall i | 0 <= i < |copies| :: places[i].Copied?
    ensures forall i | 0 <= i < |copies| :: copies[i].target in slots
              && Standing(slots[copies[i].target], copies[i].archive, Copied)
              && Landed(slots[copies[i].target], copies[i].archive, false)
  {
  }

  lemma ClearedAll(was: Slots, slots: Slots, copies: seq<Copy>, places: seq<Place>, cleared: bool)
    requires Planned(was, copies) && Stand(was, copies, places) && |copies| > 0
             && forall i | 0 <= i < |copies| :: places[i].Copied?
    requires OthersKept(was, slots, copies[0].target) && Landed(slots[copies[0].target], copies[0].archive, cleared)
    ensures Planned(slots, copies)
    ensures forall i | 0 <= i < |copies| :: Landed(slots[copies[i].target], copies[i].archive, cleared && i == 0)
  {
    hide OthersOnly, Landed;
    KeptBefore(was, slots, copies[0].target);
    forall i | 0 < i < |copies|
      ensures Landed(slots[copies[i].target], copies[i].archive, false)
    {
      var (s, s') := (was[copies[i].target], slots[copies[i].target]);
      LandedStays(s, s', copies[i].archive);
    }
  }

  lemma LandedStays(s: Slot, s': Slot, archive: Content)
    requires OthersOnly(s, s') && Standing(s, archive, Copied)
    ensures Landed(s', archive, false)
  {
  }

  // ------------------------------------------------------- what a report means

  /**
    After a failed restore, a readable database either saw only other
    connections' commits, or was last set back to what it held at one moment
    before this restore reached it; only a failed rollback copy leaves it else.
   */
  lemma FailureKeepsReadable(s: Slot, archive: Content, place: Place, outcome: Option<Outcome>)
    requires Sound(s) && Settled(s, archive, place, outcome) && s.before.Database? && outcome != Some(RollbackFailed)
    requires place.Copied? ==> outcome.Some? && outcome.value.RolledBack?
    ensures outcome != Some(RolledBack) ==> WritersOnly(s.history)
    ensures outcome == Some(RolledBack) ==> s.last.Some? && Held(s.before, s.history, s.cut, s.last.value)
    ensures Calm(s) ==> s.live == s.before
  {
    UntouchedExactly(s.history);
    if Calm(s) {
      CalmContent(s);
    }
  }

  /** Without other writers, a failed restore leaves a target holding what its place and outcome say. */
  lemma QuietFailure(s: Slot, archive: Content, place: Place, outcome: Option<Outcome>)
    requires Sound(s) && Calm(s) && Settled(s, archive, place, outcome) && outcome != Some(RollbackFailed)
    ensures s.live == QuietLeft(s.before, archive, place, outcome)
  {
    CalmContent(s);
  }

  /** Without other writers, the files a failed restore leaves are the ones its places and outcomes say. */
  lemma QuietlyDealt(slots: Slots, copies: seq<Copy>, places: seq<Place>, rolls: seq<Option<Outcome>>,
                     outcome: map<Target, Outcome>, i: nat)
    requires Planned(slots, copies) && Dealt(slots, copies, places, rolls, |copies|, outcome) && i < |copies|
    requires Sound(slots[copies[i].target]) && Calm(slots[copies[i].target]) && rolls[i] != Some(RollbackFailed)
    ensures Lives(slots, copies)[i] == QuietLeft(Befores(slots, copies)[i], copies[i].archive, places[i], rolls[i])
  {
    hide Sound, Calm, Settled, Standing, QuietLeft;
    QuietFailure(slots[copies[i].target], copies[i].archive, places[i], rolls[i]);
  }

  /** They are the files from before exactly when every target's place and outcome leave it as it was. */
  lemma QuietlyFailed(slots: Slots, copies: seq<Copy>, f: Faults, start: nat, outcome: map<Target, Outcome>)
    requires Planned(slots, copies) && FailsCleanly(Befores(slots, copies), f, start)
    requires var before := Befores(slots, copies);
             var copying := Copies(before, f, start + 2 * |before|);
             Dealt(slots, copies, copying.places, Rolls(before, copying.places, f, copying.clock), |copies|, outcome)
    requires forall t | t in slots :: Sound(slots[t]) && Calm(slots[t])
    ensures Lives(slots, copies) == Befores(slots, copies)
            <==> LeavesAll(Befores(slots, copies), Archives(copies), f, start)
  {
    hide Sound, Calm, Dealt, Refuses, QuietLeft;
    var before := Befores(slots, copies);
    var copying := Copies(before, f, start + 2 * |before|);
    var rolls := Rolls(before, copying.places, f, copying.clock);
    forall i | 0 <= i < |copies|
      ensures Lives(slots, copies)[i] == QuietLeft(before[i], Archives(copies)[i], copying.places[i], rolls[i])
    {
      QuietlyDealt(slots, copies, copying.places, rolls, outcome, i);
    }
  }

  /** Without other writers, success leaves the archive's rows, and its generation exactly where it was not cleared. */
  lemma SuccessHoldsArchive(s: Slot, archive: Content, cleared: bool)
    requires Sound(s) && Calm(s) && Landed(s, archive, cleared)
    ensures Holds(s.live, archive, cleared)
  {
    CalmContent(s);
    if cleared {
      QuietHistory(s.before, s.history[..|s.history| - 1]);
    }
  }

  lemma QuietlyApplied(slots: Slots, copies: seq<Copy>, cleared: bool)
    requires Planned(slots, copies) && forall t | t in slots :: Sound(slots[t]) && Calm(slots[t])
    requires forall i | 0 <= i < |copies| :: Landed(slots[copies[i].target], copies[i].archive, cleared && i == 0)
    ensures forall i | 0 <= i < |copies| :: Holds(Lives(slots, copies)[i], copies[i].archive, cleared && i == 0)
  {
    hide Sound, Calm, Landed, Holds;
    forall i | 0 <= i < |copies|
      ensures Holds(Lives(slots, copies)[i], copies[i].archive, cleared && i == 0)
    {
      SuccessHoldsArchive(slots[copies[i].target], copies[i].archive, cleared && i == 0);
    }
  }

  lemma PristineKind(s: Slot, kept: bool)
    requires Pristine(s, kept)
    ensures (s.live.Corrupt? <==> s.before.Corrupt?) && (s.live.Absent? <==> s.before.Absent?)
            && (s.live.Database? <==> s.before.Database?)
  {
  }

  // --------------------------------------------------------------- environment

  /** What happens around one step: commits of other connections, and whether the step fails. */
  datatype Weather = Weather(writes: map<Target, Content>, fault: Fault)

  function WriteTo(w: Weather, t: Target): Option<Content> {
    if t in w.writes then Some(w.writes[t]) else None
  }

  datatype Report =
    | Refused                                  // nothing was changed
    | Failed(outcome: map<Target, Outcome>)    // a copy failed; what became of each attempted target
    | Applied

  class Restore {
    var slots: Slots
    var clock: nat
    const weather: nat -> Weather

    constructor (live: map<Target, File>, weather: nat -> Weather)
      ensures Valid() && this.weather == weather && clock == 0
      ensures slots == map t | t in live :: Begin(live[t])
    {
      slots := map t | t in live :: Begin(live[t]);
      this.weather, clock := weather, 0;
    }

    /** No other connection writes while the restore runs. */
    ghost predicate Quiet()
    {
      forall n :: weather(n).writes == map[]
    }

    /** How each step turns out. */
    function Course(): Faults
    {
      (n: nat) => weather(n).fault
    }

    ghost predicate Valid()
      reads this
    {
      forall t | t in slots :: Sound(slots[t]) && (Quiet() ==> Calm(slots[t]))
    }

    lemma AllCalm()
      requires Valid() && Quiet()
      ensures forall t | t in slots :: Sound(slots[t]) && Calm(slots[t])
    {
    }

    /** Other connections commit into databases they have open; then this step learns its fate. */
    method Step(ghost target: Target) returns (fault: Fault)
      requires Valid() && target in slots
      modifies this
      ensures Valid() && fault == Course()(old(clock)) && clock == old(clock) + 1
              && OthersKept(old(slots), slots, target)
      ensures OthersOnly(old(slots)[target], slots[target])
    {
      hide Sound, Committed, OthersOnly, Calm;
      var w := weather(clock);
      forall t | t in slots
        ensures Sound(Committed(slots[t], WriteTo(w, t))) && OthersOnly(slots[t], Committed(slots[t], WriteTo(w, t)))
        ensures Quiet() ==> Calm(Committed(slots[t], WriteTo(w, t)))
        ensures Committed(slots[t], WriteTo(w, t)).before == slots[t].before
      {
        CommittedSound(slots[t], WriteTo(w, t));
        CommittedBefore(slots[t], WriteTo(w, t));
      }
      slots := map t | t in slots :: Committed(slots[t], WriteTo(w, t));
      clock := clock + 1;
      fault := w.fault;
    }

    /** This restore changes one live file, never before every target's snapshot exists. */
    method Put(target: Target, f: File, ghost copies: seq<Copy>)
      requires Valid() && target in slots && AllBacked(slots, copies)
      modifies this`slots
      ensures Valid() && slots == old(slots)[target := Replaced(old(slots)[target], f)]
    {
      hide Sound, Calm;
      ReplacedSound(slots[target], f);
      slots := slots[target := Replaced(slots[target], f)];
    }

    /** _copy_database_into: committed tells whether on_commit was called. */
    method CopyInto(source: Content, target: Target, ghost copies: seq<Copy>) returns (ok: bool, committed: bool)
      requires Valid() && target in slots && AllBacked(slots, copies)
      modifies this
      ensures Valid() && OthersKept(old(slots), slots, target) && clock == old(clock) + 1
      ensures (ok <==> !Fails(Course(), old(clock))) && (committed <==> Commits(Course(), old(clock)))
      ensures var (s, s') := (old(slots)[target], slots[target]);
              s'.before == s.before && s'.snapshot == s.snapshot
              && if committed then s'.live.Database? && s'.last == Some(Database(source))
                 else s'.last == if s.live.Absent? && Course()(old(clock)).BeforeCommit? then Some(Database(EMPTY))
                                 else s.last
    {
      hide Sound, Calm, Backed;
      var fault := Step(target);
      BackedStays(old(slots), slots, target, copies);
      if fault.BeforeOpen? {
        return false, false;
      }
      if fault.BeforeCommit? {
        if slots[target].live.Absent? {
          Put(target, Database(EMPTY), copies);
        }
        return false, false;
      }
      Put(target, Database(source), copies);
      ok, committed := fault.NoFault?, true;
    }

    // ---------------------------------------------------------- the apply section

    /**
      _require_databases_idle: which targets SQLite cannot read, or a refusal exactly when a
      probe of a database fails.
     */
    method RequireDatabasesIdle(copies: seq<Copy>) returns (idle: bool, unreadable: set<Target>)
      requires Valid() && Planned(slots, copies) && Untouched(slots, copies, 0)
      modifies this
      ensures Valid() && Planned(slots, copies) && Untouched(slots, copies, 0) && SameTargets(old(slots), slots)
      ensures idle <==> !ProbeFails(Befores(slots, copies), Course(), old(clock))
      ensures idle ==> unreadable == Unreadable(slots, copies, |copies|) && clock == old(clock) + |copies|
    {
      hide Sound, Calm, Pristine, OthersOnly, OthersKept, SameKind, Course;
      unreadable := {};
      for i := 0 to |copies|
        invariant Valid() && Planned(slots, copies) && Untouched(slots, copies, 0) && SameTargets(old(slots), slots)
        invariant unreadable == Unreadable(slots, copies, i) && clock == old(clock) + i
        invariant forall j | 0 <= j < i :: !(Befores(slots, copies)[j].Database? && Fails(Course(), old(clock) + j))
      {
        ghost var was := slots;
        var target := copies[i].target;
        var fault := Step(target);
        UntouchedStays(was, slots, target, copies, 0);
        SameBefores(was, slots, copies);
        PristineKind(slots[target], false);
        var live := slots[target].live;
        if live.Corrupt? {
          unreadable := unreadable + {target};
        } else if !live.Absent? && !fault.NoFault? {
          assert Befores(slots, copies)[i].Database?;
          return false, unreadable;
        }
        NextUnreadable(was, slots, copies, i);
      }
      idle := true;
    }

    /** _snapshot_existing_file for one target: fails exactly when there is a file and the step fails. */
    method SnapshotOne(copies: seq<Copy>, i: nat) returns (ok: bool)
      requires Valid() && Planned(slots, copies) && i < |copies| && Untouched(slots, copies, i)
      modifies this
      ensures Valid() && Planned(slots, copies) && SameTargets(old(slots), slots) && clock == old(clock) + 1
      ensures ok <==> old(slots)[copies[i].target].before.Absent? || !Fails(Course(), old(clock))
      ensures Untouched(slots, copies, if ok then i + 1 else i)
    {
      hide Sound, Calm, Pristine, OthersOnly, OthersKept, SameKind;
      ghost var was := slots;
      var target := copies[i].target;
      var fault := Step(target);
      UntouchedStays(was, slots, target, copies, i);
      PristineKind(slots[target], false);
      if !slots[target].live.Absent? && !fault.NoFault? {
        return false;
      }
      PristineKept(slots[target]);
      assert Pristine(slots[target], false);
      if !slots[target].live.Absent? {
        KeptSound(slots[target]);
        slots := slots[target := Kept(slots[target])];
      }
      ok := true;
      assert forall j | 0 <= j < |copies| && j != i :: copies[j].target != target;
    }

    /**
      All snapshots are taken before the copy loop starts, or one of an existing file fails
      and no live file was changed.
     */
    method SnapshotTargets(copies: seq<Copy>) returns (ok: bool, ghost kept: nat)
      requires Valid() && Planned(slots, copies) && Untouched(slots, copies, 0)
      modifies this
      ensures Valid() && Planned(slots, copies) && SameTargets(old(slots), slots)
      ensures Untouched(slots, copies, kept) && (ok ==> kept == |copies| && clock == old(clock) + |copies|)
      ensures ok <==> !SnapshotFails(Befores(slots, copies), Course(), old(clock))
    {
      hide Sound, Calm, Pristine, Course;
      ok, kept := true, 0;
      var i := 0;
      while ok && i < |copies|
        invariant i <= |copies| && (ok ==> kept == i && clock == old(clock) + i)
        invariant Valid() && Planned(slots, copies) && SameTargets(old(slots), slots) && Untouched(slots, copies, kept)
        invariant forall j | 0 <= j < (if ok then i else i - 1) ::
            Befores(slots, copies)[j].Absent? || !Fails(Course(), old(clock) + j)
        invariant !ok ==> i > 0 && !Befores(slots, copies)[i - 1].Absent? && Fails(Course(), old(clock) + i - 1)
      {
        ghost var was := slots;
        ok := SnapshotOne(copies, i);
        SameTwice(old(slots), was, slots);
        SameBefores(was, slots, copies);
        i := i + 1;
        kept := if ok then i else i - 1;
      }
    }

    /** Unlink an unreadable file, then copy one staged database over its target. */
    method CopyOne(copy: Copy, unreadable: bool, ghost copies: seq<Copy>)
      returns (ok: bool, attempted: bool, committed: bool)
      requires Valid() && AllBacked(slots, copies) && copy.target in slots
      requires Pristine(slots[copy.target], true) && (unreadable <==> slots[copy.target].before.Corrupt?)
      modifies this
      ensures Valid() && OthersKept(old(slots), slots, copy.target)
      ensures slots[copy.target].snapshot == old(slots)[copy.target].snapshot
      ensures var (place, well, next) := CopyOf(old(slots)[copy.target].before, Course(), old(clock));
              ok == well && clock == next && attempted == Attempted(place) && committed == place.Copied?
              && Standing(slots[copy.target], copy.archive, place)
    {
      hide Sound, Calm, Course;
      attempted, committed := false, false;
      PristineKind(slots[copy.target], true);
      if unreadable {
        ok := Unlink(copy.target, copies);
        if !ok { return; }
      }
      attempted := true;
      ghost var was := slots;
      ok, committed := CopyInto(copy.archive, copy.target, copies);
      OthersKeptTwice(old(slots), was, slots, copy.target);
    }

    /** Remove an unreadable file and its journal files; the main file goes first. */
    method Unlink(target: Target, ghost copies: seq<Copy>) returns (ok: bool)
      requires Valid() && AllBacked(slots, copies) && target in slots && Pristine(slots[target], true)
      modifies this
      ensures Valid() && OthersKept(old(slots), slots, target) && AllBacked(slots, copies) && clock == old(clock) + 1
      ensures ok <==> !Fails(Course(), old(clock))
      ensures var (s, s') := (old(slots)[target], slots[target]);
              s'.before == s.before && s'.snapshot == s.snapshot
              && if Commits(Course(), old(clock)) then s'.last == Some(Absent) && s'.live.Absent? else s'.last.None?
    {
      hide Sound, Calm, AllBacked, SameKind;
      var fault := Step(target);
      BackedStays(old(slots), slots, target, copies);
      if !fault.NoFault? && !fault.AfterCommit? {
        return false;
      }
      ghost var was := slots;
      Put(target, Absent, copies);
      BackedPut(was, target, Absent, copies);
      ok := fault.NoFault?;
    }

    /** Copy the staged databases over their targets, one after another, until one fails. */
    method CopyAll(copies: seq<Copy>, unreadable: set<Target>) returns (ok: bool, attempted: nat, committed: nat)
      requires Valid() && Planned(slots, copies) && Untouched(slots, copies, |copies|)
      requires unreadable == Unreadable(slots, copies, |copies|)
      modifies this
      ensures Valid() && AllBacked(slots, copies) && Planned(slots, copies) && SameTargets(old(slots), slots)
      ensures var copying := Copies(Befores(slots, copies), Course(), old(clock));
              ok == copying.ok && clock == copying.clock && Stand(slots, copies, copying.places)
              && Counts(copying.places, attempted, committed)
    {
      hide Sound, Calm, Pristine, OthersOnly, OthersKept, SameKind, Standing, Backed, Course, Copies, CopyOf;
      hide Progress, Line, Counts, Befores, Stand;
      attempted, committed, ok := 0, 0, true;
      ghost var before := Befores(slots, copies);
      ghost var places := Line(|copies|, 0);
      BeforeCopying(slots, copies);
      ProgressStarts(before, Course(), clock);
      while ok && attempted < |copies|
        invariant Valid() && AllBacked(slots, copies) && Planned(slots, copies) && SameTargets(old(slots), slots)
        invariant before == Befores(slots, copies) && Stand(slots, copies, places)
        invariant ok ==> attempted == committed <= |copies| && Ahead(slots, copies, attempted)
                         && places == Line(|copies|, attempted)
                         && Progress(before, Course(), old(clock), attempted, clock)
        invariant !ok ==> Copies(before, Course(), old(clock)) == Copying(places, false, clock)
                          && Counts(places, attempted, committed)
        decreases ok, |copies| - attempted
      {
        ghost var was := slots;
        ghost var n := attempted;
        ghost var at := clock;
        var copy := copies[attempted];
        UnreadableMember(slots, copies, attempted);
        UnreadableSame(old(slots), slots, copies);
        AheadNext(slots, copies, attempted);
        var done, tried, landed := CopyOne(copy, copy.target in unreadable, copies);
        ghost var place := CopyOf(before[n], Course(), at).0;
        StandNext(was, slots, copies, places, n, place);
        SameTwice(old(slots), was, slots);
        SameBefores(was, slots, copies);
        ProgressNext(before, Course(), old(clock), n, at);
        places := places[n := place];
        LineNext(|copies|, n, place, places);
        committed := if landed then committed + 1 else committed;
        attempted := if tried then attempted + 1 else attempted;
        ok := done;
      }
      if ok {
        ProgressEnds(before, Course(), old(clock), clock);
      }
    }

    /** What the error handler does for one attempted target. */
    method RollBackOne(copy: Copy, unreadable: bool, committed: bool, ghost place: Place, ghost copies: seq<Copy>)
      returns (outcome: Outcome)
      requires Valid() && AllBacked(slots, copies) && copy.target in slots && Backed(slots[copy.target])
      requires Standing(slots[copy.target], copy.archive, place) && Attempted(place) && committed == place.Copied?
      requires unreadable <==> slots[copy.target].before.Corrupt?
      modifies this
      ensures Valid() && OthersKept(old(slots), slots, copy.target)
              && slots[copy.target].snapshot == old(slots)[copy.target].snapshot
      ensures (Some(outcome), clock) == RollOf(old(slots)[copy.target].before, place, Course(), old(clock))
      ensures Settled(slots[copy.target], copy.archive, place, Some(outcome))
    {
      hide Calm, OthersOnly, AllBacked, Course;
      OthersNone(slots, copy.target);
      if unreadable {
        return NotAutomatic;
      }
      if !committed {
        return Unchanged;
      }
      if slots[copy.target].snapshot.None? {
        return NoSnapshot;
      }
      SnapshotReadable(slots[copy.target]);
      hide *;
      var ok, _ := CopyInto(slots[copy.target].snapshot.value.content, copy.target, copies);
      outcome := if ok then RolledBack else RollbackFailed;
    }

    /** Put every committed target back from its snapshot; a failure of one copy does not stop the rest. */
    method RollBack(copies: seq<Copy>, unreadable: set<Target>, attempted: nat, committed: nat,
                    ghost places: seq<Place>)
      returns (outcome: map<Target, Outcome>)
      requires Valid() && AllBacked(slots, copies) && Planned(slots, copies) && Stand(slots, copies, places)
      requires unreadable == Unreadable(slots, copies, |copies|)
      requires Counts(places, attempted, committed)
      modifies this
      ensures Valid() && SameTargets(old(slots), slots) && Planned(slots, copies)
      ensures Dealt(slots, copies, places, Rolls(Befores(slots, copies), places, Course(), old(clock)), |copies|,
                    outcome)
    {
      hide Sound, Calm, Pristine, OthersOnly, OthersKept, SameKind, Standing, Backed, Settled, Dealt, Course;
      hide Rolls, RollOf, Rolling;
      outcome := map[];
      ghost var before := Befores(slots, copies);
      ghost var rolls := Rolls(before, places, Course(), clock);
      BeforeDealing(slots, copies, places, rolls);
      RollingStarts(before, places, Course(), clock);
      for i := 0 to attempted
        invariant Valid() && AllBacked(slots, copies) && Planned(slots, copies) && SameTargets(old(slots), slots)
        invariant before == Befores(slots, copies) && Dealt(slots, copies, places, rolls, i, outcome)
        invariant Rolling(before, places, Course(), old(clock), i, clock)
      {
        ghost var was := slots;
        ghost var at := clock;
        var copy := copies[i];
        UnreadableMember(slots, copies, i);
        UnreadableSame(old(slots), slots, copies);
        NextToDeal(slots, copies, places, rolls, i, outcome);
        RollingNext(before, places, Course(), old(clock), i, at);
        var result := RollBackOne(copy, copy.target in unreadable, i < committed, places[i], copies);
        DealtNext(was, slots, copies, places, rolls, i, outcome, result);
        SameTwice(old(slots), was, slots);
        SameBefores(was, slots, copies);
        outcome := outcome[copy.target := result];
      }
      RollingEnds(before, places, Course(), old(clock), attempted, clock);
      RestUnattempted(slots, copies, places, rolls, attempted, outcome);
    }

    /** _clear_state_auth_generation: a failure is swallowed. */
    method ClearGeneration(state: Target, archive: Content, ghost copies: seq<Copy>)
      requires Valid() && AllBacked(slots, copies) && state in slots && Standing(slots[state], archive, Copied)
      modifies this
      ensures Valid() && OthersKept(old(slots), slots, state)
      ensures Landed(slots[state], archive, Commits(Course(), old(clock)))
    {
      hide Calm, AllBacked, Sound, OthersOnly, Landed, SameKind, Standing;
      ghost var was := slots[state];
      var fault := Step(state);
      BackedStays(old(slots), slots, state, copies);
      StandingLive(was, slots[state], archive);
      if fault.NoFault? || fault.AfterCommit? {
        ClearedLands(slots[state], archive);
        Put(state, Database(Cleared(slots[state].live.content)), copies);
      }
    }

    /**
      The apply section. It is refused exactly when a probe or a snapshot fails,
      and then changed nothing; it fails exactly when a copy does, and then says
      of every target what became of it; otherwise every target took the
      archive's content, and a state database restored without its auth store
      drops its claim, and nothing else, unless that step fails.  Without other
      writers a success leaves the archive's rows in every target, and a clean
      failure leaves the files from before exactly where the faults leave all.
     */
    method Apply(copies: seq<Copy>, clear: bool) returns (report: Report)
      requires Valid() && Planned(slots, copies) && Untouched(slots, copies, 0) && |copies| > 0
      modifies this
      ensures Valid() && SameTargets(old(slots), slots) && Planned(slots, copies)
      ensures var (before, f, start) := (Befores(slots, copies), Course(), old(clock));
              var copying := Copies(before, f, start + 2 * |before|);
              (report.Refused? <==> Refuses(before, f, start))
              && (report.Failed? <==> !Refuses(before, f, start) && !copying.ok)
              && (report.Refused? ==> forall i | 0 <= i < |copies| :: slots[copies[i].target].last.None?)
              && (report.Failed? ==> Dealt(slots, copies, copying.places,
                                           Rolls(before, copying.places, f, copying.clock), |copies|, report.outcome))
              && (report.Applied? ==> forall i | 0 <= i < |copies| ::
                    Landed(slots[copies[i].target], copies[i].archive, clear && i == 0 && Commits(f, copying.clock)))
              && (report.Applied? && Quiet() ==> forall i | 0 <= i < |copies| ::
                    Holds(Lives(slots, copies)[i], copies[i].archive, clear && i == 0 && Commits(f, copying.clock)))
              && (report.Failed? && Quiet() && FailsCleanly(before, f, start) ==>
                    (Lives(slots, copies) == before <==> LeavesAll(before, Archives(copies), f, start)))
    {
      hide *;
      ghost var s0 := slots;
      ghost var c0 := clock;
      var idle, unreadable := RequireDatabasesIdle(copies);
      ghost var s1 := slots;
      SameBefores(s0, s1, copies);
      if !idle {
        NothingReached(slots, copies, 0);
        RefusedEarly(Befores(s0, copies), Course(), c0);
        return Refused;
      }
      var kept, k := SnapshotTargets(copies);
      SameTwice(s0, s1, slots);
      SameBefores(s1, slots, copies);
      RefusedLate(Befores(s0, copies), Course(), c0, |copies|);
      if !kept {
        NothingReached(slots, copies, k);
        return Refused;
      }
      UnreadableSame(s1, slots, copies);
      ghost var s2 := slots;
      ghost var c2 := clock;
      var ok, attempted, committed := CopyAll(copies, unreadable);
      SameTwice(s0, s2, slots);
      SameBefores(s2, slots, copies);
      ghost var s3 := slots;
      ghost var copying := Copies(Befores(s0, copies), Course(), c2);
      if !ok {
        UnreadableSame(s2, slots, copies);
        var outcome := RollBack(copies, unreadable, attempted, committed, copying.places);
        SameTwice(s0, s3, slots);
        SameBefores(s3, slots, copies);
        if Quiet() && FailsCleanly(Befores(s0, copies), Course(), c0) {
          AllCalm();
          QuietlyFailed(slots, copies, Course(), c0, outcome);
        }
        return Failed(outcome);
      }
      CopiedWell(Befores(s0, copies), Course(), c2);
      AllCopied(slots, copies, copying.places);
      if clear {
        ClearGeneration(copies[0].target, copies[0].archive, copies);
        KeptBefore(s3, slots, copies[0].target);
        SameTwice(s0, s3, slots);
        SameBefores(s3, slots, copies);
        ClearedAll(s3, slots, copies, copying.places, Commits(Course(), copying.clock));
      }
      if Quiet() {
        AllCalm();
        QuietlyApplied(slots, copies, clear && Commits(Course(), copying.clock));
      }
      report := Applied;
    }
  }

  lemma CommittedBefore(s: Slot, write: Option<Content>)
    ensures Committed(s, write).before == s.before
  {
  }

  lemma AheadNext(slots: Slots, copies: seq<Copy>, n: nat)
    requires Ahead(slots, copies, n) && n < |copies|
    ensures copies[n].target in slots && Pristine(slots[copies[n].target], true)
  {
    hide Pristine;
  }

  lemma RefusedEarly(before: seq<File>, f: Faults, start: nat)
    requires ProbeFails(before, f, start)
    ensures Refuses(before, f, start)
  {
  }

  lemma RefusedLate(before: seq<File>, f: Faults, start: nat, n: nat)
    requires n == |before| && !ProbeFails(before, f, start)
    ensures Refuses(before, f, start) <==> SnapshotFails(before, f, start + n)
  {
  }
}
