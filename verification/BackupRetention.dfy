/** Scheduled backups and the retention of old ones (core/inkdrop_backup_restore.py). */
module BackupRetention {
  import opened Outcomes

  const DAY_SECONDS := 86400
  const SCHEDULED := "scheduled"

  /** A recognized archive: the second its name was stamped with, and its label. */
  datatype Archive = Archive(stamp: int, kind: string)

  datatype Policy = Policy(intervalDays: int, retentionDays: int, retentionCount: int)

  function Max(a: int, b: int): int { if a < b then b else a }

  function Cutoff(p: Policy, now: real): real { now - (Max(0, p.retentionDays) * DAY_SECONDS) as real }

  function Newer(all: set<int>, s: int): set<int> { set x | x in all && x > s }

  /** The newest stays; others stay while they are young enough and few enough are newer. */
  predicate Stays(all: set<int>, p: Policy, now: real, s: int) {
    Newer(all, s) == {}
    || !((s as real) < Cutoff(p, now) || (p.retentionCount > 0 && |Newer(all, s)| >= p.retentionCount))
  }

  function Survivors(all: set<int>, p: Policy, now: real): set<int> {
    set s | s in all && Stays(all, p, now, s)
  }

  // ---------------------------------------------------------------------- listing

  predicate Descending(s: seq<int>) { forall i, j | 0 <= i < j < |s| :: s[i] > s[j] }

  function Stamps(archives: set<Archive>, kind: string): set<int> {
    set a | a in archives && a.kind == kind :: a.stamp
  }

  /** A directory listing, in whatever order, sorted newest first. */
  method ListNewestFirst(stamps: set<int>) returns (list: seq<int>)
    ensures Descending(list) && (set x | x in list) == stamps && |list| == |stamps|
  {
    list := [];
    var left := stamps;
    while left != {}
      invariant left <= stamps && (set x | x in list) == stamps - left && Descending(list)
      invariant |list| + |left| == |stamps|
      decreases |left|
    {
      Inhabited(left);
      var x :| x in left;
      assert x !in list by { assert x !in (set y | y in list); }
      ghost var was := list;
      list := InsertStamp(list, x);
      left := left - {x};
    }
  }

  method InsertStamp(list: seq<int>, x: int) returns (r: seq<int>)
    requires Descending(list) && x !in list
    ensures Descending(r) && |r| == |list| + 1 && (set y | y in r) == (set y | y in list) + {x}
  {
    var i := 0;
    while i < |list| && list[i] > x
      invariant i <= |list| && forall k | 0 <= k < i :: list[k] > x
    {
      i := i + 1;
    }
    r := list[..i] + [x] + list[i..];
    Inserted(list[..i], x, list[i..], list);
  }

  lemma Inserted(a: seq<int>, x: int, b: seq<int>, list: seq<int>)
    requires list == a + b && Descending(list) && x !in list
    requires (forall k | 0 <= k < |a| :: a[k] > x) && (b != [] ==> b[0] <= x)
    ensures Descending(a + [x] + b) && (set y | y in a + [x] + b) == (set y | y in list) + {x}
  {
    var r := a + [x] + b;
    assert forall y :: y in r <==> y in a || y == x || y in b;
    assert forall y :: y in list <==> y in a || y in b;
    forall k | 0 <= k < |b|
      ensures b[k] < x
    {
      assert b[k] == list[|a| + k] && b[0] == list[|a|];
      assert b[k] in list;
    }
    forall i, j | 0 <= i < j < |r|
      ensures r[i] > r[j]
    {
      if j < |a| || i > |a| {
        var (p, q) := (if i > |a| then i - 1 else i, if j > |a| then j - 1 else j);
        assert r[i] == list[p] && r[j] == list[q];
      }
    }
  }

  /** The stamps before a position of the list are the newer ones. */
  lemma NewerAreBefore(list: seq<int>, all: set<int>, i: nat)
    requires Descending(list) && all == (set x | x in list) && i < |list|
    ensures Newer(all, list[i]) == (set x | x in list[..i]) && |Newer(all, list[i])| == i
  {
    assert forall x | x in Newer(all, list[i]) :: x in list[..i];
    CountDescending(list[..i]);
  }

  lemma {:induction false} CountDescending(s: seq<int>)
    requires Descending(s)
    ensures |set x | x in s| == |s|
  {
    if s != [] {
      var n := |s| - 1;
      CountDescending(s[..n]);
      assert (set x | x in s) == (set x | x in s[..n]) + {s[n]};
    }
  }

  // ---------------------------------------------------------------- the directory

  class BackupDirectory {
    var archives: set<Archive>

    constructor (archives: set<Archive>)
      ensures this.archives == archives
    {
      this.archives := archives;
    }

    /** prune_backup_archives for one label; unlinking some archives may fail. */
    method Prune(p: Policy, kind: string, now: real, stuck: set<int>) returns (deleted: set<int>)
      modifies this
      ensures deleted == Stamps(old(archives), kind) - Survivors(Stamps(old(archives), kind), p, now) - stuck
      ensures archives == old(archives) - set s | s in deleted :: Archive(s, kind)
    {
      hide Survivors, Stays;
      var all := Stamps(archives, kind);
      var list := ListNewestFirst(all);
      var cutoff := Cutoff(p, now);
      deleted := {};
      for i := 0 to |list|
        invariant deleted == (set x | x in list[..i]) - Survivors(all, p, now) - stuck
        invariant archives == old(archives) - set s | s in deleted :: Archive(s, kind)
      {
        var tooOld := (list[i] as real) < cutoff;
        var beyondCount := Max(0, p.retentionCount) > 0 && i >= Max(0, p.retentionCount);
        SurvivorAt(list, all, p, now, i);
        assert list[..i + 1] == list[..i] + [list[i]];
        if i != 0 && (tooOld || beyondCount) && list[i] !in stuck {
          archives := archives - {Archive(list[i], kind)};
          deleted := deleted + {list[i]};
        }
      }
      assert list[..|list|] == list;
    }

    /**
      run_scheduled_backup: a new archive once the interval has passed, stamped
      with the second of its own, later clock; then pruning by this pass's clock.
     */
    method RunScheduled(p: Policy, now: real, later: real, succeeds: bool, stuck: set<int>)
      returns (r: Result<Option<int>>)
      requires now <= later
      modifies this
      ensures Stamps(archives, SCHEDULED) == if r.Ok? then Pass(Stamps(old(archives), SCHEDULED), p, now, later, stuck)
                                             else Stamps(old(archives), SCHEDULED)
      ensures r.Raised? <==> Due(Stamps(old(archives), SCHEDULED), p, now) && !succeeds
      ensures forall a: Archive | a.kind != SCHEDULED :: a in archives <==> a in old(archives)
    {
      hide Survivors, Stamps, Due, Pass;
      var all := Stamps(archives, SCHEDULED);
      var list := ListNewestFirst(all);
      FirstIsNewest(list, all);
      var due := list == [] || now - list[0] as real >= (Max(1, p.intervalDays) * DAY_SECONDS) as real;
      DueByList(list, all, p, now);
      var created := None;
      if due {
        if !succeeds { return Raised; }
        archives := archives + {Archive(later.Floor, SCHEDULED)};
        created := Some(later.Floor);
      }
      ghost var before := archives;
      StampsWith(old(archives), SCHEDULED, later.Floor);
      assert Stamps(before, SCHEDULED) == Made(all, p, now, later);
      var deleted := Prune(p, SCHEDULED, now, stuck);
      StampsWithout(before, SCHEDULED, deleted);
      PassDeletes(Made(all, p, now, later), all, p, now, later, stuck);
      r := Ok(created);
    }
  }

  lemma PassDeletes(made: set<int>, all: set<int>, p: Policy, now: real, later: real, stuck: set<int>)
    requires made == Made(all, p, now, later)
    ensures made - (made - Survivors(made, p, now) - stuck) == Pass(all, p, now, later, stuck)
  {
    SurvivorsWithin(made, p, now);
  }

  lemma StampsWith(archives: set<Archive>, kind: string, stamp: int)
    ensures Stamps(archives + {Archive(stamp, kind)}, kind) == Stamps(archives, kind) + {stamp}
  {
    var more := archives + {Archive(stamp, kind)};
    assert forall a | a in archives :: a in more;
    assert Archive(stamp, kind) in more;
  }

  lemma StampsWithout(archives: set<Archive>, kind: string, deleted: set<int>)
    ensures Stamps(archives - set s | s in deleted :: Archive(s, kind), kind) == Stamps(archives, kind) - deleted
  {
    var left := archives - set s | s in deleted :: Archive(s, kind);
    forall x | x in Stamps(archives, kind) - deleted
      ensures x in Stamps(left, kind)
    {
      assert Archive(x, kind) in left;
    }
  }

  lemma SurvivorAt(list: seq<int>, all: set<int>, p: Policy, now: real, i: nat)
    requires Descending(list) && all == (set x | x in list) && i < |list|
    ensures list[i] in Survivors(all, p, now)
            <==> i == 0 || !((list[i] as real) < Cutoff(p, now) || (p.retentionCount > 0 && i >= p.retentionCount))
  {
    NewerAreBefore(list, all, i);
    assert list[i] in list;
  }

  /** No scheduled archive yet, or the newest is at least an interval old. */
  predicate Due(all: set<int>, p: Policy, now: real) {
    forall s | s in all :: now - s as real >= (Max(1, p.intervalDays) * DAY_SECONDS) as real
  }

  lemma FirstIsNewest(list: seq<int>, all: set<int>)
    requires Descending(list) && all == (set x | x in list)
    ensures list == [] ==> all == {}
    ensures list != [] ==> list[0] in all && forall s | s in all :: s <= list[0]
  {
    assert list != [] ==> list[0] in list;
    forall s | s in all
      ensures s in list && s <= list[0]
    {
      var i :| 0 <= i < |list| && list[i] == s;
    }
  }

  lemma DueByList(list: seq<int>, all: set<int>, p: Policy, now: real)
    requires Descending(list) && all == (set x | x in list)
    ensures Due(all, p, now) <==> list == [] || now - list[0] as real >= (Max(1, p.intervalDays) * DAY_SECONDS) as real
  {
    FirstIsNewest(list, all);
  }

  // --------------------------------------------------------------------- one pass

  function Made(all: set<int>, p: Policy, now: real, later: real): set<int> {
    if Due(all, p, now) then all + {later.Floor} else all
  }

  function Pass(all: set<int>, p: Policy, now: real, later: real, stuck: set<int>): set<int> {
    Survivors(Made(all, p, now, later), p, now) + (Made(all, p, now, later) * stuck)
  }

  /** What survives is a newest part, not empty, and within the count. */
  lemma SurvivorsNewest(all: set<int>, p: Policy, now: real)
    ensures forall s, t | s in Survivors(all, p, now) && t in all && t > s :: t in Survivors(all, p, now)
    ensures all != {} ==> Survivors(all, p, now) != {}
    ensures p.retentionCount > 0 ==> |Survivors(all, p, now)| <= p.retentionCount
  {
    forall s, t | s in Survivors(all, p, now) && t in all && t > s
      ensures t in Survivors(all, p, now)
    {
      assert Newer(all, t) < Newer(all, s) by { assert t in Newer(all, s) && t !in Newer(all, t); }
      Smaller(Newer(all, t), Newer(all, s));
    }
    if all != {} {
      var m := Newest(all);
      assert Newer(all, m) == {};
      assert m in Survivors(all, p, now);
      if p.retentionCount > 0 {
        SurvivorsCounted(all, p, now);
      }
    }
  }

  /**
    An archive survives a pruning exactly if it is the newest, or is neither older
    than the retention days nor behind as many newer ones as are to be kept.
   */
  lemma SurvivesExactly(all: set<int>, p: Policy, now: real, s: int)
    requires s in all
    ensures s in Survivors(all, p, now)
            <==> (forall t | t in all :: t <= s)
                 || ((now <= s as real || now - s as real <= 86400.0 * (p.retentionDays as real))
                     && (p.retentionCount <= 0 || |set t | t in all && s < t| < p.retentionCount))
  {
    assert Newer(all, s) == set t | t in all && s < t;
    assert (forall t | t in all :: t <= s) ==> Newer(all, s) == {};
    assert Newer(all, s) == {} ==> forall t | t in all :: t > s ==> t in Newer(all, s);
    assert (Max(0, p.retentionDays) * DAY_SECONDS) as real == 86400.0 * (Max(0, p.retentionDays) as real);
  }

  /** A scheduled archive is due exactly when none is younger than the interval, which is a day at least. */
  lemma DueExactly(all: set<int>, p: Policy, now: real)
    ensures Due(all, p, now)
            <==> forall s | s in all ::
                now - s as real >= 86400.0 && now - s as real >= 86400.0 * (p.intervalDays as real)
  {
    assert (Max(1, p.intervalDays) * DAY_SECONDS) as real == 86400.0 * (Max(1, p.intervalDays) as real);
  }

  lemma Inhabited(s: set<int>)
    requires s != {}
    ensures exists x: int :: x in s
  {
    assert (forall x: int :: x !in s) ==> s == {};
  }

  lemma Smaller<T>(a: set<T>, b: set<T>)
    requires a <= b
    ensures |a| <= |b|
  {
    assert |b - a| == |b| - |a|;
  }

  lemma SurvivorsCounted(all: set<int>, p: Policy, now: real)
    requires p.retentionCount > 0
    ensures |Survivors(all, p, now)| <= p.retentionCount
  {
    var kept := Survivors(all, p, now);
    if kept != {} {
      var o := Oldest(kept);
      Smaller(kept - {o}, Newer(all, o));
    }
  }

  lemma {:induction false} Newest(all: set<int>) returns (m: int)
    requires all != {}
    ensures m in all && forall s | s in all :: s <= m
    decreases all
  {
    Inhabited(all);
    var first :| first in all;
    m := first;
    assert all == all - {first} + {first};
    if all - {first} != {} {
      var n := Newest(all - {first});
      m := if n > first then n else first;
    }
  }

  lemma {:induction false} Oldest(all: set<int>) returns (m: int)
    requires all != {}
    ensures m in all && forall s | s in all :: m <= s
    decreases all
  {
    Inhabited(all);
    var first :| first in all;
    m := first;
    assert all == all - {first} + {first};
    if all - {first} != {} {
      var n := Oldest(all - {first});
      m := if n < first then n else first;
    }
  }

  /** Pruning again at the same moment deletes nothing. */
  lemma PruneTwice(all: set<int>, p: Policy, now: real)
    ensures Survivors(Survivors(all, p, now), p, now) == Survivors(all, p, now)
  {
    SurvivorsNewest(all, p, now);
    var kept := Survivors(all, p, now);
    forall s | s in kept
      ensures Newer(kept, s) == Newer(all, s)
    {
    }
  }

  // -------------------------------------------------------------- whole schedules

  /** One scheduled pass: its clock, and the clock of the archive it would make. */
  datatype Tick = Tick(now: real, later: real)

  predicate Monotone(ticks: seq<Tick>) {
    (forall i | 0 <= i < |ticks| :: ticks[i].now <= ticks[i].later)
    && forall i, j | 0 <= i < j < |ticks| :: ticks[i].later <= ticks[j].now
  }

  /** The archives after some passes, and all that were ever there. */
  datatype History = History(live: set<int>, ever: set<int>)

  function Schedule(start: set<int>, p: Policy, ticks: seq<Tick>): History {
    if ticks == [] then History(start, start)
    else
      var h := Schedule(start, p, ticks[..|ticks| - 1]);
      var t := ticks[|ticks| - 1];
      History(Pass(h.live, p, t.now, t.later, {}), h.ever + Made(h.live, p, t.now, t.later))
  }

  predicate Spaced(all: set<int>, p: Policy) {
    forall s, t | s in all && t in all && s < t :: t - s >= Max(1, p.intervalDays) * DAY_SECONDS
  }

  /** Live archives are a newest part of all there ever were. */
  predicate NewestPart(h: History) {
    h.live <= h.ever && forall s, t | s in h.live && t in h.ever && t > s :: t in h.live
  }

  lemma PassKeeps(h: History, p: Policy, now: real, later: real)
    requires now <= later && Spaced(h.live, p) && NewestPart(h) && (h.ever != {} ==> h.live != {})
    ensures var live := Pass(h.live, p, now, later, {});
            Spaced(live, p) && live != {} && NewestPart(History(live, h.ever + Made(h.live, p, now, later)))
            && (p.retentionCount > 0 ==> |live| <= p.retentionCount)
            && live <= Made(h.live, p, now, later)
  {
    hide Survivors;
    var made := Made(h.live, p, now, later);
    var live := Pass(h.live, p, now, later, {});
    SurvivorsWithin(made, p, now);
    SurvivorsNewest(made, p, now);
    assert made * {} == {} && live == Survivors(made, p, now);
    MadeSpaced(h, p, now, later);
    assert made != {};
  }

  lemma SurvivorsWithin(all: set<int>, p: Policy, now: real)
    ensures Survivors(all, p, now) <= all
  {
  }

  /**
    A new archive is newest of all and an interval after the last, although its stamp drops
    the fraction of a second.
   */
  lemma MadeSpaced(h: History, p: Policy, now: real, later: real)
    requires now <= later && Spaced(h.live, p) && NewestPart(h) && (h.ever != {} ==> h.live != {})
    ensures var made := Made(h.live, p, now, later);
            made != {} && Spaced(made, p) && NewestPart(History(made, h.ever + made))
  {
    var made := Made(h.live, p, now, later);
    var gap := Max(1, p.intervalDays) * DAY_SECONDS;
    if Due(h.live, p, now) {
      forall s | s in h.live
        ensures later.Floor - s >= gap
      {
        assert s as real + gap as real <= later;
        assert (s + gap) as real == s as real + gap as real;
      }
      forall e | e in h.ever
        ensures e < later.Floor
      {
        if e !in h.live {
          var m := Newest(h.live);
          assert !(e > m);
        }
      }
    }
  }

  /**
    Over every run of passes with a fixed policy: the live archives are a newest
    part of all there ever were, at least an interval apart, and after the first
    pass neither none nor more than the count.
   */
  lemma {:induction false} ScheduleKeeps(start: set<int>, p: Policy, ticks: seq<Tick>)
    requires Monotone(ticks) && Spaced(start, p)
    ensures var h := Schedule(start, p, ticks);
            Spaced(h.live, p) && NewestPart(h) && (h.ever != {} ==> h.live != {})
            && (ticks != [] ==> h.live != {} && (p.retentionCount > 0 ==> |h.live| <= p.retentionCount))
  {
    hide Pass, Made, Spaced, NewestPart;
    if ticks == [] {
      assert NewestPart(History(start, start)) by { AllLive(start); }
    } else {
      ScheduleKeeps(start, p, ticks[..|ticks| - 1]);
      var t := ticks[|ticks| - 1];
      PassKeeps(Schedule(start, p, ticks[..|ticks| - 1]), p, t.now, t.later);
    }
  }

  lemma AllLive(start: set<int>)
    ensures NewestPart(History(start, start))
  {
  }

  /** One more pass deletes from the live archives what pruning all there ever were would delete. */
  lemma PassForgets(h: History, p: Policy, before: real, now: real, later: real)
    requires before <= now <= later && Spaced(h.live, p) && NewestPart(h) && (h.ever != {} ==> h.live != {})
    requires h.live == h.ever || h.live == Survivors(h.ever, p, before)
    ensures Pass(h.live, p, now, later, {}) == Survivors(h.ever + Made(h.live, p, now, later), p, now)
  {
    var made := Made(h.live, p, now, later);
    var ever := h.ever + made;
    MadeSpaced(h, p, now, later);
    hide Spaced, Made;
    assert made * {} == {};
    forall s | s in made
      ensures s in Survivors(made, p, now) <==> s in Survivors(ever, p, now)
    {
      assert Newer(made, s) == Newer(ever, s);
    }
    forall s | s in ever && s !in made
      ensures s !in Survivors(ever, p, now)
    {
      assert s in h.ever && s !in h.live by { LiveMade(h, p, now, later); }
      assert s !in Survivors(h.ever, p, before);
      Smaller(Newer(h.ever, s), Newer(ever, s));
      assert Newer(h.ever, s) <= Newer(ever, s);
    }
  }

  lemma LiveMade(h: History, p: Policy, now: real, later: real)
    ensures h.live <= Made(h.live, p, now, later)
  {
  }

  /**
    Over every run of passes that can delete what they mean to, the live archives
    are the ones that pruning all there ever were, once and now, would leave.
   */
  lemma {:induction false} ScheduleForgets(start: set<int>, p: Policy, ticks: seq<Tick>)
    requires Monotone(ticks) && Spaced(start, p)
    ensures var h := Schedule(start, p, ticks);
            h.live == if ticks == [] then h.ever else Survivors(h.ever, p, ticks[|ticks| - 1].now)
  {
    hide Pass, Made, Spaced, NewestPart, Survivors;
    if ticks != [] {
      var (first, t) := (ticks[..|ticks| - 1], ticks[|ticks| - 1]);
      ScheduleForgets(start, p, first);
      ScheduleKeeps(start, p, first);
      PassForgets(Schedule(start, p, first), p, if first == [] then t.now else first[|first| - 1].now, t.now, t.later);
    }
  }
}
