/** The mixed recovery cohort across the whole pipeline (core/inkdrop_acquisition_funnel.py). */
module RecoveryCohort {
  import opened NaturalOrder
  import opened Sorting
  import opened RoundRobin
  import opened Strata
  import opened Cohorts

  /** Search coverage, provider outcome, candidate decision, hand-off and transfer, import and reader. */
  const STAGES := 5

  /** The recovery states of each stage. */
  const STAGE_BUCKETS: seq<set<Bucket>> :=
    [{NeverSearched, DueForSearch, ProviderPlanned, ProviderCalled},
     {CompletedWithResults, CompletedWithZeroResults, TimedOut, Failed, Malformed},
     {Normalized, AllRejected, SafeAvailable, Selected},
     {HandoffAttempted, HandoffAcknowledged, TransferActive, TransferStalled, TransferCompleted,
      ArtifactMissing, ArtifactRejected, ArtifactQuarantined},
     {ReadyToImport, Imported, ScanPending, ReaderVisible, CompletionRecorded}]

  /** Every state is in one stage. */
  function StageOf(b: Bucket): (n: nat)
    ensures n < STAGES == |STAGE_BUCKETS| && forall k: nat | k < STAGES :: b in STAGE_BUCKETS[k] <==> k == n
  {
    match b
    case NeverSearched | DueForSearch | ProviderPlanned | ProviderCalled => 0
    case CompletedWithResults | CompletedWithZeroResults | TimedOut | Failed | Malformed => 1
    case Normalized | AllRejected | SafeAvailable | Selected => 2
    case HandoffAttempted | HandoffAcknowledged | TransferActive | TransferStalled | TransferCompleted => 3
    case ArtifactMissing | ArtifactRejected | ArtifactQuarantined => 3
    case ReadyToImport | Imported | ScanPending | ReaderVisible | CompletionRecorded => 4
  }

  /** A selected unit and the stage it was drawn for; the balancing fill has none. */
  datatype Pick = Pick(unit: Unit, stage: nat)

  predicate DistinctIds(units: seq<Unit>) {
    forall i, j | 0 <= i < j < |units| :: units[i].wantedId != units[j].wantedId
  }

  function Units(picks: seq<Pick>): (u: seq<Unit>)
    ensures |u| == |picks|
  {
    seq(|picks|, i requires 0 <= i < |picks| => picks[i].unit)
  }

  function Tagged(units: seq<Unit>, stage: nat): (p: seq<Pick>)
    ensures |p| == |units|
  {
    seq(|units|, i requires 0 <= i < |units| => Pick(units[i], stage))
  }

  function Ids(units: seq<Unit>): set<string> { set u | u in units :: u.wantedId }

  /** The units of a stage that are not used yet. */
  function Pool(units: seq<Unit>, used: set<string>, stage: nat): seq<Unit> {
    if units == [] then []
    else
      var last := units[|units| - 1];
      Pool(units[..|units| - 1], used, stage) + if last.wantedId !in used && StageOf(last.bucket) == stage then [last]
                                                else []
  }

  function Remaining(units: seq<Unit>, used: set<string>): seq<Unit> {
    if units == [] then []
    else
      var last := units[|units| - 1];
      Remaining(units[..|units| - 1], used) + if last.wantedId !in used then [last] else []
  }

  // ------------------------------------------------------------ distinct series

  function SeriesIn(pool: seq<Unit>): set<string> { set u | u in pool :: u.series }

  /** The first unit of each series, in order. */
  function Firsts(pool: seq<Unit>): seq<Unit> {
    if pool == [] then []
    else
      var (front, last) := (pool[..|pool| - 1], pool[|pool| - 1]);
      Firsts(front) + if last.series in SeriesIn(front) then [] else [last]
  }

  function Repeats(pool: seq<Unit>): seq<Unit> {
    if pool == [] then []
    else
      var (front, last) := (pool[..|pool| - 1], pool[|pool| - 1]);
      Repeats(front) + if last.series in SeriesIn(front) then [last] else []
  }

  function Spread(pool: seq<Unit>): seq<Unit> { Firsts(pool) + Repeats(pool) }

  method SpreadSeries(pool: seq<Unit>) returns (spread: seq<Unit>)
    ensures spread == Spread(pool)
  {
    hide Firsts, Repeats;
    var distinct: seq<Unit>, repeated: seq<Unit>, seen: set<string> := [], [], {};
    assert pool[..0] == [];
    SpreadKeeps([]);
    assert |Firsts([])| == 0 && |Repeats([])| == 0;
    for i := 0 to |pool|
      invariant distinct == Firsts(pool[..i]) && repeated == Repeats(pool[..i]) && seen == SeriesIn(pool[..i])
    {
      assert pool[..i + 1] == pool[..i] + [pool[i]];
      SeriesNext(pool[..i], pool[i]);
      SpreadNext(pool[..i], pool[i]);
      if pool[i].series in seen {
        repeated := repeated + [pool[i]];
      } else {
        seen := seen + {pool[i].series};
        distinct := distinct + [pool[i]];
      }
    }
    assert pool[..|pool|] == pool;
    spread := distinct + repeated;
  }

  lemma SeriesNext(pool: seq<Unit>, u: Unit)
    ensures SeriesIn(pool + [u]) == SeriesIn(pool) + {u.series}
  {
  }

  lemma SpreadNext(pool: seq<Unit>, u: Unit)
    ensures Firsts(pool + [u]) == if u.series in SeriesIn(pool) then Firsts(pool) else Firsts(pool) + [u]
    ensures Repeats(pool + [u]) == if u.series in SeriesIn(pool) then Repeats(pool) + [u] else Repeats(pool)
  {
    hide SeriesIn;
    assert (pool + [u])[..|pool|] == pool;
  }

  lemma {:induction false} SpreadKeeps(pool: seq<Unit>)
    ensures multiset(Firsts(pool) + Repeats(pool)) == multiset(pool) && |Spread(pool)| == |pool|
  {
    if pool != [] {
      var (front, last) := (pool[..|pool| - 1], pool[|pool| - 1]);
      SpreadKeeps(front);
      assert pool == front + [last];
      SpreadNext(front, last);
      hide Firsts, Repeats, SeriesIn;
    }
  }

  lemma {:induction false} FirstsDistinct(pool: seq<Unit>)
    ensures SeriesIn(Firsts(pool)) == SeriesIn(pool)
    ensures forall i, j | 0 <= i < j < |Firsts(pool)| :: Firsts(pool)[i].series != Firsts(pool)[j].series
  {
    if pool != [] {
      var (front, last) := (pool[..|pool| - 1], pool[|pool| - 1]);
      FirstsDistinct(front);
      assert pool == front + [last];
      SeriesNext(front, last);
      SeriesNext(Firsts(front), last);
      assert forall i | 0 <= i < |Firsts(front)| :: Firsts(front)[i].series in SeriesIn(Firsts(front));
    }
  }

  lemma {:induction false} SeriesCount(s: seq<Unit>)
    requires forall i, j | 0 <= i < j < |s| :: s[i].series != s[j].series
    ensures |SeriesIn(s)| == |s|
  {
    if s != [] {
      var (front, last) := (s[..|s| - 1], s[|s| - 1]);
      SeriesCount(front);
      assert s == front + [last];
      SeriesNext(front, last);
    }
  }

  /** A stage's quota covers as many series as it can before any series gets a second unit. */
  lemma SpreadCoversSeries(pool: seq<Unit>, quota: nat)
    ensures |SeriesIn(Share(Spread(pool), quota))| == Min(quota, |SeriesIn(pool)|)
  {
    hide Repeats, Firsts, SeriesIn;
    SpreadKeeps(pool);
    FirstsDistinct(pool);
    SeriesCount(Firsts(pool));
    var first := Firsts(pool);
    if quota <= |first| {
      assert Share(Spread(pool), quota) == first[..quota];
      SeriesCount(first[..quota]);
    } else {
      var head := Share(Spread(pool), quota);
      assert head[..|first|] == first;
      Between(first, head, pool);
    }
  }

  lemma Between(first: seq<Unit>, head: seq<Unit>, pool: seq<Unit>)
    requires SeriesIn(first) == SeriesIn(pool) && |first| <= |head| && head[..|first|] == first
    requires head == Share(Spread(pool), |head|)
    ensures SeriesIn(head) == SeriesIn(pool)
  {
    hide Firsts, Repeats;
    SpreadKeeps(pool);
    assert forall u | u in first :: u in head;
    forall u | u in head
      ensures u in pool
    {
      assert u in multiset(Spread(pool));
    }
  }

  // ------------------------------------------------- what a stage's draw promises

  lemma {:induction false} FirstsWithin(pool: seq<Unit>)
    ensures forall u :: u in pool <==> u in Firsts(pool) || u in Repeats(pool)
  {
    hide SeriesIn;
    if pool != [] {
      var (front, last) := (pool[..|pool| - 1], pool[|pool| - 1]);
      FirstsWithin(front);
      assert pool == front + [last];
    }
  }

  lemma {:induction false} SpreadAscending(pool: seq<Unit>)
    requires Ascending(pool, RankLe)
    ensures Ascending(Firsts(pool), RankLe) && Ascending(Repeats(pool), RankLe)
  {
    hide RankLe, SeriesIn;
    if pool != [] {
      var (front, last) := (pool[..|pool| - 1], pool[|pool| - 1]);
      SpreadAscending(front);
      FirstsWithin(front);
      assert forall u | u in front :: RankLe(u, last);
    }
  }

  /** The first unit of a series ranks before the others of it. */
  lemma {:induction false} FirstsLead(pool: seq<Unit>)
    requires Ascending(pool, RankLe)
    ensures forall f, u | f in Firsts(pool) && u in pool && f.series == u.series :: RankLe(f, u)
  {
    hide RankLe;
    if pool != [] {
      var (front, last) := (pool[..|pool| - 1], pool[|pool| - 1]);
      FirstsLead(front);
      FirstsWithin(front);
      assert pool == front + [last];
      assert forall u | u in front :: RankLe(u, last);
      RankItself(last);
    }
  }

  lemma RankItself(u: Unit)
    ensures RankLe(u, u)
  {
    TextTotal(u.wantedId, u.wantedId);
  }

  lemma FirstOf(pool: seq<Unit>, u: Unit) returns (f: Unit)
    requires u in pool
    ensures f in Firsts(pool) && f.series == u.series
  {
    FirstsDistinct(pool);
    assert u.series in SeriesIn(Firsts(pool));
    f :| f in Firsts(pool) && f.series == u.series;
  }

  /** Another chosen unit of the series is older. */
  ghost predicate IsSecond(chosen: seq<Unit>, u: Unit) {
    exists w :: w in chosen && w != u && w.series == u.series && Older(w, u)
  }

  /**
    Why a unit of the stage may be left out: its series is not covered, and then
    every chosen unit is older and the only one of its series; or an older unit of
    its series was chosen, and every chosen unit that is not the first of its series is older.
   */
  ghost predicate LeftFairly(chosen: seq<Unit>, v: Unit) {
    if forall w | w in chosen :: w.series != v.series then
      (forall u | u in chosen :: Older(u, v))
      && forall u, w | u in chosen && w in chosen && u.series == w.series :: u == w
    else
      (exists w :: w in chosen && w.series == v.series && Older(w, v))
      && forall u | u in chosen && IsSecond(chosen, u) :: Older(u, v)
  }

  lemma OlderTwice(a: Unit, b: Unit, c: Unit)
    ensures Older(a, b) && Older(b, c) ==> Older(a, c)
    ensures Older(a, b) && Older(b, a) ==> a.wantedId == b.wantedId
    ensures RankLe(a, b) <==> Older(a, b)
  {
    OlderExactly(a, b);
    OlderExactly(b, a);
    OlderExactly(b, c);
    OlderExactly(a, c);
    RankLeTotal();
    TextTotal(a.wantedId, b.wantedId);
    TextTotal(b.wantedId, a.wantedId);
    hide Older;
  }

  /** Where an item stands that is in a sequence and not in its beginning. */
  lemma Beyond(s: seq<Unit>, n: nat, v: Unit) returns (i: nat)
    requires v in s && v !in s[..Min(|s|, n)]
    ensures n <= i < |s| && s[i] == v
  {
    i :| 0 <= i < |s| && s[i] == v;
    BeginningHas(s, n, i);
  }

  lemma BeginningHas(s: seq<Unit>, n: nat, i: nat)
    requires i < |s|
    ensures i < n ==> s[i] in s[..Min(|s|, n)]
  {
    assert i < n ==> s[..Min(|s|, n)][i] == s[i];
  }

  lemma BehindFirst(s: seq<Unit>, t: seq<Unit>, i: nat)
    requires |s| <= i < |s + t|
    ensures (s + t)[i] == t[i - |s|]
  {
  }

  lemma UncoveredLeft(pool: seq<Unit>, quota: nat, v: Unit)
    requires Ascending(pool, RankLe) && v in pool
    requires forall w | w in Share(Spread(pool), quota) :: w.series != v.series
    ensures LeftFairly(Share(Spread(pool), quota), v)
  {
    hide RankLe, Firsts, Repeats, Older, SeriesIn;
    var (chosen, firsts) := (Share(Spread(pool), quota), Firsts(pool));
    var f := FirstOf(pool, v);
    SpreadAscending(pool);
    FirstsLead(pool);
    FirstsDistinct(pool);
    var i: nat :| i < |firsts| && firsts[i] == f;
    assert Spread(pool)[i] == f;
    BeginningHas(Spread(pool), quota, i);
    assert quota <= i;
    assert chosen == firsts[..quota];
    forall u | u in chosen
      ensures Older(u, v)
    {
      var j :| 0 <= j < quota && chosen[j] == u;
      assert firsts[j] == u;
      RankItself(u);
      assert RankLe(u, f) && RankLe(f, v);
      OlderTwice(u, f, v);
      OlderTwice(f, v, v);
    }
    forall u, w | u in chosen && w in chosen && u.series == w.series
      ensures u == w
    {
      var j :| 0 <= j < quota && chosen[j] == u;
      var k :| 0 <= k < quota && chosen[k] == w;
      assert firsts[j].series == firsts[k].series;
    }
  }

  lemma CoveredLeft(pool: seq<Unit>, quota: nat, v: Unit, c: Unit)
    requires Ascending(pool, RankLe) && DistinctIds(pool) && v in pool && v !in Share(Spread(pool), quota)
    requires c in Share(Spread(pool), quota) && c.series == v.series
    ensures LeftFairly(Share(Spread(pool), quota), v)
  {
    hide RankLe, Firsts, Repeats, Older, SeriesIn, DistinctIds;
    var (chosen, firsts, repeats) := (Share(Spread(pool), quota), Firsts(pool), Repeats(pool));
    SpreadAscending(pool);
    FirstsLead(pool);
    FirstsWithin(pool);
    var f := FirstOf(pool, v);
    OlderTwice(f, v, v);
    if quota <= |firsts| {
      assert chosen == firsts[..quota];
      assert c in firsts;
      OlderTwice(c, v, v);
      FirstsDistinct(pool);
      forall u | u in chosen
        ensures !IsSecond(chosen, u)
      {
        OnlyOfSeries(firsts, chosen, u);
      }
    } else {
      assert chosen[..|firsts|] == firsts;
      assert forall x | x in firsts :: x in chosen;
      var i := Beyond(Spread(pool), quota, v);
      forall u | u in chosen && IsSecond(chosen, u)
        ensures Older(u, v)
      {
        SecondBefore(pool, quota, u, v, i);
      }
    }
  }

  lemma OnlyOfSeries(firsts: seq<Unit>, chosen: seq<Unit>, u: Unit)
    requires u in firsts && forall w | w in chosen :: w in firsts
    requires forall i, j | 0 <= i < j < |firsts| :: firsts[i].series != firsts[j].series
    ensures !IsSecond(chosen, u)
  {
    forall w | w in firsts && w.series == u.series
      ensures w == u
    {
      var j :| 0 <= j < |firsts| && firsts[j] == u;
      var k :| 0 <= k < |firsts| && firsts[k] == w;
    }
  }

  /** The first of a series is the second of none. */
  lemma FirstNotSecond(pool: seq<Unit>, chosen: seq<Unit>)
    requires Ascending(pool, RankLe) && DistinctIds(pool) && forall w | w in chosen :: w in pool
    ensures forall u | u in Firsts(pool) :: !IsSecond(chosen, u)
  {
    hide RankLe, Firsts, Older, DistinctIds;
    FirstsLead(pool);
    FirstsWithin(pool);
    forall u, w | u in Firsts(pool) && w in chosen && w.series == u.series && Older(w, u)
      ensures w == u
    {
      OlderTwice(u, w, w);
      OlderTwice(w, u, u);
      OneUnitPerId(pool, u, w);
    }
  }

  /** A chosen unit that is not the first of its series stands before one left out. */
  /** A second of its series stands behind the firsts in what is drawn. */
  lemma SecondAt(pool: seq<Unit>, quota: nat, u: Unit) returns (j: nat)
    requires Ascending(pool, RankLe) && DistinctIds(pool)
    requires u in Share(Spread(pool), quota) && IsSecond(Share(Spread(pool), quota), u)
    ensures |Firsts(pool)| <= j < quota && j < |Spread(pool)| && Spread(pool)[j] == u
  {
    hide RankLe, Firsts, Repeats, Older, SeriesIn, DistinctIds, IsSecond;
    var (chosen, firsts) := (Share(Spread(pool), quota), Firsts(pool));
    FirstsWithin(pool);
    assert forall w | w in chosen :: w in Spread(pool);
    FirstNotSecond(pool, chosen);
    j :| 0 <= j < |chosen| && chosen[j] == u;
    assert u !in firsts;
  }

  lemma SecondBefore(pool: seq<Unit>, quota: nat, u: Unit, v: Unit, i: nat)
    requires Ascending(pool, RankLe) && DistinctIds(pool) && quota > |Firsts(pool)|
    requires u in Share(Spread(pool), quota) && IsSecond(Share(Spread(pool), quota), u)
    requires quota <= i < |Spread(pool)| && Spread(pool)[i] == v
    ensures Older(u, v)
  {
    hide RankLe, Firsts, Repeats, Older, SeriesIn, DistinctIds, IsSecond, Share;
    var (firsts, repeats) := (Firsts(pool), Repeats(pool));
    var j := SecondAt(pool, quota, u);
    SpreadAscending(pool);
    BehindFirst(firsts, repeats, j);
    BehindFirst(firsts, repeats, i);
    OlderTwice(u, v, v);
  }

  /** A stage's draw is as large as it can be, and leaves its units out fairly. */
  ghost predicate StageFair(units: seq<Unit>, chosen: seq<Unit>, stage: nat, quota: nat) {
    DistinctIds(chosen) && (forall u | u in chosen :: u in units && StageOf(u.bucket) == stage)
    && (|chosen| == quota || (|chosen| < quota && forall v | v in units && StageOf(v.bucket) == stage :: v in chosen))
    && forall v | v in units && StageOf(v.bucket) == stage && v !in chosen :: LeftFairly(chosen, v)
  }

  lemma DrawFair(units: seq<Unit>, stage: nat, quota: nat)
    requires DistinctIds(units)
    ensures StageFair(units, Draw(units, quota, stage), stage, quota)
  {
    hide RankLe, Firsts, Repeats, Older, SeriesIn, DistinctIds, SortBy, Pool, LeftFairly, StageOf;
    var pool := Pool(units, {}, stage);
    var (sorted, chosen) := (SortBy(pool, RankLe), Draw(units, quota, stage));
    RankLeTotal();
    SortSorts(pool, RankLe);
    PoolWithin(units, {}, stage);
    SubDistinct(sorted, units);
    DrawWithin(pool, quota, chosen);
    SubDistinct(chosen, units);
    SpreadMultiset(sorted);
    forall u
      ensures u in sorted <==> u in pool
    {
      assert u in multiset(sorted) <==> u in multiset(pool);
    }
    forall u | u in chosen
      ensures u in pool
    {
      assert u in multiset(chosen);
    }
    forall v | v in pool && v !in chosen
      ensures LeftFairly(chosen, v) && |chosen| == quota
    {
      if c :| c in chosen && c.series == v.series {
        CoveredLeft(sorted, quota, v, c);
      } else {
        UncoveredLeft(sorted, quota, v);
      }
      assert v in multiset(Spread(sorted));
      ShareAll(Spread(sorted), quota);
    }
  }

  lemma AllFair(units: seq<Unit>, quota: nat)
    requires DistinctIds(units)
    ensures forall n: nat | n < STAGES :: StageFair(units, Draw(units, quota, n), n, quota)
  {
    hide StageFair, Draw, DistinctIds;
    forall n: nat | n < STAGES
      ensures StageFair(units, Draw(units, quota, n), n, quota)
    {
      DrawFair(units, n, quota);
    }
  }

  // ------------------------------------------------------------------ selection

  /** What every stage in turn can fill of its quota. */
  function Quotas(units: seq<Unit>, quota: nat, n: nat): nat {
    if n == 0 then 0 else Quotas(units, quota, n - 1) + Min(quota, |Pool(units, {}, n - 1)|)
  }

  /** int(target or 50), clamped; each of the five stages gets a fifth of it, at least one. */
  function Target(target: int, n: nat): nat {
    if n == 0 then 0
    else
      var t := if target == 0 then 50 else target;
      if t < 1 then 1 else Min(t, n)
  }

  function Quota(t: nat): nat { if t == 0 then 0 else if t / STAGES < 1 then 1 else t / STAGES }

  /** The stages before n have drawn, without drawing an id twice. */
  ghost predicate Drawn(units: seq<Unit>, selected: seq<Unit>, used: set<string>, quota: nat, n: nat) {
    DistinctIds(selected) && used == Ids(selected) && |selected| == Quotas(units, quota, n)
    && forall u | u in selected :: u in units && StageOf(u.bucket) < n
  }

  lemma OneUnitPerId(units: seq<Unit>, u: Unit, v: Unit)
    requires DistinctIds(units) && u in units && v in units && u.wantedId == v.wantedId
    ensures u == v
  {
  }

  lemma {:induction false} PoolWithin(units: seq<Unit>, used: set<string>, stage: nat)
    ensures forall u ::
              u in Pool(units, used, stage) <==> u in units && u.wantedId !in used && StageOf(u.bucket) == stage
    ensures multiset(Pool(units, used, stage)) <= multiset(units)
  {
    hide StageOf;
    if units != [] {
      var (front, last) := (units[..|units| - 1], units[|units| - 1]);
      PoolWithin(front, used, stage);
      assert units == front + [last];
    }
  }

  lemma {:induction false} RemainingWithin(units: seq<Unit>, used: set<string>)
    ensures forall u :: u in Remaining(units, used) <==> u in units && u.wantedId !in used
    ensures multiset(Remaining(units, used)) <= multiset(units)
  {
    if units != [] {
      var (front, last) := (units[..|units| - 1], units[|units| - 1]);
      RemainingWithin(front, used);
      assert units == front + [last];
    }
  }

  /** Taking some of units with distinct ids, each at most as often as it occurs, keeps ids distinct. */
  lemma SubDistinct(part: seq<Unit>, units: seq<Unit>)
    requires DistinctIds(units) && multiset(part) <= multiset(units)
    ensures DistinctIds(part) && forall u | u in part :: u in units
  {
    forall u | u in part
      ensures u in units && multiset(part)[u] <= 1
    {
      assert u in multiset(part);
      OnceEach(units, u);
    }
    CountsDistinct(part);
    forall i, j | 0 <= i < j < |part|
      ensures part[i].wantedId != part[j].wantedId
    {
      if part[i].wantedId == part[j].wantedId {
        OneUnitPerId(units, part[i], part[j]);
        assert false;
      }
    }
  }

  lemma OnceEach(units: seq<Unit>, u: Unit)
    requires DistinctIds(units)
    ensures multiset(units)[u] <= 1
  {
    DistinctCounts(units, u);
  }

  /** Ids used by earlier stages take nothing from a later stage's pool. */
  lemma {:induction false} PoolUnused(part: seq<Unit>, units: seq<Unit>, selected: seq<Unit>, stage: nat)
    requires DistinctIds(units) && (forall u | u in part :: u in units)
    requires forall u | u in selected :: u in units && StageOf(u.bucket) < stage
    ensures Pool(part, Ids(selected), stage) == Pool(part, {}, stage)
  {
    hide StageOf;
    if part != [] {
      var last := part[|part| - 1];
      PoolUnused(part[..|part| - 1], units, selected, stage);
      if last.wantedId in Ids(selected) {
        var u :| u in selected && u.wantedId == last.wantedId;
        OneUnitPerId(units, u, last);
      }
    }
  }

  /** One stage's draw: oldest first, distinct series first, up to the quota. */
  method DrawStage(units: seq<Unit>, used: set<string>, stage: nat, quota: nat) returns (chosen: seq<Unit>)
    ensures chosen == Share(Spread(SortBy(Pool(units, used, stage), RankLe)), quota)
  {
    hide Pool, SortBy, Spread;
    var pool: seq<Unit> := [];
    PoolNone(used, stage);
    assert units[..0] == [];
    for i := 0 to |units|
      invariant pool == Pool(units[..i], used, stage)
    {
      PoolNext(units, used, stage, i);
      if units[i].wantedId !in used && StageOf(units[i].bucket) == stage {
        pool := pool + [units[i]];
      }
    }
    assert units[..|units|] == units;
    var spread := SpreadSeries(SortBy(pool, RankLe));
    chosen := if |spread| <= quota then spread else spread[..quota];
  }

  lemma PoolNone(used: set<string>, stage: nat)
    ensures Pool([], used, stage) == [] && Remaining([], used) == []
  {
  }

  lemma PoolNext(units: seq<Unit>, used: set<string>, stage: nat, i: nat)
    requires i < |units|
    ensures Pool(units[..i + 1], used, stage)
            == if units[i].wantedId !in used && StageOf(units[i].bucket) == stage
               then Pool(units[..i], used, stage) + [units[i]] else Pool(units[..i], used, stage)
    ensures Remaining(units[..i + 1], used)
            == if units[i].wantedId !in used then Remaining(units[..i], used) + [units[i]]
               else Remaining(units[..i], used)
  {
    hide StageOf;
    assert units[..i + 1][..i] == units[..i];
  }

  lemma DrawWithin(pool: seq<Unit>, quota: nat, chosen: seq<Unit>)
    requires chosen == Share(Spread(SortBy(pool, RankLe)), quota)
    ensures multiset(chosen) <= multiset(pool) && |chosen| == Min(quota, |pool|)
  {
    hide SortBy, Spread, RankLe;
    RankLeTotal();
    SortSorts(pool, RankLe);
    SpreadMultiset(SortBy(pool, RankLe));
    hide Share;
    ShareWithin(Spread(SortBy(pool, RankLe)), quota);
  }

  lemma ShareWithin<T>(s: seq<T>, n: nat)
    ensures multiset(Share(s, n)) <= multiset(s) && |Share(s, n)| == Min(n, |s|)
  {
    assert s == Share(s, n) + s[|Share(s, n)|..];
  }

  lemma SpreadMultiset(pool: seq<Unit>)
    ensures multiset(Spread(pool)) == multiset(pool) && |Spread(pool)| == |pool|
  {
    SpreadKeeps(pool);
  }

  lemma NextStage(units: seq<Unit>, selected: seq<Unit>, used: set<string>, quota: nat, n: nat, chosen: seq<Unit>)
    requires DistinctIds(units) && Drawn(units, selected, used, quota, n)
    requires chosen == Share(Spread(SortBy(Pool(units, used, n), RankLe)), quota)
    ensures Drawn(units, selected + chosen, used + Ids(chosen), quota, n + 1)
  {
    hide SortBy, Spread, RankLe, Pool, StageOf, DistinctIds;
    var pool := Pool(units, used, n);
    DrawWithin(pool, quota, chosen);
    PoolWithin(units, used, n);
    PoolUnused(units, units, selected, n);
    SubDistinct(chosen, units);
    forall u | u in chosen
      ensures u in units && u.wantedId !in used && StageOf(u.bucket) == n
    {
      assert u in multiset(chosen);
      assert u in pool;
    }
    JoinDistinct(selected, chosen);
  }

  lemma JoinDistinct(a: seq<Unit>, b: seq<Unit>)
    requires DistinctIds(a) && DistinctIds(b) && forall u | u in b :: u.wantedId !in Ids(a)
    ensures DistinctIds(a + b) && Ids(a + b) == Ids(a) + Ids(b)
  {
    assert forall i | 0 <= i < |a| :: a[i].wantedId in Ids(a);
  }

  /** What a stage draws, whatever the stages before it drew. */
  function Draw(units: seq<Unit>, quota: nat, stage: nat): seq<Unit> {
    Share(Spread(SortBy(Pool(units, {}, stage), RankLe)), quota)
  }

  /** The draws of the stages before n, one after another. */
  function StagePicks(units: seq<Unit>, quota: nat, n: nat): seq<Pick> {
    if n == 0 then [] else StagePicks(units, quota, n - 1) + Tagged(Draw(units, quota, n - 1), n - 1)
  }

  lemma UnitsOfPicks(a: seq<Pick>, b: seq<Unit>, stage: nat)
    ensures Units(a + Tagged(b, stage)) == Units(a) + b
  {
  }

  lemma SameDraw(units: seq<Unit>, selected: seq<Unit>, used: set<string>, quota: nat, n: nat)
    requires DistinctIds(units) && Drawn(units, selected, used, quota, n)
    ensures Pool(units, used, n) == Pool(units, {}, n)
  {
    PoolUnused(units, units, selected, n);
  }

  lemma NothingDrawn(units: seq<Unit>, quota: nat)
    ensures Drawn(units, [], {}, quota, 0) && Units([]) == [] && Ids([]) == {}
  {
  }

  /** The draws of all stages, in turn. */
  method DrawStages(units: seq<Unit>, quota: nat)
    returns (selected: seq<Pick>, used: set<string>, shortfalls: map<nat, (nat, nat)>)
    requires DistinctIds(units)
    ensures selected == StagePicks(units, quota, STAGES) && Drawn(units, Units(selected), used, quota, STAGES)
    ensures forall s: nat :: s in shortfalls <==> s < STAGES && |Pool(units, {}, s)| < quota
    ensures forall s | s in shortfalls :: shortfalls[s] == (quota, |Pool(units, {}, s)|)
  {
    hide Pool, SortBy, Spread, Share, StageOf, DistinctIds, Drawn, Units, Tagged;
    selected, used, shortfalls := [], {}, map[];
    NothingDrawn(units, quota);
    for n := 0 to STAGES
      invariant selected == StagePicks(units, quota, n) && Drawn(units, Units(selected), used, quota, n)
      invariant forall s: nat :: s in shortfalls <==> s < n && |Pool(units, {}, s)| < quota
      invariant forall s | s in shortfalls :: shortfalls[s] == (quota, |Pool(units, {}, s)|)
    {
      var chosen := DrawStage(units, used, n, quota);
      SameDraw(units, Units(selected), used, quota, n);
      NextStage(units, Units(selected), used, quota, n, chosen);
      DrawWithin(Pool(units, used, n), quota, chosen);
      UnitsOfPicks(selected, chosen, n);
      if |chosen| < quota {
        shortfalls := shortfalls[n := (quota, |chosen|)];
      }
      selected := selected + Tagged(chosen, n);
      used := used + Ids(chosen);
    }
  }

  /** _mixed_recovery_cohort: the stages' draws, then a fair fill up to the target. */
  method MixedRecoveryCohort(units: seq<Unit>, target: int)
    returns (selected: seq<Pick>, shortfalls: map<nat, (nat, nat)>, ghost fill: seq<Unit>)
    requires DistinctIds(units)
    ensures var (t, quota) := (Target(target, |units|), Quota(Target(target, |units|)));
            selected == StagePicks(units, quota, STAGES) + Tagged(fill, STAGES)
            && |selected| == (if Quotas(units, quota, STAGES) <= t then t else Quotas(units, quota, STAGES))
            && FairCohort(Remaining(units, Ids(Units(StagePicks(units, quota, STAGES)))), fill)
            && (forall n: nat | n < STAGES :: StageFair(units, Draw(units, quota, n), n, quota))
            && (forall s: nat :: s in shortfalls <==> s < STAGES && |Pool(units, {}, s)| < quota)
    ensures DistinctIds(Units(selected)) && forall u | u in Units(selected) :: u in units
  {
    hide Pool, SortBy, Spread, Share, StageOf, DistinctIds, Units, Tagged, Stratified, StagePicks, FairCohort;
    hide StageFair;
    hide Draw, Fair;
    var t := Target(target, |units|);
    var used: set<string>;
    selected, used, shortfalls := DrawStages(units, Quota(t));
    ghost var drawn := Units(selected);
    var remaining := Unused(units, used);
    RemainingCount(units, drawn);
    RemainingWithin(units, used);
    var chosen: seq<Unit>;
    ghost var k, m;
    chosen, k, m := StratifiedCohort(remaining, t - |selected|);
    fill := chosen;
    FairWithin(remaining, chosen);
    AllFair(units, Quota(t));
    FillDistinct(units, remaining, drawn, chosen);
    UnitsOfPicks(selected, chosen, STAGES);
    JoinDistinct(drawn, chosen);
    selected := selected + Tagged(chosen, STAGES);
  }

  lemma FairWithin(units: seq<Unit>, chosen: seq<Unit>)
    requires FairCohort(units, chosen)
    ensures multiset(chosen) <= multiset(units)
  {
  }

  lemma FillDistinct(units: seq<Unit>, remaining: seq<Unit>, drawn: seq<Unit>, chosen: seq<Unit>)
    requires DistinctIds(units) && remaining == Remaining(units, Ids(drawn)) && multiset(chosen) <= multiset(remaining)
    ensures DistinctIds(chosen) && forall u | u in chosen :: u in units && u.wantedId !in Ids(drawn)
  {
    hide DistinctIds, Ids;
    RemainingWithin(units, Ids(drawn));
    SubDistinct(chosen, units);
    forall u | u in chosen
      ensures u.wantedId !in Ids(drawn)
    {
      assert u in multiset(chosen);
      assert u in remaining;
    }
  }

  method Unused(units: seq<Unit>, used: set<string>) returns (remaining: seq<Unit>)
    ensures remaining == Remaining(units, used)
  {
    hide Remaining, Pool;
    remaining := [];
    PoolNone(used, 0);
    assert units[..0] == [];
    for i := 0 to |units|
      invariant remaining == Remaining(units[..i], used)
    {
      PoolNext(units, used, 0, i);
      if units[i].wantedId !in used {
        remaining := remaining + [units[i]];
      }
    }
    assert units[..|units|] == units;
  }

  /** With distinct ids, what is drawn and what remains add up. */
  lemma RemainingCount(units: seq<Unit>, drawn: seq<Unit>)
    requires DistinctIds(units) && DistinctIds(drawn) && forall u | u in drawn :: u in units
    ensures |Remaining(units, Ids(drawn))| + |drawn| == |units|
  {
    hide DistinctIds, Remaining;
    RemainingAndUsed(units, Ids(drawn));
    IdCount(drawn);
    assert Ids(drawn) * Ids(units) == Ids(drawn);
  }

  lemma {:induction false} RemainingAndUsed(units: seq<Unit>, used: set<string>)
    requires DistinctIds(units)
    ensures |Remaining(units, used)| + |used * Ids(units)| == |units|
  {
    hide Ids, DistinctIds;
    if units == [] {
      assert Ids(units) == {} by { NothingDrawn(units, 0); }
    } else {
      var (front, last) := (units[..|units| - 1], units[|units| - 1]);
      assert units == front + [last];
      IdsNext(front, last);
      RemainingAndUsed(front, used);
      OneMore(used, Ids(front), last.wantedId);
    }
  }

  lemma IdsNext(front: seq<Unit>, last: Unit)
    ensures Ids(front + [last]) == Ids(front) + {last.wantedId}
    ensures DistinctIds(front + [last]) ==> last.wantedId !in Ids(front) && DistinctIds(front)
  {
    var all := front + [last];
    assert forall i | 0 <= i < |front| :: all[i] == front[i];
    assert all[|front|] == last;
  }

  lemma OneMore<T>(used: set<T>, a: set<T>, x: T)
    requires x !in a
    ensures |used * (a + {x})| == |used * a| + if x in used then 1 else 0
  {
    assert used * (a + {x}) == used * a + if x in used then {x} else {};
  }

  lemma {:induction false} IdCount(units: seq<Unit>)
    requires DistinctIds(units)
    ensures |Ids(units)| == |units|
  {
    if units != [] {
      var (front, last) := (units[..|units| - 1], units[|units| - 1]);
      IdCount(front);
      assert units == front + [last];
      assert Ids(units) == Ids(front) + {last.wantedId};
      assert last.wantedId !in Ids(front);
    }
  }

  // -------------------------------------------------------------- exact size

  /** The stages that have a unit. */
  function Occupied(units: seq<Unit>, n: nat): nat {
    if n == 0 then 0 else Occupied(units, n - 1) + if Pool(units, {}, n - 1) == [] then 0 else 1
  }

  lemma {:induction false} QuotasBounded(units: seq<Unit>, quota: nat, n: nat)
    ensures Quotas(units, quota, n) <= n * quota
  {
    if n > 0 {
      QuotasBounded(units, quota, n - 1);
      assert n * quota == (n - 1) * quota + quota;
    }
  }

  lemma {:induction false} QuotasOfOne(units: seq<Unit>, n: nat)
    ensures Quotas(units, 1, n) == Occupied(units, n)
  {
    if n > 0 {
      QuotasOfOne(units, n - 1);
    }
  }

  /**
    The stages' quotas fit the clamped target exactly when it is at least five
    or at least as large as the number of occupied stages.
   */
  lemma QuotasFitExactly(units: seq<Unit>, target: int)
    ensures var t := Target(target, |units|);
            Quotas(units, Quota(t), STAGES) <= t <==> t >= STAGES || Occupied(units, STAGES) <= t
  {
    var t := Target(target, |units|);
    QuotasBounded(units, Quota(t), STAGES);
    QuotasOfOne(units, STAGES);
    if t == 0 {
      assert units == [];
      OccupiedNone(STAGES);
    }
  }

  lemma {:induction false} OccupiedNone(n: nat)
    ensures Occupied([], n) == 0
  {
    if n > 0 {
      OccupiedNone(n - 1);
    }
  }
}
