/**
  What the merge preview reports (core/inkdrop_backup_restore.py), said of the
  tables themselves: which backup rows are counted and shown as new, as matched
  and as to be reviewed, across the series pass and the issue pass.
 */
module MergeReport {
  import opened Outcomes
  import opened MergePreview

  // --------------------------------------------------------------- live rivals

  /** This live row has the backup row's identity, within a scope. */
  predicate Shares(live: LiveRow, scope: Id, row: Row) {
    !AllBlank(row.provider) && !AllBlank(row.externalId)
    && live.key.scope == scope && live.key.provider == Strip(row.provider)
    && live.key.externalId == Strip(row.externalId)
  }

  /** Where the live rows with the backup row's identity stand. */
  function Rivals(live: seq<LiveRow>, scope: Id, row: Row): set<nat> {
    set i: nat | i < |live| && Shares(live[i], scope, row)
  }

  /** The i-th live row is the only one. */
  predicate Sole(live: seq<LiveRow>, scope: Id, row: Row, i: nat) { i < |live| && Rivals(live, scope, row) == {i} }

  /** How many of these numbers are smaller. */
  function Rank(s: set<nat>, k: nat): nat { |set i | i in s && i < k| }

  lemma RivalsArePositions(live: seq<LiveRow>, scope: Id, row: Row)
    ensures var key := IdentityKey(scope, row.provider, row.externalId);
            Rivals(live, scope, row) == if key.None? then {} else Positions(live, key.value)
  {
    hide Strip, AllBlank;
    IdentityIsTrimmed(scope, row.provider, row.externalId);
  }

  /** The looked-up ids are those of the rivals, in the order of the scan. */
  lemma {:induction false} MatchesInOrder(live: seq<LiveRow>, key: Key, i: nat)
    requires i < |live| && live[i].key == key
    ensures Rank(Positions(live, key), i) < |Matches(live, key)|
    ensures Matches(live, key)[Rank(Positions(live, key), i)] == live[i].id
  {
    var n := |live| - 1;
    if i < n {
      MatchesInOrder(live[..n], key, i);
      assert (set j | j in Positions(live, key) && j < i) == set j | j in Positions(live[..n], key) && j < i;
    } else {
      MatchesCount(live[..n], key);
      assert (set j | j in Positions(live, key) && j < n) == Positions(live[..n], key);
    }
  }

  /** A lookup's verdict, by the number of rivals: the one row that matches, or the first five that might. */
  ghost predicate Names(live: seq<LiveRow>, scope: Id, row: Row, v: Verdict) {
    var rivals := Rivals(live, scope, row);
    match v
    case New => rivals == {}
    case Matched(target) => exists i: nat :: Sole(live, scope, row, i) && target == live[i].id
    case Ambiguous(candidates) =>
      |rivals| > 1 && |candidates| == (if |rivals| < 5 then |rivals| else 5)
      && forall i: nat | i in rivals && Rank(rivals, i) < 5 ::
           Rank(rivals, i) < |candidates| && candidates[Rank(rivals, i)] == live[i].id
    case _ => false
  }

  lemma LookupNames(live: seq<LiveRow>, scope: Id, row: Row)
    ensures Names(live, scope, row, Scan(live, Lookup(IdentityKey(scope, row.provider, row.externalId))))
  {
    RivalsArePositions(live, scope, row);
    var key := IdentityKey(scope, row.provider, row.externalId);
    hide Rivals, IdentityKey, Positions, Matches;
    if key.Some? {
      var rivals := Rivals(live, scope, row);
      MatchesCount(live, key.value);
      if |rivals| == 1 {
        var i := OnlyMember(rivals);
        assert i in rivals;
        PositionIn(live, key.value);
        MatchNamesTheRow(live, key.value, i);
        assert Sole(live, scope, row, i);
      }
      PositionIn(live, key.value);
      forall i: nat | i in rivals
        ensures Rank(rivals, i) < |Matches(live, key.value)| && Matches(live, key.value)[Rank(rivals, i)] == live[i].id
      {
        MatchesInOrder(live, key.value, i);
      }
    }
  }

  lemma PositionIn(live: seq<LiveRow>, key: Key)
    ensures forall i: nat | i in Positions(live, key) :: i < |live| && live[i].key == key
  {
  }

  lemma OnlyMember(s: set<nat>) returns (x: nat)
    requires |s| == 1
    ensures s == {x}
  {
    x :| x in s;
    assert |s - {x}| == 0;
  }

  // ------------------------------------------------------------- whole reports

  /** A summary shows these members of a stream: it counts them all and shows the first of them, in order. */
  ghost predicate Shows(summary: Summary, s: seq<Sample>, members: set<nat>, limit: int) {
    summary.count == |members|
    && |summary.sample| == (if limit < 0 then 0 else if |members| < limit then |members| else limit)
    && (summary.truncated <==> |summary.sample| < summary.count)
    && forall k: nat | k in members && k < |s| && Rank(members, k) < |summary.sample| ::
         summary.sample[Rank(members, k)] == s[k]
  }

  /** The places of a bucket's rows in the stream. */
  function Places(s: seq<Sample>, b: Bucket): set<nat> { set k: nat | k < |s| && BucketOf(s[k].verdict) == b }

  lemma {:induction false} OnlyCounts(s: seq<Sample>, b: Bucket)
    ensures |Only(s, b)| == |Places(s, b)|
  {
    if s != [] {
      var n := |s| - 1;
      OnlyCounts(s[..n], b);
      assert Places(s, b) == Places(s[..n], b) + if BucketOf(s[n].verdict) == b then {n} else {};
    }
  }

  lemma OnlyPlaces(s: seq<Sample>, b: Bucket, k: nat)
    requires k in Places(s, b)
    ensures var r := Rank(Places(s, b), k);
            r < |Only(s, b)| && Only(s, b)[r] == s[k]
  {
    OnlyInOrder(s, k, b);
    OnlyCounts(s[..k], b);
    assert Places(s[..k], b) == set i | i in Places(s, b) && i < k;
  }

  lemma SummaryShows(s: seq<Sample>, b: Bucket, limit: int)
    ensures Shows(SummaryOf(Only(s, b), limit), s, Places(s, b), limit)
  {
    hide Only;
    OnlyCounts(s, b);
    forall k: nat | k in Places(s, b)
      ensures Rank(Places(s, b), k) < |Only(s, b)| && Only(s, b)[Rank(Places(s, b), k)] == s[k]
    {
      OnlyPlaces(s, b, k);
    }
  }

  /** The three summaries of a stream of samples. */
  ghost predicate Tells(r: Report, s: seq<Sample>, newcomers: set<nat>, matched: set<nat>, review: set<nat>,
                        limit: int) {
    r.total == |s| && Shows(r.newcomers, s, newcomers, limit) && Shows(r.matched, s, matched, limit)
    && Shows(r.review, s, review, limit)
  }

  lemma NaiveTells(s: seq<Sample>, limit: int)
    ensures Tells(NaiveReport(s, limit), s, Places(s, ToNew), Places(s, ToMatched), Places(s, ToReview), limit)
  {
    SummaryShows(s, ToNew, limit);
    SummaryShows(s, ToMatched, limit);
    SummaryShows(s, ToReview, limit);
  }

  // ------------------------------------------------------------------- the series

  /** Backup series by the number of live series with their identity: none, one, several. */
  function SeriesNew(live: seq<LiveRow>, rows: seq<Row>): set<nat> {
    set k: nat | k < |rows| && Rivals(live, "", rows[k]) == {}
  }

  function SeriesMatched(live: seq<LiveRow>, rows: seq<Row>): set<nat> {
    set k: nat | k < |rows| && |Rivals(live, "", rows[k])| == 1
  }

  function SeriesReview(live: seq<LiveRow>, rows: seq<Row>): set<nat> {
    set k: nat | k < |rows| && |Rivals(live, "", rows[k])| >= 2
  }

  /** The samples of these series, each with what its rivals make of it, and the report of them. */
  ghost predicate SeriesTold(live: seq<LiveRow>, rows: seq<Row>, s: seq<Sample>, r: Report, limit: int) {
    |s| == |rows| && (forall k | 0 <= k < |s| :: s[k].row == rows[k] && Names(live, "", rows[k], s[k].verdict))
    && Tells(r, s, SeriesNew(live, rows), SeriesMatched(live, rows), SeriesReview(live, rows), limit)
  }

  lemma SoleCounts(live: seq<LiveRow>, scope: Id, row: Row)
    ensures |Rivals(live, scope, row)| == 1 <==> exists i: nat :: Sole(live, scope, row, i)
  {
    if |Rivals(live, scope, row)| == 1 {
      var i := OnlyMember(Rivals(live, scope, row));
      assert i in Rivals(live, scope, row) && Sole(live, scope, row, i);
    }
  }

  ghost predicate FitsSeries(live: seq<LiveRow>, row: Row, v: Verdict) {
    Names(live, "", row, v)
    && BucketOf(v) == if Rivals(live, "", row) == {} then ToNew
                      else if |Rivals(live, "", row)| == 1 then ToMatched else ToReview
  }

  /** Each series is told by its rivals. */
  lemma SeriesVerdict(live: seq<LiveRow>, row: Row)
    ensures FitsSeries(live, row, Scan(live, SeriesEntry(row).disposition))
  {
    LookupNames(live, "", row);
    SoleCounts(live, "", row);
    hide Rivals, Scan, IdentityKey;
  }

  lemma SeriesReport(live: seq<LiveRow>, rows: seq<Row>, limit: int)
    ensures var s := Scanned(live, SeriesEntries(rows));
            SeriesTold(live, rows, s, NaiveReport(s, limit), limit)
  {
    var s := Scanned(live, SeriesEntries(rows));
    SeriesStream(live, rows);
    NaiveTells(s, limit);
    SeriesPlaces(live, rows, s);
    hide Rivals, Tells, NaiveReport, Scanned, BucketOf, Names, SeriesEntries, Scan, Places;
    hide SeriesNew, SeriesMatched, SeriesReview;
  }

  lemma SeriesStream(live: seq<LiveRow>, rows: seq<Row>)
    ensures var s := Scanned(live, SeriesEntries(rows));
            |s| == |rows| && forall k | 0 <= k < |s| :: s[k].row == rows[k] && FitsSeries(live, rows[k], s[k].verdict)
  {
    hide Rivals, Scan, SeriesEntry, FitsSeries;
    forall k | 0 <= k < |rows|
      ensures FitsSeries(live, rows[k], Scan(live, SeriesEntry(rows[k]).disposition))
    {
      SeriesVerdict(live, rows[k]);
    }
    SeriesRow(live, rows);
  }

  lemma SeriesRow(live: seq<LiveRow>, rows: seq<Row>)
    ensures forall k | 0 <= k < |rows| ::
              Scanned(live, SeriesEntries(rows))[k] == Sample(rows[k], Scan(live, SeriesEntry(rows[k]).disposition))
  {
    hide Scan;
  }

  lemma SeriesPlaces(live: seq<LiveRow>, rows: seq<Row>, s: seq<Sample>)
    requires |s| == |rows| && forall k | 0 <= k < |s| :: FitsSeries(live, rows[k], s[k].verdict)
    ensures Places(s, ToNew) == SeriesNew(live, rows) && Places(s, ToMatched) == SeriesMatched(live, rows)
    ensures Places(s, ToReview) == SeriesReview(live, rows)
  {
    hide Rivals, BucketOf, Names;
  }

  // ------------------------------------------------------------------- the issues

  /** The i-th backup series is the issue's own, and several live series have its identity. */
  predicate Doubtful(live: seq<LiveRow>, series: seq<Row>, issue: Row, i: nat) {
    i < |series| && series[i].id == issue.parent && |Rivals(live, "", series[i])| >= 2
  }

  /** The i-th backup series is the issue's own, and the j-th live series alone has its identity. */
  predicate Within(live: seq<LiveRow>, series: seq<Row>, issue: Row, i: nat, j: nat) {
    i < |series| && series[i].id == issue.parent && Sole(live, "", series[i], j)
  }

  /** Under review: the series is in doubt, or several issues of its live series have the issue's identity. */
  ghost predicate IsReviewed(liveSeries: seq<LiveRow>, liveIssues: seq<LiveRow>, series: seq<Row>, issue: Row) {
    (exists i: nat :: Doubtful(liveSeries, series, issue, i))
    || exists i: nat, j: nat ::
        Within(liveSeries, series, issue, i, j) && |Rivals(liveIssues, liveSeries[j].id, issue)| >= 2
  }

  /** Matched: one issue of its live series has its identity. */
  ghost predicate IsMatched(liveSeries: seq<LiveRow>, liveIssues: seq<LiveRow>, series: seq<Row>, issue: Row) {
    exists i: nat, j: nat ::
        Within(liveSeries, series, issue, i, j) && |Rivals(liveIssues, liveSeries[j].id, issue)| == 1
  }

  predicate OneRowPerId(rows: seq<Row>) { forall a, b | 0 <= a < b < |rows| :: rows[a].id != rows[b].id }

  /** Where the issue's own series stands, if the backup has it. */
  lemma ParentFound(series: seq<Row>, issue: Row) returns (i: Option<nat>)
    ensures i.Some? ==> i.value < |series| && series[i.value].id == issue.parent
    ensures i.None? ==> forall k | 0 <= k < |series| :: series[k].id != issue.parent
  {
    if k :| 0 <= k < |series| && series[k].id == issue.parent {
      i := Some(k);
    } else {
      i := None;
    }
  }

  function IssueVerdict(liveSeries: seq<LiveRow>, liveIssues: seq<LiveRow>, series: seq<Row>, issue: Row): Verdict {
    var s := Scanned(liveSeries, SeriesEntries(series));
    Scan(liveIssues, IssueEntry(issue, MatchedOf(s), AmbiguousOf(s)).disposition)
  }

  /** An issue's verdict: by its series, or by its own rivals within the live series that matched. */
  ghost predicate IssueSays(liveSeries: seq<LiveRow>, liveIssues: seq<LiveRow>, series: seq<Row>, issue: Row,
                            v: Verdict) {
    (v.ParentReview? <==> exists i: nat :: Doubtful(liveSeries, series, issue, i))
    && (v.ParentNew? <==> (forall i: nat :: !Doubtful(liveSeries, series, issue, i))
                          && forall i: nat, j: nat :: !Within(liveSeries, series, issue, i, j))
    && forall i: nat, j: nat | Within(liveSeries, series, issue, i, j) ::
         Names(liveIssues, liveSeries[j].id, issue, v)
  }

  lemma IssueTold(liveSeries: seq<LiveRow>, liveIssues: seq<LiveRow>, series: seq<Row>, issue: Row)
    requires OneRowPerId(series)
    ensures IssueSays(liveSeries, liveIssues, series, issue, IssueVerdict(liveSeries, liveIssues, series, issue))
  {
    var parent := ParentFound(series, issue);
    if parent.None? {
      OrphanIsNew(liveSeries, series, issue);
    } else {
      ParentTells(liveSeries, liveIssues, series, issue, parent.value);
      ParentCases(liveSeries, series, issue, parent.value);
      hide Rivals, IssueVerdict, Names;
      var rivals := Rivals(liveSeries, "", series[parent.value]);
      assert rivals == {} <==> |rivals| == 0;
    }
  }

  lemma ParentCases(live: seq<LiveRow>, series: seq<Row>, issue: Row, i: nat)
    requires i < |series| && series[i].id == issue.parent && OneRowPerId(series)
    ensures (exists k: nat :: Doubtful(live, series, issue, k)) <==> |Rivals(live, "", series[i])| >= 2
    ensures (exists k: nat, j: nat :: Within(live, series, issue, k, j)) <==> |Rivals(live, "", series[i])| == 1
  {
    SoleCounts(live, "", series[i]);
    hide Rivals;
    assert Doubtful(live, series, issue, i) <==> |Rivals(live, "", series[i])| >= 2;
    assert forall j: nat :: Within(live, series, issue, i, j) <==> Sole(live, "", series[i], j);
  }

  lemma ParentTells(liveSeries: seq<LiveRow>, liveIssues: seq<LiveRow>, series: seq<Row>, issue: Row, i: nat)
    requires OneRowPerId(series) && i < |series| && series[i].id == issue.parent
    ensures var (v, rivals) := (IssueVerdict(liveSeries, liveIssues, series, issue), Rivals(liveSeries, "", series[i]));
            (v.ParentReview? <==> |rivals| >= 2) && (v.ParentNew? <==> rivals == {})
            && forall j: nat | Sole(liveSeries, "", series[i], j) :: Names(liveIssues, liveSeries[j].id, issue, v)
    ensures forall k | 0 <= k < |series| && series[k].id == issue.parent :: k == i
  {
    IssueFollowsItsSeries(liveSeries, series, issue, i);
    SeriesVerdict(liveSeries, series[i]);
    var sv := Scan(liveSeries, SeriesEntry(series[i]).disposition);
    SoleCounts(liveSeries, "", series[i]);
    SeriesNeverSettled(liveSeries, series[i]);
    if sv.Matched? {
      var j: nat :| Sole(liveSeries, "", series[i], j) && sv.target == liveSeries[j].id;
      LookupNames(liveIssues, liveSeries[j].id, issue);
      LookupNeverSettled(liveIssues, IdentityKey(liveSeries[j].id, issue.provider, issue.externalId));
      forall q: nat | Sole(liveSeries, "", series[i], q)
        ensures q == j
      {
        assert q in {j};
      }
    }
    hide Rivals, IdentityKey, MatchedOf, AmbiguousOf, SeriesEntry;
  }

  lemma LookupNeverSettled(live: seq<LiveRow>, key: Option<Key>)
    ensures var v := Scan(live, Lookup(key)); !v.ParentNew? && !v.ParentReview?
  {
  }

  /** The bucket of an issue. */
  lemma IssueBucket(liveSeries: seq<LiveRow>, liveIssues: seq<LiveRow>, series: seq<Row>, issue: Row)
    requires OneRowPerId(series)
    ensures BucketOf(IssueVerdict(liveSeries, liveIssues, series, issue))
            == if IsReviewed(liveSeries, liveIssues, series, issue) then ToReview
               else if IsMatched(liveSeries, liveIssues, series, issue) then ToMatched
               else ToNew
  {
    IssueTold(liveSeries, liveIssues, series, issue);
    var v := IssueVerdict(liveSeries, liveIssues, series, issue);
    forall i: nat, j: nat | Within(liveSeries, series, issue, i, j)
      ensures |Rivals(liveIssues, liveSeries[j].id, issue)| == 1 <==> v.Matched?
    {
      SoleCounts(liveIssues, liveSeries[j].id, issue);
    }
    hide Rivals, IssueVerdict, Doubtful;
    if i: nat, j: nat :| Within(liveSeries, series, issue, i, j) {
      OneParent(liveSeries, series, issue, i, j);
    }
  }

  /** A series in doubt is not matched, and a matched one by one live row. */
  lemma OneParent(live: seq<LiveRow>, series: seq<Row>, issue: Row, i: nat, j: nat)
    requires OneRowPerId(series) && Within(live, series, issue, i, j)
    ensures forall k: nat :: !Doubtful(live, series, issue, k)
    ensures forall k: nat, q: nat :: Within(live, series, issue, k, q) ==> k == i && q == j
  {
    hide Rivals;
    forall k: nat, q: nat | Within(live, series, issue, k, q)
      ensures k == i && q == j
    {
      assert q in {j};
    }
  }

  /** Which issues go where. */
  ghost predicate Sorted(liveSeries: seq<LiveRow>, liveIssues: seq<LiveRow>, series: seq<Row>, issues: seq<Row>,
                         newcomers: set<nat>, matched: set<nat>, review: set<nat>)
  {
    (forall k: nat :: k in review <==> k < |issues| && IsReviewed(liveSeries, liveIssues, series, issues[k]))
    && (forall k: nat :: k in matched <==> k < |issues| && k !in review
                                           && IsMatched(liveSeries, liveIssues, series, issues[k]))
    && forall k: nat :: k in newcomers <==> k < |issues| && k !in review && k !in matched
  }

  /** The samples of these issues, each with its verdict, and the report of them. */
  ghost predicate IssuesTold(liveSeries: seq<LiveRow>, liveIssues: seq<LiveRow>, series: seq<Row>, issues: seq<Row>,
                             s: seq<Sample>, r: Report, limit: int)
  {
    |s| == |issues|
    && (forall k | 0 <= k < |s| ::
          s[k].row == issues[k] && IssueSays(liveSeries, liveIssues, series, issues[k], s[k].verdict))
    && exists newcomers, matched, review ::
         Sorted(liveSeries, liveIssues, series, issues, newcomers, matched, review)
         && Tells(r, s, newcomers, matched, review, limit)
  }

  /** The stream of the issue pass. */
  function IssueStream(liveSeries: seq<LiveRow>, liveIssues: seq<LiveRow>, series: seq<Row>,
                       issues: seq<Row>): seq<Sample> {
    var s := Scanned(liveSeries, SeriesEntries(series));
    Scanned(liveIssues, IssueEntries(issues, MatchedOf(s), AmbiguousOf(s)))
  }

  lemma StreamVerdicts(liveSeries: seq<LiveRow>, liveIssues: seq<LiveRow>, series: seq<Row>, issues: seq<Row>)
    ensures var s := IssueStream(liveSeries, liveIssues, series, issues);
            |s| == |issues|
            && forall k | 0 <= k < |s| ::
                 s[k] == Sample(issues[k], IssueVerdict(liveSeries, liveIssues, series, issues[k]))
  {
  }

  lemma StreamSorted(liveSeries: seq<LiveRow>, liveIssues: seq<LiveRow>, series: seq<Row>, issues: seq<Row>,
                     s: seq<Sample>)
    requires OneRowPerId(series) && |s| == |issues|
    requires forall k | 0 <= k < |s| ::
               s[k].verdict == IssueVerdict(liveSeries, liveIssues, series, issues[k])
    ensures Sorted(liveSeries, liveIssues, series, issues, Places(s, ToNew), Places(s, ToMatched), Places(s, ToReview))
  {
    hide IsReviewed, IsMatched, IssueVerdict, BucketOf;
    forall k: nat | k < |issues|
      ensures BucketOf(s[k].verdict)
              == if IsReviewed(liveSeries, liveIssues, series, issues[k]) then ToReview
                 else if IsMatched(liveSeries, liveIssues, series, issues[k]) then ToMatched
                 else ToNew
    {
      IssueBucket(liveSeries, liveIssues, series, issues[k]);
    }
  }

  lemma IssueReport(liveSeries: seq<LiveRow>, liveIssues: seq<LiveRow>, series: seq<Row>, issues: seq<Row>, limit: int)
    requires OneRowPerId(series)
    ensures var s := IssueStream(liveSeries, liveIssues, series, issues);
            IssuesTold(liveSeries, liveIssues, series, issues, s, NaiveReport(s, limit), limit)
  {
    var s := IssueStream(liveSeries, liveIssues, series, issues);
    hide Sorted, Tells, IssueSays, OneRowPerId, NaiveReport, IssueVerdict, IssueStream, Places;
    StreamVerdicts(liveSeries, liveIssues, series, issues);
    NaiveTells(s, limit);
    StreamSorted(liveSeries, liveIssues, series, issues, s);
    forall k | 0 <= k < |s|
      ensures IssueSays(liveSeries, liveIssues, series, issues[k], s[k].verdict)
    {
      IssueTold(liveSeries, liveIssues, series, issues[k]);
    }
  }

  lemma StreamIs(liveSeries: seq<LiveRow>, liveIssues: seq<LiveRow>, series: seq<Row>, issues: seq<Row>)
    ensures var s := Scanned(liveSeries, SeriesEntries(series));
            IssueStream(liveSeries, liveIssues, series, issues)
            == Scanned(liveIssues, IssueEntries(issues, MatchedOf(s), AmbiguousOf(s)))
  {
  }

  /**
    The preview: both passes, one after the other.  A series is new, matched or to
    be reviewed as none, one or several live series have its identity; an issue is
    to be reviewed if its series is, or if several issues of the one live series
    have its identity, matched if one has, and new in every other case.
   */
  method PreviewBackupMerge(liveSeries: seq<LiveRow>, liveIssues: seq<LiveRow>, series: Option<seq<Row>>,
                            issues: Option<seq<Row>>, limit: int)
    returns (r: Result<(Report, Report)>, ghost first: seq<Sample>, ghost second: seq<Sample>)
    requires series.Some? ==> OneRowPerId(series.value)
    ensures r.Raised? <==> series.None? || issues.None?
    ensures r.Ok? ==> SeriesTold(liveSeries, series.value, first, r.value.0, limit)
    ensures r.Ok? ==> IssuesTold(liveSeries, liveIssues, series.value, issues.value, second, r.value.1, limit)
  {
    hide *;
    var told := ClassifySeries(liveSeries, series, limit);
    if told.Raised? {
      return Raised, [], [];
    }
    var issuesTold := ClassifyIssues(liveIssues, issues, told.value.1, told.value.2, limit);
    if issuesTold.Raised? {
      return Raised, [], [];
    }
    first := Scanned(liveSeries, SeriesEntries(series.value));
    second := IssueStream(liveSeries, liveIssues, series.value, issues.value);
    SeriesReport(liveSeries, series.value, limit);
    IssueReport(liveSeries, liveIssues, series.value, issues.value, limit);
    StreamIs(liveSeries, liveIssues, series.value, issues.value);
    r := Ok((told.value.0, issuesTold.value));
  }
}
