/**
  The preview of merging a backup's catalogue into the live one
  (core/inkdrop_backup_restore.py): rows are classified in chunks with bounded
  lookups, and each bucket keeps an exact count and a bounded sample.
 */
module MergePreview {
  import opened Outcomes

  type Id = string

  const LOOKUP_LIMIT := 5
  const CHUNK_SIZE := 500

  // ------------------------------------------------------------------ identities

  /** Python's str.isspace. */
  predicate IsSpace(c: char) {
    '\t' <= c <= '\r' || '\U{1c}' <= c <= ' '
    || c in {'\U{85}', '\U{a0}', '\U{1680}', '\U{2028}', '\U{2029}', '\U{202f}', '\U{205f}', '\U{3000}'}
    || '\U{2000}' <= c <= '\U{200a}'
  }

  predicate AllBlank(s: string) { forall i | 0 <= i < |s| :: IsSpace(s[i]) }

  function StripLeft(s: string): string {
    if s == "" || !IsSpace(s[0]) then s else StripLeft(s[1..])
  }

  function StripRight(s: string): string {
    if s == "" || !IsSpace(s[|s| - 1]) then s else StripRight(s[..|s| - 1])
  }

  function Strip(s: string): string { StripRight(StripLeft(s)) }

  /** The only identity trusted: a scope, a provider and an external id. */
  datatype Key = Key(scope: Id, provider: string, externalId: string)

  /** _merge_identity_key */
  function IdentityKey(scope: Id, provider: string, externalId: string): Option<Key> {
    if Strip(provider) == "" || Strip(externalId) == "" then None
    else Some(Key(scope, Strip(provider), Strip(externalId)))
  }

  lemma {:induction false} StripLeftTrims(s: string)
    ensures exists a :: AllBlank(a) && s == a + StripLeft(s)
    ensures StripLeft(s) != "" ==> !IsSpace(StripLeft(s)[0])
  {
    hide IsSpace;
    if s == "" || !IsSpace(s[0]) {
      assert AllBlank("") && s == "" + StripLeft(s);
    } else {
      StripLeftTrims(s[1..]);
      var a :| AllBlank(a) && s[1..] == a + StripLeft(s[1..]);
      BlankBefore(s[0], a, StripLeft(s[1..]), s);
    }
  }

  lemma BlankBefore(c: char, a: string, rest: string, s: string)
    requires IsSpace(c) && AllBlank(a) && s == [c] + (a + rest)
    ensures AllBlank([c] + a) && s == ([c] + a) + rest
  {
    hide IsSpace;
  }

  lemma {:induction false} StripRightTrims(s: string)
    ensures exists b :: AllBlank(b) && s == StripRight(s) + b
    ensures StripRight(s) != "" ==> !IsSpace(StripRight(s)[|StripRight(s)| - 1])
  {
    hide IsSpace;
    var n := |s| - 1;
    if s == "" || !IsSpace(s[n]) {
      assert AllBlank("") && s == StripRight(s) + "";
    } else {
      StripRightTrims(s[..n]);
      var b :| AllBlank(b) && s[..n] == StripRight(s[..n]) + b;
      assert AllBlank(b + [s[n]]) && s == StripRight(s) + (b + [s[n]]);
    }
  }

  /** What is left begins and ends with no blank. */
  predicate Trim(s: string) {
    s != "" ==> !IsSpace(s[0]) && !IsSpace(s[|s| - 1])
  }

  /** Stripping removes blanks from both ends and nothing else. */
  lemma StripTrims(s: string)
    ensures Trim(Strip(s))
    ensures exists a, b :: AllBlank(a) && AllBlank(b) && s == a + Strip(s) + b
  {
    hide IsSpace, AllBlank;
    var l := StripLeft(s);
    StripLeftTrims(s);
    StripRightTrims(l);
    var a :| AllBlank(a) && s == a + l;
    var b :| AllBlank(b) && l == Strip(s) + b;
    assert s == a + Strip(s) + b;
    assert Strip(s) != "" ==> Strip(s)[0] == l[0];
  }

  lemma StripBlank(s: string)
    ensures Strip(s) == "" <==> AllBlank(s)
  {
    hide IsSpace;
    StripTrims(s);
    var a, b :| AllBlank(a) && AllBlank(b) && s == a + Strip(s) + b;
    assert Strip(s) != "" ==> s[|a|] == Strip(s)[0];
  }

  lemma StripOnce(s: string)
    requires Trim(s)
    ensures Strip(s) == s
  {
  }

  /** A blank provider or id is no identity, and padding does not change one. */
  lemma IdentityIsTrimmed(scope: Id, provider: string, externalId: string)
    ensures IdentityKey(scope, provider, externalId).None? <==> AllBlank(provider) || AllBlank(externalId)
    ensures IdentityKey(scope, provider, externalId) == IdentityKey(scope, Strip(provider), Strip(externalId))
  {
    hide IsSpace, AllBlank, Strip, Trim;
    StripBlank(provider);
    StripBlank(externalId);
    StripTrims(provider);
    StripTrims(externalId);
    StripOnce(Strip(provider));
    StripOnce(Strip(externalId));
  }

  // ---------------------------------------------------------------------- lookups

  /** A live row: of a series the scope is empty, of an issue it is the live series. */
  datatype LiveRow = LiveRow(key: Key, id: Id)

  function First<T>(s: seq<T>, limit: int): seq<T> {
    if limit <= 0 then [] else if |s| <= limit then s else s[..limit]
  }

  /** Every live row with this identity, by a scan of the whole table. */
  function Matches(live: seq<LiveRow>, key: Key): seq<Id> {
    if live == [] then []
    else Matches(live[..|live| - 1], key) + if live[|live| - 1].key == key then [live[|live| - 1].id] else []
  }

  function Found(index: map<Key, seq<Id>>, key: Key): seq<Id> {
    if key in index then index[key] else []
  }

  lemma MatchesNext(live: seq<LiveRow>, i: nat, key: Key)
    requires i < |live|
    ensures Matches(live[..i + 1], key) == Matches(live[..i], key) + if live[i].key == key then [live[i].id] else []
  {
    assert live[..i + 1][..i] == live[..i];
  }

  lemma FirstNext<T>(s: seq<T>, x: T, limit: nat)
    ensures First(s + [x], limit) == if |First(s, limit)| < limit then First(s, limit) + [x] else First(s, limit)
  {
  }

  /** One group's query: rows of this scope and provider whose external id is wanted. */
  method QueryGroup(live: seq<LiveRow>, scope: Id, provider: string, wanted: set<string>, index: map<Key, seq<Id>>)
    returns (index': map<Key, seq<Id>>)
    requires forall e | e in wanted :: Found(index, Key(scope, provider, e)) == []
    ensures forall e | e in wanted ::
        Found(index', Key(scope, provider, e)) == First(Matches(live, Key(scope, provider, e)), LOOKUP_LIMIT)
    ensures forall k: Key | !(k.scope == scope && k.provider == provider && k.externalId in wanted) ::
        Found(index', k) == Found(index, k)
  {
    hide Matches, First;
    index' := index;
    forall k: Key
      ensures First(Matches(live[..0], k), LOOKUP_LIMIT) == []
    {
      NoMatches(k, LOOKUP_LIMIT);
    }
    for i := 0 to |live|
      invariant forall e | e in wanted ::
          Found(index', Key(scope, provider, e)) == First(Matches(live[..i], Key(scope, provider, e)), LOOKUP_LIMIT)
      invariant forall k: Key | !(k.scope == scope && k.provider == provider && k.externalId in wanted) ::
          Found(index', k) == Found(index, k)
    {
      var row := live[i];
      forall k: Key
        ensures First(Matches(live[..i + 1], k), LOOKUP_LIMIT)
                == if k == row.key && |First(Matches(live[..i], k), LOOKUP_LIMIT)| < LOOKUP_LIMIT
                   then First(Matches(live[..i], k), LOOKUP_LIMIT) + [row.id]
                        else First(Matches(live[..i], k), LOOKUP_LIMIT)
      {
        MatchesNext(live, i, k);
        FirstNext(Matches(live[..i], k), row.id, LOOKUP_LIMIT);
        assert Matches(live[..i], k) + [] == Matches(live[..i], k);
      }
      if row.key.scope == scope && row.key.provider == provider && row.key.externalId in wanted {
        var bucket := Found(index', row.key);
        index' := index'[row.key := if |bucket| < LOOKUP_LIMIT then bucket + [row.id] else bucket];
      }
    }
    assert live[..|live|] == live;
  }

  lemma NoMatches(key: Key, limit: int)
    ensures First(Matches([], key), limit) == []
  {
  }

  /** The identity lookups of one chunk, grouped by scope and provider; sets are walked in any order. */
  method ChunkLookup(live: seq<LiveRow>, keys: set<Key>) returns (index: map<Key, seq<Id>>)
    ensures forall k | k in keys :: Found(index, k) == First(Matches(live, k), LOOKUP_LIMIT)
  {
    hide Matches, First;
    index := map[];
    var groups := set k | k in keys :: (k.scope, k.provider);
    while groups != {}
      invariant forall k | k in keys && (k.scope, k.provider) !in groups ::
          Found(index, k) == First(Matches(live, k), LOOKUP_LIMIT)
      invariant forall k: Key | (k.scope, k.provider) in groups :: Found(index, k) == []
      decreases |groups|
    {
      var group :| group in groups;
      var wanted := set k | k in keys && k.scope == group.0 && k.provider == group.1 :: k.externalId;
      ghost var was := index;
      index := QueryGroup(live, group.0, group.1, wanted, index);
      groups := groups - {group};
    }
  }

  // --------------------------------------------------------------------- verdicts

  /** A row of the backup; an issue's parent is its backup series. */
  datatype Row = Row(id: Id, parent: Id, provider: string, externalId: string, rest: string)

  datatype Verdict = New | Matched(target: Id) | Ambiguous(candidates: seq<Id>) | ParentNew | ParentReview

  datatype Bucket = ToNew | ToMatched | ToReview

  datatype Sample = Sample(row: Row, verdict: Verdict)

  function BucketOf(v: Verdict): Bucket {
    match v
    case New => ToNew
    case ParentNew => ToNew
    case Matched(_) => ToMatched
    case Ambiguous(_) => ToReview
    case ParentReview => ToReview
  }

  /** A row on its way to a chunk: settled by its parent already, or to be looked up. */
  datatype Entry = Entry(row: Row, disposition: Disposition)
  datatype Disposition = Settled(verdict: Verdict) | Lookup(key: Option<Key>)

  function VerdictOn(matches: seq<Id>): Verdict {
    if matches == [] then New else if |matches| == 1 then Matched(matches[0])
    else Ambiguous(First(matches, LOOKUP_LIMIT))
  }

  /** The verdict of a scan of the whole live table for this one row. */
  function Scan(live: seq<LiveRow>, d: Disposition): Verdict {
    match d
    case Settled(v) => v
    case Lookup(None) => New
    case Lookup(Some(key)) => VerdictOn(Matches(live, key))
  }

  /** Five looked-up rows tell no match, one match and several apart. */
  lemma CapKeepsVerdict(matches: seq<Id>)
    ensures VerdictOn(First(matches, LOOKUP_LIMIT)) == VerdictOn(matches)
  {
  }

  function Scanned(live: seq<LiveRow>, entries: seq<Entry>): (s: seq<Sample>)
    ensures |s| == |entries|
  {
    seq(|entries|, i requires 0 <= i < |entries| => Sample(entries[i].row, Scan(live, entries[i].disposition)))
  }

  /** The samples of one bucket, in stream order. */
  function Only(s: seq<Sample>, b: Bucket): seq<Sample> {
    if s == [] then []
    else Only(s[..|s| - 1], b) + if BucketOf(s[|s| - 1].verdict) == b then [s[|s| - 1]] else []
  }

  /** The live row each matched backup row stands for; the last row with an id decides. */
  function MatchedOf(s: seq<Sample>): map<Id, Id> {
    if s == [] then map[]
    else
      var (m, last) := (MatchedOf(s[..|s| - 1]), s[|s| - 1]);
      if last.verdict.Matched? then m[last.row.id := last.verdict.target] else m
  }

  function AmbiguousOf(s: seq<Sample>): set<Id> {
    set x | x in s && x.verdict.Ambiguous? :: x.row.id
  }

  lemma {:induction false} OnlyConcat(a: seq<Sample>, b: seq<Sample>, k: Bucket)
    ensures Only(a + b, k) == Only(a, k) + Only(b, k)
  {
    if b == [] {
      assert a + b == a;
    } else {
      assert (a + b)[..|a + b| - 1] == a + b[..|b| - 1];
      OnlyConcat(a, b[..|b| - 1], k);
    }
  }

  /** A row stands in its bucket after exactly the bucket's rows that precede it in the stream. */
  lemma OnlyInOrder(s: seq<Sample>, i: nat, k: Bucket)
    requires i < |s| && BucketOf(s[i].verdict) == k
    ensures |Only(s[..i], k)| < |Only(s, k)| && Only(s, k)[|Only(s[..i], k)|] == s[i]
  {
    assert s == s[..i] + [s[i]] + s[i + 1..];
    OnlyConcat(s[..i] + [s[i]], s[i + 1..], k);
    OnlyConcat(s[..i], [s[i]], k);
    assert Only([s[i]], k) == Only([], k) + [s[i]];
  }

  /** Every row lands in exactly one bucket. */
  lemma {:induction false} BucketsPartition(s: seq<Sample>)
    ensures multiset(Only(s, ToNew)) + multiset(Only(s, ToMatched)) + multiset(Only(s, ToReview)) == multiset(s)
    ensures |Only(s, ToNew)| + |Only(s, ToMatched)| + |Only(s, ToReview)| == |s|
  {
    if s != [] {
      var (rest, x) := (s[..|s| - 1], s[|s| - 1]);
      BucketsPartition(rest);
      assert s == rest + [x];
      AfterOne(rest, x);
      var (n, m, r) := (Only(rest, ToNew), Only(rest, ToMatched), Only(rest, ToReview));
      hide *;
      PutOne(n, m, r, rest, x);
      var b := BucketOf(x.verdict);
      assert b == ToNew || b == ToMatched || b == ToReview;
    }
  }

  lemma PutOne<T>(n: seq<T>, m: seq<T>, r: seq<T>, s: seq<T>, x: T)
    requires multiset(n) + multiset(m) + multiset(r) == multiset(s) && |n| + |m| + |r| == |s|
    ensures multiset(n + [x]) + multiset(m) + multiset(r) == multiset(s + [x]) && |n + [x]| + |m| + |r| == |s + [x]|
    ensures multiset(n) + multiset(m + [x]) + multiset(r) == multiset(s + [x]) && |n| + |m + [x]| + |r| == |s + [x]|
    ensures multiset(n) + multiset(m) + multiset(r + [x]) == multiset(s + [x]) && |n| + |m| + |r + [x]| == |s + [x]|
  {
  }

  // ---------------------------------------------------------------------- buckets

  datatype Summary = Summary(count: nat, sample: seq<Sample>, truncated: bool)

  function SummaryOf(added: seq<Sample>, limit: int): Summary {
    Summary(|added|, First(added, limit), |added| > |First(added, limit)|)
  }

  class MergeBucket {
    const limit: int
    var sample: seq<Sample>
    var count: nat
    ghost var added: seq<Sample>

    ghost predicate Valid()
      reads this
    {
      count == |added| && sample == First(added, limit)
    }

    constructor (limit: int)
      ensures Valid() && added == [] && this.limit == limit
    {
      this.limit, sample, count, added := limit, [], 0, [];
    }

    method Add(row: Sample)
      requires Valid()
      modifies this
      ensures Valid() && added == old(added) + [row]
    {
      count := count + 1;
      if |sample| < limit {
        sample := sample + [row];
      }
      added := added + [row];
    }

    method Summarize() returns (s: Summary)
      requires Valid()
      ensures s == SummaryOf(added, limit)
    {
      s := Summary(count, sample, count > |sample|);
    }
  }

  /** The three buckets of one classification. */
  ghost predicate Ready(newcomers: MergeBucket, matched: MergeBucket, review: MergeBucket)
    reads newcomers, matched, review
  {
    newcomers != matched && matched != review && review != newcomers && newcomers.Valid() && matched.Valid()
    && review.Valid()
  }

  /** The buckets hold exactly what a scan of these rows puts there. */
  ghost predicate Holding(newcomers: MergeBucket, matched: MergeBucket, review: MergeBucket, s: seq<Sample>)
    reads newcomers, matched, review
  {
    Ready(newcomers, matched, review)
    && newcomers.added == Only(s, ToNew) && matched.added == Only(s, ToMatched) && review.added == Only(s, ToReview)
  }

  lemma AfterOne(s: seq<Sample>, x: Sample)
    ensures forall k :: Only(s + [x], k) == if BucketOf(x.verdict) == k then Only(s, k) + [x] else Only(s, k)
    ensures MatchedOf(s + [x]) == if x.verdict.Matched? then MatchedOf(s)[x.row.id := x.verdict.target]
                                  else MatchedOf(s)
    ensures AmbiguousOf(s + [x]) == AmbiguousOf(s) + if x.verdict.Ambiguous? then {x.row.id} else {}
  {
    assert (s + [x])[..|s|] == s;
    assert forall k :: Only(s, k) + [] == Only(s, k);
  }

  /** Put one classified row where it belongs. */
  method ClassifyOne(sample: Sample, newcomers: MergeBucket, matched: MergeBucket, review: MergeBucket,
                     targets: map<Id, Id>, ambiguous: set<Id>, ghost done: seq<Sample>)
    returns (targets': map<Id, Id>, ambiguous': set<Id>)
    requires Holding(newcomers, matched, review, done) && targets == MatchedOf(done) && ambiguous == AmbiguousOf(done)
    modifies newcomers, matched, review
    ensures Holding(newcomers, matched, review, done + [sample])
    ensures targets' == MatchedOf(done + [sample]) && ambiguous' == AmbiguousOf(done + [sample])
  {
    AfterOne(done, sample);
    hide Only, MatchedOf, AmbiguousOf, First;
    targets', ambiguous' := targets, ambiguous;
    match sample.verdict {
      case New => newcomers.Add(sample);
      case ParentNew => newcomers.Add(sample);
      case ParentReview => review.Add(sample);
      case Matched(target) =>
        targets' := targets'[sample.row.id := target];
        matched.Add(sample);
      case Ambiguous(_) =>
        ambiguous' := ambiguous' + {sample.row.id};
        review.Add(sample);
    }
  }

  /** classify_chunk: one round of lookups, then every row of the chunk in stream order. */
  method ClassifyChunk(live: seq<LiveRow>, chunk: seq<Entry>, newcomers: MergeBucket, matched: MergeBucket,
                       review: MergeBucket,
                       targets: map<Id, Id>, ambiguous: set<Id>, ghost done: seq<Sample>)
    returns (targets': map<Id, Id>, ambiguous': set<Id>)
    requires Holding(newcomers, matched, review, done) && targets == MatchedOf(done) && ambiguous == AmbiguousOf(done)
    modifies newcomers, matched, review
    ensures Holding(newcomers, matched, review, done + Scanned(live, chunk))
    ensures targets' == MatchedOf(done + Scanned(live, chunk)) && ambiguous' == AmbiguousOf(done + Scanned(live, chunk))
  {
    hide Holding, MatchedOf, AmbiguousOf, Matches, First, Scan;
    var keys := set e | e in chunk && e.disposition.Lookup? && e.disposition.key.Some? :: e.disposition.key.value;
    var index := ChunkLookup(live, keys);
    targets', ambiguous' := targets, ambiguous;
    ghost var scanned := Scanned(live, chunk);
    assert done + scanned[..0] == done;
    for i := 0 to |chunk|
      invariant Holding(newcomers, matched, review, done + scanned[..i])
      invariant targets' == MatchedOf(done + scanned[..i]) && ambiguous' == AmbiguousOf(done + scanned[..i])
    {
      var verdict := Decide(live, chunk, i, index);
      var sample := Sample(chunk[i].row, verdict);
      assert done + scanned[..i + 1] == (done + scanned[..i]) + [sample];
      ghost var before := done + scanned[..i];
      targets', ambiguous' := ClassifyOne(sample, newcomers, matched, review, targets', ambiguous', before);
    }
    assert scanned[..|chunk|] == scanned;
  }

  /** The verdict a chunk's index gives is the verdict of a full scan. */
  method Decide(live: seq<LiveRow>, chunk: seq<Entry>, i: nat, index: map<Key, seq<Id>>) returns (v: Verdict)
    requires i < |chunk|
    requires forall e | e in chunk && e.disposition.Lookup? && e.disposition.key.Some? ::
               Found(index, e.disposition.key.value) == First(Matches(live, e.disposition.key.value), LOOKUP_LIMIT)
    ensures v == Scan(live, chunk[i].disposition)
  {
    assert chunk[i] in chunk;
    match chunk[i].disposition
    case Settled(verdict) => v := verdict;
    case Lookup(None) => v := New;
    case Lookup(Some(key)) =>
      CapKeepsVerdict(Matches(live, key));
      var targets := Found(index, key);
      v := if targets == [] then New else if |targets| == 1 then Matched(targets[0])
           else Ambiguous(if |targets| <= 5 then targets else targets[..5]);
  }

  // ----------------------------------------------------------------- streaming

  function SeriesEntry(row: Row): Entry {
    Entry(row, Lookup(IdentityKey("", row.provider, row.externalId)))
  }

  /** An issue is looked up only within the one live series its parent matched. */
  function IssueEntry(row: Row, targets: map<Id, Id>, ambiguous: set<Id>): Entry {
    Entry(row,
          if row.parent in ambiguous then Settled(ParentReview)
          else if row.parent !in targets then Settled(ParentNew)
          else Lookup(IdentityKey(targets[row.parent], row.provider, row.externalId)))
  }

  function SeriesEntries(rows: seq<Row>): (e: seq<Entry>)
    ensures |e| == |rows|
  {
    seq(|rows|, i requires 0 <= i < |rows| => SeriesEntry(rows[i]))
  }

  function IssueEntries(rows: seq<Row>, targets: map<Id, Id>, ambiguous: set<Id>): (e: seq<Entry>)
    ensures |e| == |rows|
  {
    seq(|rows|, i requires 0 <= i < |rows| => IssueEntry(rows[i], targets, ambiguous))
  }

  datatype Report = Report(total: nat, newcomers: Summary, matched: Summary, review: Summary)

  /** The report of classifying every row by its own full scan. */
  function NaiveReport(s: seq<Sample>, limit: int): Report {
    Report(|s|, SummaryOf(Only(s, ToNew), limit), SummaryOf(Only(s, ToMatched), limit),
           SummaryOf(Only(s, ToReview), limit))
  }

  lemma ScannedParts(live: seq<LiveRow>, entries: seq<Entry>, from: nat, mid: nat)
    requires from <= mid <= |entries|
    ensures Scanned(live, entries[..from]) + Scanned(live, entries[from..mid]) == Scanned(live, entries[..mid])
  {
    hide Scan;
  }

  method Close(newcomers: MergeBucket, matched: MergeBucket, review: MergeBucket, total: nat, limit: int,
               ghost s: seq<Sample>) returns (r: Report)
    requires Holding(newcomers, matched, review, s) && total == |s|
    requires newcomers.limit == limit && matched.limit == limit && review.limit == limit
    ensures r == NaiveReport(s, limit)
  {
    var n := newcomers.Summarize();
    var m := matched.Summarize();
    var v := review.Summarize();
    r := Report(total, n, m, v);
  }

  /** _classify_backup_series: the chunked classification reports what full scans would. */
  method ClassifySeries(live: seq<LiveRow>, table: Option<seq<Row>>, limit: int)
    returns (r: Result<(Report, map<Id, Id>, set<Id>)>)
    ensures r.Raised? <==> table.None?
    ensures r.Ok? ==> var s := Scanned(live, SeriesEntries(table.value));
                      r.value == (NaiveReport(s, limit), MatchedOf(s), AmbiguousOf(s))
  {
    hide Scan, Scanned, NaiveReport, MatchedOf, AmbiguousOf, SeriesEntry, Holding;
    if table.None? { return Raised; }
    var rows := table.value;
    ghost var all := SeriesEntries(rows);
    var newcomers := new MergeBucket(limit);
    var matched := new MergeBucket(limit);
    var review := new MergeBucket(limit);
    var targets: map<Id, Id>, ambiguous: set<Id>, chunk: seq<Entry> := map[], {}, [];
    NothingYet(live, newcomers, matched, review);
    for i := 0 to |rows|
      invariant |chunk| <= i && |chunk| < CHUNK_SIZE && chunk == all[i - |chunk|..i]
      invariant Holding(newcomers, matched, review, Scanned(live, all[..i - |chunk|]))
      invariant targets == MatchedOf(Scanned(live, all[..i - |chunk|]))
                && ambiguous == AmbiguousOf(Scanned(live, all[..i - |chunk|]))
    {
      chunk := chunk + [SeriesEntry(rows[i])];
      assert chunk == all[i + 1 - |chunk|..i + 1];
      if |chunk| >= CHUNK_SIZE {
        ScannedParts(live, all, i + 1 - |chunk|, i + 1);
        targets, ambiguous := ClassifyChunk(live, chunk, newcomers, matched, review, targets, ambiguous,
                                            Scanned(live, all[..i + 1 - |chunk|]));
        chunk := [];
      }
    }
    ScannedParts(live, all, |rows| - |chunk|, |rows|);
    if chunk != [] {
      targets, ambiguous := ClassifyChunk(live, chunk, newcomers, matched, review, targets, ambiguous,
                                          Scanned(live, all[..|rows| - |chunk|]));
    }
    assert all[..|rows|] == all;
    var report := Close(newcomers, matched, review, |rows|, limit, Scanned(live, all));
    r := Ok((report, targets, ambiguous));
  }

  /** _classify_backup_issues: likewise, given what became of the series. */
  method ClassifyIssues(live: seq<LiveRow>, table: Option<seq<Row>>, targets: map<Id, Id>, ambiguous: set<Id>,
                        limit: int)
    returns (r: Result<Report>)
    ensures r.Raised? <==> table.None?
    ensures r.Ok? ==> r.value == NaiveReport(Scanned(live, IssueEntries(table.value, targets, ambiguous)), limit)
  {
    hide Scan, Scanned, NaiveReport, MatchedOf, AmbiguousOf, IssueEntry, Holding;
    if table.None? { return Raised; }
    var rows := table.value;
    ghost var all := IssueEntries(rows, targets, ambiguous);
    var newcomers := new MergeBucket(limit);
    var matched := new MergeBucket(limit);
    var review := new MergeBucket(limit);
    var chunk: seq<Entry>, unused: map<Id, Id>, none: set<Id> := [], map[], {};
    NothingYet(live, newcomers, matched, review);
    for i := 0 to |rows|
      invariant |chunk| <= i && |chunk| < CHUNK_SIZE && chunk == all[i - |chunk|..i]
      invariant Holding(newcomers, matched, review, Scanned(live, all[..i - |chunk|]))
      invariant unused == MatchedOf(Scanned(live, all[..i - |chunk|]))
                && none == AmbiguousOf(Scanned(live, all[..i - |chunk|]))
    {
      chunk := chunk + [IssueEntry(rows[i], targets, ambiguous)];
      assert chunk == all[i + 1 - |chunk|..i + 1];
      if |chunk| >= CHUNK_SIZE {
        ScannedParts(live, all, i + 1 - |chunk|, i + 1);
        unused, none := ClassifyChunk(live, chunk, newcomers, matched, review, unused, none,
                                      Scanned(live, all[..i + 1 - |chunk|]));
        chunk := [];
      }
    }
    ScannedParts(live, all, |rows| - |chunk|, |rows|);
    if chunk != [] {
      unused, none := ClassifyChunk(live, chunk, newcomers, matched, review, unused, none,
                                    Scanned(live, all[..|rows| - |chunk|]));
    }
    assert all[..|rows|] == all;
    var report := Close(newcomers, matched, review, |rows|, limit, Scanned(live, all));
    r := Ok(report);
  }

  lemma NothingYet(live: seq<LiveRow>, newcomers: MergeBucket, matched: MergeBucket, review: MergeBucket)
    requires Ready(newcomers, matched, review) && newcomers.added == [] && matched.added == [] && review.added == []
    ensures Scanned(live, []) == [] && MatchedOf(Scanned(live, [])) == map[] && AmbiguousOf(Scanned(live, [])) == {}
    ensures Holding(newcomers, matched, review, Scanned(live, []))
  {
  }

  // -------------------------------------------------------- what the buckets mean

  /** The positions of the live rows with an identity. */
  function Positions(live: seq<LiveRow>, key: Key): set<nat> {
    set i: nat | i < |live| && live[i].key == key
  }

  lemma {:induction false} MatchesCount(live: seq<LiveRow>, key: Key)
    ensures |Matches(live, key)| == |Positions(live, key)|
  {
    if live != [] {
      var n := |live| - 1;
      MatchesCount(live[..n], key);
      assert Positions(live, key) == Positions(live[..n], key) + if live[n].key == key then {n} else {};
    }
  }

  /** A series is new, matched or ambiguous as none, one or several live rows have its identity. */
  lemma BucketByCount(live: seq<LiveRow>, key: Key)
    ensures BucketOf(Scan(live, Lookup(Some(key))))
            == if Positions(live, key) == {} then ToNew else if |Positions(live, key)| == 1 then ToMatched else ToReview
  {
    MatchesCount(live, key);
  }

  lemma {:induction false} MatchesAt(live: seq<LiveRow>, key: Key, i: nat)
    requires i < |live| && live[i].key == key
    ensures live[i].id in Matches(live, key)
  {
    if i < |live| - 1 {
      MatchesAt(live[..|live| - 1], key, i);
    }
  }

  /** A match names the one live row with that identity. */
  lemma MatchNamesTheRow(live: seq<LiveRow>, key: Key, i: nat)
    requires Positions(live, key) == {i}
    ensures i < |live| && Scan(live, Lookup(Some(key))) == Matched(live[i].id)
  {
    assert i in Positions(live, key);
    MatchesCount(live, key);
    MatchesAt(live, key, i);
  }

  predicate DistinctIds(s: seq<Sample>) {
    forall i, j | 0 <= i < j < |s| :: s[i].row.id != s[j].row.id
  }

  /** With one backup row per id, the two results of the series pass record each row's own verdict. */
  lemma {:induction false} RecordsOwnVerdict(s: seq<Sample>, i: nat)
    requires DistinctIds(s) && i < |s|
    ensures s[i].row.id in AmbiguousOf(s) <==> s[i].verdict.Ambiguous?
    ensures s[i].row.id in MatchedOf(s) <==> s[i].verdict.Matched?
    ensures s[i].verdict.Matched? ==> MatchedOf(s)[s[i].row.id] == s[i].verdict.target
  {
    var n := |s| - 1;
    if i < n {
      RecordsOwnVerdict(s[..n], i);
    } else {
      MatchedOnlyOwn(s[..n]);
    }
  }

  lemma {:induction false} MatchedOnlyOwn(s: seq<Sample>)
    ensures forall id | id in MatchedOf(s) :: exists j :: 0 <= j < |s| && s[j].row.id == id
  {
    if s != [] {
      MatchedOnlyOwn(s[..|s| - 1]);
      forall id | id in MatchedOf(s)
        ensures exists j :: 0 <= j < |s| && s[j].row.id == id
      {
        if id in MatchedOf(s[..|s| - 1]) {
          var j :| 0 <= j < |s| - 1 && s[..|s| - 1][j].row.id == id;
          assert s[j].row.id == id;
        } else {
          assert s[|s| - 1].row.id == id;
        }
      }
    }
  }

  /**
    Across both passes: an issue follows its own backup series, whatever chunks
    the two fell in. A series that matched confines the issue to that live
    series; an ambiguous one sends it to review; otherwise it is new.
   */
  lemma IssueFollowsItsSeries(live: seq<LiveRow>, series: seq<Row>, row: Row, i: nat)
    requires i < |series| && series[i].id == row.parent
    requires forall a, b | 0 <= a < b < |series| :: series[a].id != series[b].id
    ensures var s := Scanned(live, SeriesEntries(series));
            IssueEntry(row, MatchedOf(s), AmbiguousOf(s)).disposition
            == match Scan(live, SeriesEntry(series[i]).disposition)
               case Matched(target) => Lookup(IdentityKey(target, row.provider, row.externalId))
               case Ambiguous(_) => Settled(ParentReview)
               case _ => Settled(ParentNew)
  {
    hide Scan, MatchedOf, AmbiguousOf, IdentityKey;
    var s := Scanned(live, SeriesEntries(series));
    RecordsOwnVerdict(s, i);
    SeriesNeverSettled(live, series[i]);
  }

  lemma SeriesNeverSettled(live: seq<LiveRow>, row: Row)
    ensures var v := Scan(live, SeriesEntry(row).disposition); !v.ParentNew? && !v.ParentReview?
  {
  }

  /** An issue whose series the backup does not hold is new. */
  lemma OrphanIsNew(live: seq<LiveRow>, series: seq<Row>, row: Row)
    requires forall i | 0 <= i < |series| :: series[i].id != row.parent
    ensures var s := Scanned(live, SeriesEntries(series));
            IssueEntry(row, MatchedOf(s), AmbiguousOf(s)).disposition == Settled(ParentNew)
  {
    var s := Scanned(live, SeriesEntries(series));
    MatchedOnlyOwn(s);
  }
}
