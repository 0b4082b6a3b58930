/**
  Cleanup of one bucket's row while logins of the bucket are under way
  (core/inkdrop_auth.py): a login may have read the clock before the cleanup and
  read the row after it, and one that read the row before may write it after.
 */
module CleanupOverlap {
  import opened Outcomes
  import opened LoginLimiter
  import opened OverlappingLogins
  import AuthCleanup

  type Retention = AuthCleanup.Retention

  /** A step of some login, or a cleanup that reaches this bucket. */
  datatype Move = Of(event: Event) | Sweep(keep: Retention)

  function Swept(b: Bucket, keep: Retention): Bucket {
    if b.row.Some? && AuthCleanup.AttemptEligible(b.row.value, b.clock, keep) then b.(row := None) else b
  }

  function After(b: Bucket, m: Move): Bucket {
    match m
    case Of(e) => Step(b, e)
    case Sweep(keep) => Swept(b, keep)
  }

  function Moved(b: Bucket, ms: seq<Move>): Bucket
    decreases |ms|
  {
    if ms == [] then b else Moved(After(b, ms[0]), ms[1..])
  }

  /** What a login is told when it ends. */
  datatype Reply =
    | TooManyAttempts(id: nat, until: real)
    | InvalidCredentials(id: nat, lockedUntil: Option<real>)
    | SignedIn(id: nat)
    | ServerError(id: nat)

  /** The answers one move gives, none or one. */
  function Told(b: Bucket, m: Move): seq<Reply> {
    match m
    case Of(ReadRow(id)) =>
      if id in b.flying && b.flying[id].Arrived? && Limited(b.row, b.flying[id].now)
      then [TooManyAttempts(id, if b.row.value.lockedUntil.Some? then b.row.value.lockedUntil.value else 0.0)] else []
    case Of(Finish(id, correct)) =>
      if !Finishes(b, m.event) then []
      else if correct then [SignedIn(id)]
      else [InvalidCredentials(id, AfterFailure(b.flying[id].row, b.flying[id].now).lockedUntil)]
    case Of(Lose(id, _)) => if id in b.flying then [ServerError(id)] else []
    case _ => []
  }

  function Replies(b: Bucket, ms: seq<Move>): seq<Reply>
    decreases |ms|
  {
    if ms == [] then [] else Told(b, ms[0]) + Replies(After(b, ms[0]), ms[1..])
  }

  /** A login that reads the row read the clock at most lag seconds before. */
  predicate InTime(b: Bucket, m: Move, lag: real) {
    m.Of? && m.event.ReadRow? && m.event.id in b.flying && b.flying[m.event.id].Arrived? ==>
      b.clock - b.flying[m.event.id].now <= lag
  }

  /** At most c logins are under way, and all read the row in time. */
  predicate Permitted(b: Bucket, ms: seq<Move>, c: nat, lag: real)
    decreases |ms|
  {
    |b.flying| <= c
    && (ms == [] || (InTime(b, ms[0], lag) && Permitted(After(b, ms[0]), ms[1..], c, lag)))
  }

  // ------------------------------------------------------------ rows that arise

  /** How far a row's window may begin after its last update: only a login that overlaps another can date it back. */
  function Skew(c: nat, lag: real): real { if c == 1 then 0.0 else lag }

  predicate Written(row: Option<Row>, clock: real, skew: real) {
    row.Some? ==>
      var r := row.value;
      0.0 < r.windowStarted <= clock && r.updatedAt <= clock && r.windowStarted - skew <= r.updatedAt
      && (r.lockedUntil.Some? ==> r.lockedUntil.value <= r.updatedAt + LOGIN_MAX_BACKOFF_SECONDS)
  }

  /** A window that began at most skew seconds after this moment. */
  predicate Since(row: Option<Row>, now: real, skew: real) {
    row.Some? ==> row.value.windowStarted - skew <= now
  }

  predicate Fit(l: Login, clock: real, skew: real) {
    0.0 < l.now <= clock && (l.Checking? ==> Written(l.row, clock, skew) && Since(l.row, l.now, skew))
  }

  predicate Sane(b: Bucket, c: nat, lag: real) {
    0.0 < b.clock && Written(b.row, b.clock, Skew(c, lag))
    && (forall id | id in b.flying :: Fit(b.flying[id], b.clock, Skew(c, lag)))
    && (c == 1 ==> |b.flying| <= 1 && forall id | id in b.flying :: Since(b.row, b.flying[id].now, 0.0))
  }

  lemma FailureWritten(row: Option<Row>, now: real, clock: real, skew: real)
    requires 0.0 <= skew && Fit(Checking(now, row), clock, skew)
    ensures Written(Some(AfterFailure(row, now)), clock, skew)
  {
    hide Exponent, Pow2;
  }

  lemma WrittenLater(row: Option<Row>, l: Login, t: real, t': real, skew: real)
    requires t <= t'
    ensures Written(row, t, skew) ==> Written(row, t', skew)
    ensures Fit(l, t, skew) ==> Fit(l, t', skew)
  {
  }

  lemma RowSince(row: Option<Row>, t: real, skew: real)
    requires Written(row, t, skew)
    ensures Since(row, t, 0.0)
  {
  }

  lemma SaneArrive(b: Bucket, id: nat, c: nat, lag: real)
    requires c > 0 && 0.0 <= lag && Sane(b, c, lag) && |Step(b, Arrive(id)).flying| <= c
    ensures Sane(Step(b, Arrive(id)), c, lag)
  {
    hide Written, Since;
    RowSince(b.row, b.clock, Skew(c, lag));
  }

  lemma SaneRead(b: Bucket, id: nat, c: nat, lag: real)
    requires c > 0 && 0.0 <= lag && Sane(b, c, lag) && InTime(b, Of(ReadRow(id)), lag)
    requires |Step(b, ReadRow(id)).flying| <= c
    ensures Sane(Step(b, ReadRow(id)), c, lag)
  {
    hide Written, Limited;
    if id in b.flying && b.flying[id].Arrived? {
      RowSince(b.row, b.clock, Skew(c, lag));
      assert Since(b.row, b.flying[id].now, Skew(c, lag));
    }
  }

  lemma SaneFinish(b: Bucket, id: nat, correct: bool, c: nat, lag: real)
    requires c > 0 && 0.0 <= lag && Sane(b, c, lag) && |Step(b, Finish(id, correct)).flying| <= c
    ensures Sane(Step(b, Finish(id, correct)), c, lag)
  {
    var e := Finish(id, correct);
    if Finishes(b, e) {
      var l := b.flying[id];
      FailureWritten(l.row, l.now, b.clock, Skew(c, lag));
      assert Written(None, b.clock, Skew(c, lag));
      hide AfterFailure, Written, Since;
      if c == 1 {
        forall i | i in b.flying
          ensures i == id
        {
          OnlyOne(b.flying, i, id);
        }
      }
    }
  }

  lemma SaneTick(b: Bucket, seconds: real, c: nat, lag: real)
    requires Sane(b, c, lag)
    ensures Sane(Step(b, Tick(seconds)), c, lag)
  {
    hide Written, Fit, Since;
    var b' := Step(b, Tick(seconds));
    WrittenLater(b.row, Arrived(0.0), b.clock, b'.clock, Skew(c, lag));
    forall id | id in b.flying
      ensures Fit(b.flying[id], b'.clock, Skew(c, lag))
    {
      WrittenLater(b.row, b.flying[id], b.clock, b'.clock, Skew(c, lag));
    }
  }

  /** Every move keeps what is known of the bucket. */
  lemma SaneAfter(b: Bucket, m: Move, c: nat, lag: real)
    requires c > 0 && 0.0 <= lag && Sane(b, c, lag) && InTime(b, m, lag) && |After(b, m).flying| <= c
    ensures Sane(After(b, m), c, lag)
  {
    match m
    case Of(Arrive(id)) => SaneArrive(b, id, c, lag);
    case Of(ReadRow(id)) => SaneRead(b, id, c, lag);
    case Of(Finish(id, correct)) => SaneFinish(b, id, correct, c, lag);
    case Of(Lose(_, _)) => hide Written, Since;
    case Of(Tick(seconds)) => SaneTick(b, seconds, c, lag);
    case Sweep(_) =>
  }

  lemma {:induction false} SaneRun(b: Bucket, ms: seq<Move>, c: nat, lag: real)
    requires c > 0 && 0.0 <= lag && Sane(b, c, lag) && Permitted(b, ms, c, lag)
    ensures Sane(Moved(b, ms), c, lag)
    decreases |ms|
  {
    hide Sane, After, InTime;
    if ms != [] {
      var b' := After(b, ms[0]);
      assert Permitted(b', ms[1..], c, lag);
      SaneAfter(b, ms[0], c, lag);
      SaneRun(b', ms[1..], c, lag);
    }
  }

  // --------------------------------------------------- a deleted row is not missed

  /** The same row, or a dead one and none: no login that read the clock at d or later can tell. */
  predicate RowsAlike(x: Option<Row>, y: Option<Row>, d: real) {
    x == y || (x.Some? && y.None? && AuthCleanup.AttemptDead(x.value, d))
  }

  predicate LoginsAlike(x: Login, y: Login, d: real) {
    x == y || (x.Checking? && y.Checking? && x.now == y.now && d <= x.now && RowsAlike(x.row, y.row, d))
  }

  predicate Alike(a: Bucket, b: Bucket, d: real) {
    a.clock == b.clock && RowsAlike(a.row, b.row, d) && a.flying.Keys == b.flying.Keys
    && forall id | id in a.flying :: 0.0 < a.flying[id].now <= a.clock && LoginsAlike(a.flying[id], b.flying[id], d)
  }

  lemma AlikeRows(x: Option<Row>, y: Option<Row>, d: real, now: real)
    requires RowsAlike(x, y, d) && 0.0 < now && (x == y || d <= now)
    ensures (Limited(x, now) <==> Limited(y, now)) && (Limited(x, now) ==> x == y)
    ensures AfterFailure(x, now) == AfterFailure(y, now)
  {
    hide Limited, AfterFailure;
    if x != y {
      AuthCleanup.DeadRowCountsAsNone(x.value, d, now);
      NoRowNoLimit(now);
    }
  }

  lemma NoRowNoLimit(now: real)
    ensures !Limited(None, now)
  {
  }

  lemma AlikeRead(a: Bucket, b: Bucket, id: nat, d: real, lag: real)
    requires Alike(a, b, d) && InTime(a, Of(ReadRow(id)), lag) && d + lag <= a.clock && 0.0 < a.clock
    ensures Alike(Step(a, ReadRow(id)), Step(b, ReadRow(id)), d)
    ensures Told(a, Of(ReadRow(id))) == Told(b, Of(ReadRow(id)))
  {
    hide Limited, RowsAlike;
    if id in a.flying && a.flying[id].Arrived? {
      AlikeRows(a.row, b.row, d, a.flying[id].now);
    }
  }

  lemma AlikeFinish(a: Bucket, b: Bucket, id: nat, correct: bool, d: real)
    requires Alike(a, b, d)
    ensures Alike(Step(a, Finish(id, correct)), Step(b, Finish(id, correct)), d)
    ensures Told(a, Of(Finish(id, correct))) == Told(b, Of(Finish(id, correct)))
  {
    hide AfterFailure;
    if id in a.flying && a.flying[id].Checking? {
      AlikeRows(a.flying[id].row, b.flying[id].row, d, a.flying[id].now);
    }
  }

  lemma AlikeSwept(a: Bucket, b: Bucket, keep: Retention, d: real)
    requires Alike(a, b, d)
    ensures Alike(Swept(a, keep), Swept(b, keep), d)
  {
  }

  /** One move: the same answer, and the buckets stay alike. */
  lemma AlikeAfter(a: Bucket, b: Bucket, m: Move, d: real, lag: real)
    requires Alike(a, b, d) && InTime(a, m, lag) && d + lag <= a.clock && 0.0 < a.clock
    ensures Alike(After(a, m), After(b, m), d) && Told(a, m) == Told(b, m)
    ensures After(a, m).clock >= a.clock
  {
    match m
    case Of(Arrive(id)) => hide RowsAlike;
    case Of(ReadRow(id)) => AlikeRead(a, b, id, d, lag); hide RowsAlike;
    case Of(Finish(id, correct)) => AlikeFinish(a, b, id, correct, d); hide RowsAlike;
    case Of(Lose(_, _)) => hide RowsAlike;
    case Of(Tick(_)) => hide RowsAlike;
    case Sweep(keep) => AlikeSwept(a, b, keep, d);
  }

  lemma {:induction false} AlikeReplies(a: Bucket, b: Bucket, ms: seq<Move>, d: real, c: nat, lag: real)
    requires Alike(a, b, d) && Permitted(a, ms, c, lag) && d + lag <= a.clock && 0.0 < a.clock
    ensures Replies(a, ms) == Replies(b, ms)
    decreases |ms|
  {
    hide Alike, After, Told, InTime;
    if ms != [] {
      AlikeAfter(a, b, ms[0], d, lag);
      AlikeReplies(After(a, ms[0]), After(b, ms[0]), ms[1..], d, c, lag);
    }
  }

  /** What a cleanup with a long enough quiet time deletes is dead to every login that can still read it. */
  lemma SweptAlike(b: Bucket, keep: Retention, c: nat, lag: real)
    requires 0.0 <= lag && Sane(b, c, lag) && keep.quiet as real > LOGIN_WINDOW_SECONDS + lag + Skew(c, lag)
    ensures Alike(b, Swept(b, keep), b.clock - lag)
  {
  }

  // ------------------------------------------------------ when it goes unnoticed

  /** A run from an empty bucket, and how it goes on from a moment at which a cleanup may come. */
  predicate Run(clock: real, past: seq<Move>, later: seq<Move>, c: nat, lag: real) {
    0.0 < clock && Permitted(Empty(clock), past, c, lag) && Permitted(Moved(Empty(clock), past), later, c, lag)
  }

  /** In no run does one more cleanup, at whatever moment, change what a login is told. */
  ghost predicate Unnoticed(keep: Retention, c: nat, lag: real) {
    forall clock, past, later :: Run(clock, past, later, c, lag) ==>
      var b := Moved(Empty(clock), past);
      Replies(Swept(b, keep), later) == Replies(b, later)
  }

  /**
    With at most c logins under way, each reading the row within lag of the clock,
    a cleanup goes unnoticed in every interleaving exactly when its quiet time
    exceeds the window by the lag, or by twice the lag where logins overlap: a slow
    login may then read a row late and date its last update back by as much.
   */
  lemma UnnoticedExactly(keep: Retention, c: nat, lag: real)
    requires c > 0 && lag >= 0.0
    ensures Unnoticed(keep, c, lag) <==> keep.quiet as real > LOGIN_WINDOW_SECONDS + lag + Skew(c, lag)
  {
    if keep.quiet as real > LOGIN_WINDOW_SECONDS + lag + Skew(c, lag) {
      forall clock, past, later | Run(clock, past, later, c, lag)
        ensures Replies(Swept(Moved(Empty(clock), past), keep), later) == Replies(Moved(Empty(clock), past), later)
      {
        CleanupUnnoticed(clock, past, later, keep, c, lag);
      }
    } else if c == 1 {
      var past, later := FourMissed(keep, lag);
    } else {
      var past, later := DatedBack(keep, c, lag);
    }
  }

  lemma CleanupUnnoticed(clock: real, past: seq<Move>, later: seq<Move>, keep: Retention, c: nat, lag: real)
    requires c > 0 && lag >= 0.0 && keep.quiet as real > LOGIN_WINDOW_SECONDS + lag + Skew(c, lag)
    requires Run(clock, past, later, c, lag)
    ensures Replies(Swept(Moved(Empty(clock), past), keep), later) == Replies(Moved(Empty(clock), past), later)
  {
    var b := Moved(Empty(clock), past);
    assert Sane(Empty(clock), c, lag);
    SaneRun(Empty(clock), past, c, lag);
    assert 0.0 < b.clock;
    SweptAlike(b, keep, c, lag);
    hide Alike, Permitted, Swept;
    AlikeReplies(b, Swept(b, keep), later, b.clock - lag, c, lag);
  }

  // ---------------------------------------------------------- runs that notice it

  /** The bucket after these moves, and that they were permitted. */
  predicate Reaches(b: Bucket, ms: seq<Move>, b': Bucket, c: nat, lag: real) {
    Moved(b, ms) == b' && Permitted(b, ms, c, lag)
  }

  lemma {:induction false} ReachesOn(b: Bucket, x: seq<Move>, b1: Bucket, y: seq<Move>, b2: Bucket, c: nat, lag: real)
    requires Reaches(b, x, b1, c, lag) && Reaches(b1, y, b2, c, lag)
    ensures Reaches(b, x + y, b2, c, lag)
    decreases |x|
  {
    hide After, InTime;
    if x == [] {
      assert x + y == y;
    } else {
      assert (x + y)[1..] == x[1..] + y;
      ReachesOn(After(b, x[0]), x[1..], b1, y, b2, c, lag);
    }
  }

  lemma ReachesOne(b: Bucket, m: Move, c: nat, lag: real)
    requires |b.flying| <= c && |After(b, m).flying| <= c && InTime(b, m, lag)
    ensures Reaches(b, [m], After(b, m), c, lag)
  {
    hide After, InTime;
    assert [m][1..] == [] && Reaches(After(b, m), [], After(b, m), c, lag);
  }

  /** A wrong password tried and recorded at once. */
  function Guess(id: nat): seq<Move> { [Of(Arrive(id)), Of(ReadRow(id)), Of(Finish(id, false))] }

  lemma GuessOnce(b: Bucket, id: nat, c: nat, lag: real)
    requires id !in b.flying && !Limited(b.row, b.clock) && |b.flying| < c && 0.0 <= lag
    ensures Reaches(b, Guess(id), b.(row := Some(AfterFailure(b.row, b.clock))), c, lag)
  {
    var b1 := b.(flying := b.flying[id := Arrived(b.clock)]);
    var b2 := b.(flying := b.flying[id := Checking(b.clock, b.row)]);
    TryStates(b, id, lag);
    hide AfterFailure, Limited, Reaches, Step;
    assert InTime(b1, Of(ReadRow(id)), lag);
    ReachesOne(b, Of(Arrive(id)), c, lag);
    ReachesOne(b1, Of(ReadRow(id)), c, lag);
    ReachesOne(b2, Of(Finish(id, false)), c, lag);
    var b3 := b.(row := Some(AfterFailure(b.row, b.clock)));
    ReachesOn(b, [Of(Arrive(id))], b1, [Of(ReadRow(id))], b2, c, lag);
    ReachesOn(b, [Of(Arrive(id))] + [Of(ReadRow(id))], b2, [Of(Finish(id, false))], b3, c, lag);
    assert [Of(Arrive(id))] + [Of(ReadRow(id))] + [Of(Finish(id, false))] == Guess(id);
  }

  /** f failures of a window that began at w, the last of them at this moment. */
  function Few(f: int, w: real, at: real, clock: real, flying: map<nat, Login>): Bucket {
    Bucket(if f == 0 then None else Some(Row(f, w, None, at)), clock, flying)
  }

  /** Three failures at one moment. */
  lemma ThreeGuesses(w: real, flying: map<nat, Login>, c: nat, lag: real) returns (ms: seq<Move>)
    requires 0.0 < w && 1 !in flying && |flying| < c && 0.0 <= lag
    ensures Reaches(Few(0, w, w, w, flying), ms, Few(3, w, w, w, flying), c, lag)
  {
    var (b0, b1) := (Few(0, w, w, w, flying), Few(1, w, w, w, flying));
    var (b2, b3) := (Few(2, w, w, w, flying), Few(3, w, w, w, flying));
    GuessOnce(b0, 1, c, lag);
    GuessOnce(b1, 1, c, lag);
    GuessOnce(b2, 1, c, lag);
    hide Reaches;
    ReachesOn(b0, Guess(1), b1, Guess(1), b2, c, lag);
    ReachesOn(b0, Guess(1) + Guess(1), b2, Guess(1), b3, c, lag);
    ms := Guess(1) + Guess(1) + Guess(1);
  }

  /** Four failures lie 900 seconds behind the clock a fifth login reads; it is slow to read the row. */
  lemma FifthArrives(w: real, at: real, clock: real, c: nat, lag: real) returns (ms: seq<Move>)
    requires 0.0 < w && 0.0 < at && at <= w && w <= clock <= w + 900.0 && c > 0 && 0.0 <= lag
    ensures Reaches(Few(4, w, at, clock, map[]), ms, Few(4, w, at, w + 900.0 + lag, map[0 := Arrived(w + 900.0)]), c,
                    lag)
  {
    var now := w + 900.0;
    var (b0, b1) := (Few(4, w, at, clock, map[]), Few(4, w, at, now, map[]));
    var (b2, b3) := (Few(4, w, at, now, map[0 := Arrived(now)]), Few(4, w, at, now + lag, map[0 := Arrived(now)]));
    assert Step(b0, Tick(now - clock)) == b1;
    assert Step(b1, Arrive(0)) == b2;
    assert Step(b2, Tick(lag)) == b3;
    ReachesOne(b0, Of(Tick(now - clock)), c, lag);
    ReachesOne(b1, Of(Arrive(0)), c, lag);
    ReachesOne(b2, Of(Tick(lag)), c, lag);
    hide Reaches, Step, Few;
    ReachesOn(b0, [Of(Tick(now - clock))], b1, [Of(Arrive(0))], b2, c, lag);
    ReachesOn(b0, [Of(Tick(now - clock))] + [Of(Arrive(0))], b2, [Of(Tick(lag))], b3, c, lag);
    ms := [Of(Tick(now - clock))] + [Of(Arrive(0))] + [Of(Tick(lag))];
  }

  /** It reads the row and fails: locked with the four failures, not without them. */
  lemma FifthNotices(w: real, at: real, keep: Retention, c: nat, lag: real) returns (ms: seq<Move>)
    requires 0.0 < w && 0.0 < at && at <= w && c > 0 && 0.0 <= lag
    requires keep.quiet as real <= w + 900.0 + lag - at && 60.0 <= w + 900.0 + lag - at
    ensures var b := Few(4, w, at, w + 900.0 + lag, map[0 := Arrived(w + 900.0)]);
            Permitted(b, ms, c, lag) && Replies(Swept(b, keep), ms) != Replies(b, ms)
  {
    var (now, flying) := (w + 900.0, map[0 := Arrived(w + 900.0)]);
    var b := Few(4, w, at, now + lag, flying);
    var none := Bucket(None, now + lag, flying);
    assert Swept(b, keep) == none;
    ms := [Of(ReadRow(0)), Of(Finish(0, false))];
    FifthReplies(b, now, c, lag);
    FifthReplies(none, now, c, lag);
    assert AfterFailure(b.row, now).lockedUntil.Some? && AfterFailure(None, now).lockedUntil.None?;
  }

  lemma FifthReplies(b: Bucket, now: real, c: nat, lag: real)
    requires b.flying == map[0 := Arrived(now)] && b.clock == now + lag && !Limited(b.row, now) && c > 0
    ensures var ms := [Of(ReadRow(0)), Of(Finish(0, false))];
            Permitted(b, ms, c, lag) && Replies(b, ms) == [InvalidCredentials(0, AfterFailure(b.row, now).lockedUntil)]
  {
    hide AfterFailure, Limited;
    var ms := [Of(ReadRow(0)), Of(Finish(0, false))];
    var b1 := b.(flying := map[0 := Checking(now, b.row)]);
    assert After(b, ms[0]) == b1;
    assert ms[1..] == [Of(Finish(0, false))] && ms[1..][1..] == [];
    assert After(b1, Of(Finish(0, false))).flying == map[];
  }

  lemma FourGuesses(c: nat, lag: real) returns (ms: seq<Move>)
    requires c > 0 && lag >= 0.0
    ensures Reaches(Empty(100.0), ms, Few(4, 100.0, 100.0, 100.0, map[]), c, lag)
  {
    var (b3, b4) := (Few(3, 100.0, 100.0, 100.0, map[]), Few(4, 100.0, 100.0, 100.0, map[]));
    var three := ThreeGuesses(100.0, map[], c, lag);
    GuessOnce(b3, 1, c, lag);
    hide Reaches;
    ReachesOn(Empty(100.0), three, b3, Guess(1), b4, c, lag);
    ms := three + Guess(1);
  }

  /** Single logins: four failures, and a fifth login slow by the lag. */
  lemma FourMissed(keep: Retention, lag: real) returns (past: seq<Move>, later: seq<Move>)
    requires lag >= 0.0 && keep.quiet as real <= LOGIN_WINDOW_SECONDS + lag
    ensures Run(100.0, past, later, 1, lag)
    ensures Replies(Swept(Moved(Empty(100.0), past), keep), later) != Replies(Moved(Empty(100.0), past), later)
  {
    var b := Few(4, 100.0, 100.0, 1000.0 + lag, map[0 := Arrived(1000.0)]);
    var four := FourGuesses(1, lag);
    var wait := FifthArrives(100.0, 100.0, 100.0, 1, lag);
    later := FifthNotices(100.0, 100.0, keep, 1, lag);
    hide Few, Reaches, Run, Permitted, Swept, Moved;
    ReachesOn(Empty(100.0), four, Few(4, 100.0, 100.0, 100.0, map[]), wait, b, 1, lag);
    past := four + wait;
    RunsOn(past, b, later, 1, lag);
  }

  /**
    Overlapping logins: one reads the clock, three failures open a window a lag
    later, and then it reads the row and counts the fourth, dated back by the lag.
   */
  lemma DatedBack(keep: Retention, c: nat, lag: real) returns (past: seq<Move>, later: seq<Move>)
    requires c > 1 && lag >= 0.0 && keep.quiet as real <= LOGIN_WINDOW_SECONDS + lag + lag
    ensures Run(100.0, past, later, c, lag)
    ensures Replies(Swept(Moved(Empty(100.0), past), keep), later) != Replies(Moved(Empty(100.0), past), later)
  {
    var (w, slow) := (100.0 + lag, map[0 := Arrived(100.0)]);
    var (b1, b2) := (Few(0, w, w, w, slow), Few(3, w, w, w, slow));
    var (b3, b4) := (Few(4, w, 100.0, w, map[]), Few(4, w, 100.0, w + 900.0 + lag, map[0 := Arrived(w + 900.0)]));
    var first := SlowArrives(c, lag);
    var three := ThreeGuesses(w, slow, c, lag);
    var fourth := SlowFinishes(c, lag);
    var wait := FifthArrives(w, 100.0, w, c, lag);
    later := FifthNotices(w, 100.0, keep, c, lag);
    hide Few, Reaches, Run;
    ReachesOn(Empty(100.0), first, b1, three, b2, c, lag);
    ReachesOn(Empty(100.0), first + three, b2, fourth, b3, c, lag);
    ReachesOn(Empty(100.0), first + three + fourth, b3, wait, b4, c, lag);
    past := first + three + fourth + wait;
    RunsOn(past, b4, later, c, lag);
  }

  lemma RunsOn(past: seq<Move>, b: Bucket, later: seq<Move>, c: nat, lag: real)
    requires Reaches(Empty(100.0), past, b, c, lag) && Permitted(b, later, c, lag)
    ensures Run(100.0, past, later, c, lag) && Moved(Empty(100.0), past) == b
  {
  }

  lemma SlowArrives(c: nat, lag: real) returns (ms: seq<Move>)
    requires c > 1 && lag >= 0.0
    ensures var w := 100.0 + lag;
            Reaches(Empty(100.0), ms, Few(0, w, w, w, map[0 := Arrived(100.0)]), c, lag)
  {
    var (b0, b1) := (Empty(100.0), Bucket(None, 100.0, map[0 := Arrived(100.0)]));
    var b2 := Few(0, 100.0 + lag, 100.0 + lag, 100.0 + lag, map[0 := Arrived(100.0)]);
    assert Step(b0, Arrive(0)) == b1;
    assert Step(b1, Tick(lag)) == b2;
    ReachesOne(b0, Of(Arrive(0)), c, lag);
    ReachesOne(b1, Of(Tick(lag)), c, lag);
    hide Reaches, Step, Few;
    ReachesOn(b0, [Of(Arrive(0))], b1, [Of(Tick(lag))], b2, c, lag);
    ms := [Of(Arrive(0))] + [Of(Tick(lag))];
  }

  lemma SlowFinishes(c: nat, lag: real) returns (ms: seq<Move>)
    requires c > 1 && lag >= 0.0
    ensures var w := 100.0 + lag;
            Reaches(Few(3, w, w, w, map[0 := Arrived(100.0)]), ms, Few(4, w, 100.0, w, map[]), c, lag)
  {
    var w := 100.0 + lag;
    var (b0, b2) := (Few(3, w, w, w, map[0 := Arrived(100.0)]), Few(4, w, 100.0, w, map[]));
    var b1 := b0.(flying := map[0 := Checking(100.0, b0.row)]);
    assert Step(b0, ReadRow(0)) == b1;
    assert Step(b1, Finish(0, false)) == b2;
    ReachesOne(b0, Of(ReadRow(0)), c, lag);
    ReachesOne(b1, Of(Finish(0, false)), c, lag);
    hide Reaches, Step, Few;
    ReachesOn(b0, [Of(ReadRow(0))], b1, [Of(Finish(0, false))], b2, c, lag);
    ms := [Of(ReadRow(0))] + [Of(Finish(0, false))];
  }
}
