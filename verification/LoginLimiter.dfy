/**
  The login limiter (core/inkdrop_auth.py): failures per remote address, an
  exponential backoff from the fifth on, and a fifteen-minute window.  What many
  wrong passwords say about the time they took, and the run that takes least, are
  worked out here; OverlappingLogins says over all runs how many get through.
 */
module LoginLimiter {
  import opened Outcomes

  const LOGIN_WINDOW_SECONDS: real := 900.0
  const LOGIN_MAX_FAILURES: int := 5
  const LOGIN_MAX_BACKOFF_SECONDS: real := 900.0

  /** A row of auth_login_attempts. */
  datatype Row = Row(failures: int, windowStarted: real, lockedUntil: Option<real>, updatedAt: real)

  function Pow2(k: nat): int { if k == 0 then 1 else 2 * Pow2(k - 1) }

  function Exponent(failures: int): nat
    requires failures >= LOGIN_MAX_FAILURES
  {
    if failures - LOGIN_MAX_FAILURES < 6 then failures - LOGIN_MAX_FAILURES else 6
  }

  /** How long the source locks an address after this many failures in a window. */
  function Backoff(failures: int): real
    requires failures >= LOGIN_MAX_FAILURES
  {
    var wait := 30.0 * (Pow2(Exponent(failures)) as real);
    if wait < LOGIN_MAX_BACKOFF_SECONDS then wait else LOGIN_MAX_BACKOFF_SECONDS
  }

  /** _rate_limit_row refuses before any password is looked at. */
  predicate Limited(row: Option<Row>, now: real) {
    row.Some? && (if row.value.lockedUntil.Some? then row.value.lockedUntil.value else 0.0) > now
  }

  /** _record_login_failure */
  function AfterFailure(row: Option<Row>, now: real): Row {
    var started := if row.Some? then row.value.windowStarted else 0.0;
    var reset := started == 0.0 || now - started > LOGIN_WINDOW_SECONDS;
    var failures := (if reset then 0 else row.value.failures) + 1;
    Row(failures, if reset then now else started,
        if failures >= LOGIN_MAX_FAILURES then Some(now + Backoff(failures)) else None, now)
  }

  datatype Verdict = RateLimited | WrongPassword | LoggedIn

  /** One login at one address. */
  datatype Attempt = Attempt(now: real, correct: bool)

  function VerdictOf(row: Option<Row>, a: Attempt): Verdict {
    if Limited(row, a.now) then RateLimited else if a.correct then LoggedIn else WrongPassword
  }

  /** The row one attempt leaves; a login deletes it. */
  function Next(row: Option<Row>, a: Attempt): Option<Row> {
    match VerdictOf(row, a)
    case RateLimited => row
    case LoggedIn => None
    case WrongPassword => Some(AfterFailure(row, a.now))
  }

  /** The table of attempts, one row per address bucket, changed as logins come in. */
  class LoginAttempts {
    var rows: map<string, Row>

    constructor ()
      ensures rows == map[]
    {
      rows := map[];
    }

    function RowOf(key: string): Option<Row>
      reads this
    {
      if key in rows then Some(rows[key]) else None
    }

    method RecordLoginFailure(key: string, row: Option<Row>, now: real) returns (lockedUntil: Option<real>)
      modifies this
      ensures rows == old(rows)[key := AfterFailure(row, now)]
      ensures lockedUntil == AfterFailure(row, now).lockedUntil
    {
      var windowStarted, failures := 0.0, 0;
      if row.Some? {
        windowStarted, failures := row.value.windowStarted, row.value.failures;
      }
      if windowStarted == 0.0 || now - windowStarted > LOGIN_WINDOW_SECONDS {
        windowStarted, failures := now, 0;
      }
      failures := failures + 1;
      lockedUntil := None;
      if failures >= LOGIN_MAX_FAILURES {
        lockedUntil := Some(now + Backoff(failures));
      }
      rows := rows[key := Row(failures, windowStarted, lockedUntil, now)];
    }

    /** _rate_limit_row: the row a login goes on with, or a refusal; no transaction is open while it does. */
    method RateLimitRow(key: string, now: real) returns (r: Result<Option<Row>>)
      ensures r == if Limited(RowOf(key), now) then Raised else Ok(RowOf(key))
    {
      var row := RowOf(key);
      r := if Limited(row, now) then Raised else Ok(row);
    }

    /** The end of login: a wrong password is counted from the row read before, a right one deletes the row. */
    method FinishLogin(key: string, row: Option<Row>, now: real, correct: bool)
      modifies this
      ensures RowOf(key) == if correct then None else Some(AfterFailure(row, now))
      ensures rows - {key} == old(rows) - {key}
    {
      hide AfterFailure;
      if !correct {
        var lockedUntil := RecordLoginFailure(key, row, now);
        return;
      }
      rows := rows - {key};
    }
  }

  // ------------------------------------------------------------ reachable rows

  /** Backoffs of 30, 60, 120, 240 and 480 seconds: the earliest moment of the n-th failure of a window. */
  function Lag(failures: int): real {
    if failures <= 5 then 0.0 else if failures == 6 then 30.0 else if failures == 7 then 90.0
    else if failures == 8 then 210.0 else 450.0
  }

  lemma Backoffs()
    ensures Backoff(5) == 30.0 && Backoff(6) == 60.0 && Backoff(7) == 120.0 && Backoff(8) == 240.0
            && Backoff(9) == 480.0
  {
    assert Pow2(1) == 2 && Pow2(2) == 4 && Pow2(3) == 8 && Pow2(4) == 16;
  }

  /** What holds of every row at a time not before it was written. */
  predicate Reached(row: Option<Row>, now: real) {
    row.Some? ==>
      var r := row.value;
      1 <= r.failures <= 9 && 0.0 < r.windowStarted && r.windowStarted + Lag(r.failures) <= r.updatedAt <= now
      && r.updatedAt <= r.windowStarted + LOGIN_WINDOW_SECONDS
      && r.lockedUntil == (if r.failures >= LOGIN_MAX_FAILURES then Some(r.updatedAt + Backoff(r.failures)) else None)
  }

  lemma ReachedNext(row: Option<Row>, t: real, a: Attempt)
    requires Reached(row, t) && 0.0 < a.now && t <= a.now
    ensures Reached(Next(row, a), a.now)
  {
    Backoffs();
    hide Backoff;
  }

  predicate Ordered(attempts: seq<Attempt>, from: real) {
    attempts == [] || (from <= attempts[0].now && Ordered(attempts[1..], attempts[0].now))
  }

  // ------------------------------------------- wrong passwords in an interval

  /** How many attempts had their password checked and found wrong. */
  function Wrong(row: Option<Row>, attempts: seq<Attempt>): nat
    decreases |attempts|
  {
    if attempts == [] then 0
    else (if VerdictOf(row, attempts[0]).WrongPassword? then 1 else 0) + Wrong(Next(row, attempts[0]), attempts[1..])
  }

  /** The attempts fall between two moments, in order, and none of them logs in. */
  predicate Quiet(row: Option<Row>, attempts: seq<Attempt>, from: real, until: real)
    decreases |attempts|
  {
    from <= until &&
    (attempts == [] ||
      (from <= attempts[0].now && !VerdictOf(row, attempts[0]).LoggedIn?
       && Quiet(Next(row, attempts[0]), attempts[1..], attempts[0].now, until)))
  }

  /** The window of the row is over, so the next failure starts a new one. */
  predicate Expired(row: Option<Row>, now: real) {
    row.None? || now - row.value.windowStarted > LOGIN_WINDOW_SECONDS
  }

  /** The least total backoff behind x failures that an older window takes after some moment. */
  function Delay(x: int): real {
    if x <= 3 then 0.0 else if x == 4 then 30.0 else if x == 5 then 90.0
    else if x == 6 then 210.0 else if x == 7 then 450.0 else 930.0
  }

  /**
    Where the failures since moment a stand: none yet and the old window over;
    x of them in a window older than a; or x there, prior in i completed newer
    windows, and the rest in the current one.
   */
  datatype Phase = Idle | Older(x: int) | Newer(x: int, i: int, prior: int)

  predicate Tracks(row: Option<Row>, a: real, p: Phase) {
    match p
    case Idle => Expired(row, a)
    case Older(x) =>
      row.Some? && 0 <= x < row.value.failures <= 9
      && (x >= 4 ==> row.value.lockedUntil.Some? && row.value.lockedUntil.value >= a + Delay(x))
    case Newer(x, i, prior) =>
      row.Some? && 0 <= x <= 8 && 0 <= i && 0 <= prior <= 9 * i && 1 <= row.value.failures <= 9
      && row.value.windowStarted >= a + Delay(x) + 660.0 * (i as real) + 30.0 * (prior as real)
      && row.value.windowStarted >= a + 900.0 * (i as real)
      && (i >= 1 ==> row.value.windowStarted > a + 900.0 * (i as real))
  }

  function Total(row: Option<Row>, p: Phase): int {
    match p
    case Idle => 0
    case Older(x) => x
    case Newer(x, _, prior) => x + prior + (if row.Some? then row.value.failures else 0)
  }

  function NextPhase(row: Option<Row>, p: Phase, attempt: Attempt): Phase {
    if !VerdictOf(row, attempt).WrongPassword? then p
    else
      match p
      case Idle => Newer(0, 0, 0)
      case Older(x) => if Expired(row, attempt.now) then Newer(x, 0, 0) else Older(x + 1)
      case Newer(x, i, prior) =>
        if Expired(row, attempt.now) && row.Some? then Newer(x, i + 1, prior + row.value.failures) else p
  }

  lemma TracksNext(row: Option<Row>, t: real, a: real, p: Phase, attempt: Attempt)
    requires 0.0 < a <= t <= attempt.now && Reached(row, t) && Tracks(row, a, p)
    requires !VerdictOf(row, attempt).LoggedIn?
    ensures var row' := Next(row, attempt);
            var p' := NextPhase(row, p, attempt);
            Tracks(row', a, p')
            && Total(row', p') == Total(row, p) + if VerdictOf(row, attempt).WrongPassword? then 1 else 0
    ensures p.Newer? ==> NextPhase(row, p, attempt).Newer? && NextPhase(row, p, attempt).x == p.x
    ensures p.Older? ==> !NextPhase(row, p, attempt).Idle?
    ensures p.Idle? ==> NextPhase(row, p, attempt) in {Idle, Newer(0, 0, 0)}
  {
    Backoffs();
    hide Backoff;
    if VerdictOf(row, attempt).WrongPassword? {
      ReachedNext(row, t, attempt);
      if p.Newer? && Expired(row, attempt.now) {
        assert attempt.now >= row.value.windowStarted + 660.0 + 30.0 * (row.value.failures as real);
      }
    }
  }

  /** What many failures since moment a imply about the time they took. */
  lemma EndGame(x: int, y: int, i: int, prior: int, k: int, took: real)
    requires 0 <= x <= 8 && 1 <= y <= 9 && 0 <= prior <= 9 * i && 0 <= k
    requires x + prior + y >= 9 * k + 10
    requires took >= Delay(x) + 660.0 * (i as real) + 30.0 * (prior as real) + Lag(y)
    ensures took >= 930.0 * (k as real) + 60.0
    ensures x == 0 ==> i >= k + 1
  {
    assert Delay(x) - 30.0 * (x as real) >= -90.0;
    assert Lag(y) - 30.0 * (y as real) >= -150.0;
    assert 30.0 * (prior as real) >= 30.0 * ((9 * k + 10 - x - y) as real);
    if x + y <= 9 {
      assert i >= k + 1;
    } else {
      assert i >= k;
    }
  }

  lemma {:induction false} ManyTakeLong(row: Option<Row>, attempts: seq<Attempt>, t: real, until: real,
                                         a: real, p: Phase, k: nat)
    requires 0.0 < a <= t && Reached(row, t) && Tracks(row, a, p) && Quiet(row, attempts, t, until)
    ensures Total(row, p) + Wrong(row, attempts) >= 9 * k + 10 ==>
              until - a >= 900.0 * ((k + 1) as real)
              || ((p.Older? || (p.Newer? && p.x > 0)) && until - a >= 930.0 * (k as real) + 60.0)
    decreases |attempts|
  {
    hide Next, NextPhase, Backoff, VerdictOf;
    if attempts == [] {
      if p.Newer? && Total(row, p) >= 9 * k + 10 {
        EndGame(p.x, row.value.failures, p.i, p.prior, k, until - a);
        if p.x == 0 {
          assert 900.0 * (p.i as real) >= 900.0 * ((k + 1) as real);
        }
      }
    } else {
      var attempt := attempts[0];
      TracksNext(row, t, a, p, attempt);
      ReachedNext(row, t, attempt);
      ManyTakeLong(Next(row, attempt), attempts[1..], attempt.now, until, a, NextPhase(row, p, attempt), k);
    }
  }

  function Windows(took: real): int { (took / LOGIN_WINDOW_SECONDS).Floor + 1 }

  // ------------------------------------------------ the worst run, constructed

  /** Nine failures as fast as a fresh window allows. */
  function FullWindow(w: real): seq<Attempt> {
    [Attempt(w, false), Attempt(w, false), Attempt(w, false), Attempt(w, false), Attempt(w, false),
     Attempt(w + 30.0, false), Attempt(w + 90.0, false), Attempt(w + 210.0, false), Attempt(w + 450.0, false)]
  }

  /** k full windows and six failures of one more. */
  function Onslaught(w: real, k: nat): seq<Attempt>
    decreases k
  {
    if k == 0 then FullWindow(w)[..6] else FullWindow(w) + Onslaught(w + 930.0, k - 1)
  }

  lemma OneMore(row: Option<Row>, now: real, rest: seq<Attempt>, from: real, until: real)
    requires !Limited(row, now) && from <= now
    ensures var all := [Attempt(now, false)] + rest;
            var row' := Some(AfterFailure(row, now));
            Wrong(row, all) == 1 + Wrong(row', rest)
            && (Quiet(row', rest, now, until) ==> Quiet(row, all, from, until))
  {
    var all := [Attempt(now, false)] + rest;
    assert all[1..] == rest;
  }

  /** The rows a window passes through, failure by failure. */
  function WindowRow(w: real, f: int, at: real): Row {
    Row(f, w, if f >= LOGIN_MAX_FAILURES then Some(at + Backoff(f)) else None, at)
  }

  /** The first five failures of a window, all at its start. */
  lemma FiveAtOnce(row: Option<Row>, w: real, rest: seq<Attempt>, from: real, until: real)
    requires 0.0 < w && from <= w && Expired(row, w) && !Limited(row, w)
    ensures var all := FullWindow(w)[..5] + rest;
            var row' := Some(WindowRow(w, 5, w));
            Wrong(row, all) == 5 + Wrong(row', rest)
            && (Quiet(row', rest, w, until) ==> Quiet(row, all, from, until))
  {
    hide Backoff, Wrong, Quiet;
    var hit := [Attempt(w, false)];
    var r4 := hit + rest;
    var r3 := hit + r4;
    var r2 := hit + r3;
    var r1 := hit + r2;
    assert FullWindow(w)[..5] + rest == hit + r1;
    OneMore(row, w, r1, from, until);
    OneMore(Some(WindowRow(w, 1, w)), w, r2, w, until);
    OneMore(Some(WindowRow(w, 2, w)), w, r3, w, until);
    OneMore(Some(WindowRow(w, 3, w)), w, r4, w, until);
    OneMore(Some(WindowRow(w, 4, w)), w, rest, w, until);
  }

  /** The next failure comes as soon as the lock of the one before is over. */
  lemma NextInWindow(w: real, f: int, at: real, now: real, rest: seq<Attempt>, until: real)
    requires 0.0 < w && 5 <= f <= 8 && now == at + Backoff(f) && now - w <= LOGIN_WINDOW_SECONDS && at <= now
    ensures var all := [Attempt(now, false)] + rest;
            var (row, row') := (Some(WindowRow(w, f, at)), Some(WindowRow(w, f + 1, now)));
            Wrong(row, all) == 1 + Wrong(row', rest)
            && (Quiet(row', rest, now, until) ==> Quiet(row, all, at, until))
  {
    hide Backoff, Wrong, Quiet;
    OneMore(Some(WindowRow(w, f, at)), now, rest, at, until);
  }

  lemma WholeWindow(row: Option<Row>, w: real, rest: seq<Attempt>, from: real, until: real)
    requires 0.0 < w && from <= w && Expired(row, w) && !Limited(row, w)
    ensures var all := FullWindow(w) + rest;
            var row' := Some(WindowRow(w, 9, w + 450.0));
            Wrong(row, all) == 9 + Wrong(row', rest)
            && (Quiet(row', rest, w + 450.0, until) ==> Quiet(row, all, from, until))
  {
    Backoffs();
    hide Backoff, Wrong, Quiet, WindowRow;
    var r9 := [Attempt(w + 450.0, false)] + rest;
    var r8 := [Attempt(w + 210.0, false)] + r9;
    var r7 := [Attempt(w + 90.0, false)] + r8;
    var r6 := [Attempt(w + 30.0, false)] + r7;
    assert FullWindow(w) + rest == FullWindow(w)[..5] + r6;
    FiveAtOnce(row, w, r6, from, until);
    NextInWindow(w, 5, w, w + 30.0, r7, until);
    NextInWindow(w, 6, w + 30.0, w + 90.0, r8, until);
    NextInWindow(w, 7, w + 90.0, w + 210.0, r9, until);
    NextInWindow(w, 8, w + 210.0, w + 450.0, rest, until);
  }

  lemma {:induction false} OnslaughtCounts(row: Option<Row>, w: real, k: nat, from: real, until: real)
    requires 0.0 < w && from <= w && Expired(row, w) && !Limited(row, w)
    requires w + 930.0 * (k as real) + 30.0 <= until
    ensures Wrong(row, Onslaught(w, k)) == 9 * k + 6 && Quiet(row, Onslaught(w, k), from, until)
    decreases k
  {
    Backoffs();
    hide Backoff, AfterFailure;
    if k == 0 {
      var last := [Attempt(w + 30.0, false)];
      assert Onslaught(w, 0) == FullWindow(w)[..5] + last;
      assert last + [] == last;
      NextInWindow(w, 5, w, w + 30.0, [], until);
      FiveAtOnce(row, w, last, from, until);
    } else {
      var row' := Some(WindowRow(w, 9, w + 450.0));
      assert 930.0 * (k as real) == 930.0 + 930.0 * ((k - 1) as real);
      OnslaughtCounts(row', w + 930.0, k - 1, w + 450.0, until);
      WholeWindow(row, w, Onslaught(w + 930.0, k - 1), from, until);
    }
  }

  /** Four failures at the end of an old window, then full windows back to back. */
  function WorstRun(a: real, k: nat): seq<Attempt> {
    [Attempt(a, false), Attempt(a, false), Attempt(a, false), Attempt(a, false)] + Onslaught(a + 30.0, k)
  }

  const OLD_ROW := Row(1, 1.0, None, 1.0)

  /** The old row is what one wrong password a second after the epoch leaves. */
  lemma OldRowIsReached()
    ensures Next(None, Attempt(1.0, false)) == Some(OLD_ROW) && Reached(Some(OLD_ROW), 901.0)
  {
  }

  lemma WorstRunCounts(k: nat, until: real)
    requires until >= 901.0 + 930.0 * (k as real) + 60.0
    ensures Wrong(Some(OLD_ROW), WorstRun(901.0, k)) == 9 * k + 10
    ensures Quiet(Some(OLD_ROW), WorstRun(901.0, k), 901.0, until)
  {
    Backoffs();
    hide Backoff, Wrong, Quiet, Onslaught;
    var hit := [Attempt(901.0, false)];
    var tail := Onslaught(931.0, k);
    var r3 := hit + tail;
    var r2 := hit + r3;
    var r1 := hit + r2;
    assert WorstRun(901.0, k) == hit + r1;
    OneMore(Some(OLD_ROW), 901.0, r1, 901.0, until);
    OneMore(Some(WindowRow(1.0, 2, 901.0)), 901.0, r2, 901.0, until);
    OneMore(Some(WindowRow(1.0, 3, 901.0)), 901.0, r3, 901.0, until);
    OneMore(Some(WindowRow(1.0, 4, 901.0)), 901.0, tail, 901.0, until);
    OnslaughtCounts(Some(WindowRow(1.0, 5, 901.0)), 931.0, k, 901.0, until);
  }
}
