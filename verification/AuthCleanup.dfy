/**
  Cleanup of stale authentication state (core/inkdrop_auth.py) and why nobody
  can tell that it ran: every later login, session check, password reset and
  password change comes out the same with the deleted rows and without them.
 */
module AuthCleanup {
  import opened Outcomes
  import opened LoginLimiter

  type Digest = string
  type UserId = string

  datatype User = User(name: string, passwordHash: string, enabled: bool)
  datatype Session = Session(id: string, user: UserId, csrfHash: Digest, lastSeenAt: Option<real>,
                             expiresAt: real, revokedAt: Option<real>)
  datatype Recovery = Recovery(user: UserId, expiresAt: real, usedAt: Option<real>)

  /** The auth tables.  Sessions and recovery tokens are unique by token digest, attempts by address bucket. */
  datatype Tables = Tables(
    users: map<UserId, User>,
    sessions: map<Digest, Session>,
    recoveries: map<Digest, Recovery>,
    attempts: map<string, Row>)

  // ------------------------------------------------------------------ cleanup

  /** The arguments of a cleanup pass, in seconds; the defaults are a day each. */
  datatype Retention = Retention(session: nat, recovery: nat, quiet: nat)

  const DEFAULT_RETENTION := Retention(86400, 86400, 86400)

  predicate AtMost(t: Option<real>, limit: real) { t.Some? && t.value <= limit }

  predicate SessionEligible(s: Session, now: real, keep: Retention) {
    var cutoff := now - (keep.session as real);
    s.expiresAt <= cutoff || AtMost(s.revokedAt, cutoff)
  }

  predicate RecoveryEligible(r: Recovery, now: real, keep: Retention) {
    var cutoff := now - (keep.recovery as real);
    r.expiresAt <= cutoff || AtMost(r.usedAt, cutoff)
  }

  /** A quiet time under a minute counts as one. */
  predicate AttemptEligible(r: Row, now: real, keep: Retention) {
    r.updatedAt <= now - ((if keep.quiet < 60 then 60 else keep.quiet) as real)
    && (r.lockedUntil.None? || r.lockedUntil.value <= now)
  }

  function EligibleSessions(t: Tables, now: real, keep: Retention): set<Digest> {
    set d | d in t.sessions && SessionEligible(t.sessions[d], now, keep)
  }

  function EligibleRecoveries(t: Tables, now: real, keep: Retention): set<Digest> {
    set d | d in t.recoveries && RecoveryEligible(t.recoveries[d], now, keep)
  }

  function EligibleAttempts(t: Tables, now: real, keep: Retention): set<string> {
    set k | k in t.attempts && AttemptEligible(t.attempts[k], now, keep)
  }

  function Clamp(batch: nat): nat {
    if batch < 1 then 1 else if batch > 1000 then 1000 else batch
  }

  function Min(a: nat, b: nat): nat { if a < b then a else b }

  /** One bounded deletion: as many of the eligible rows as the batch allows, and no others. */
  predicate Batch<K>(eligible: set<K>, deleted: set<K>, limit: nat) {
    deleted <= eligible && |deleted| == Min(|eligible|, limit)
  }

  ghost predicate CleanupStep(t: Tables, t': Tables, now: real, keep: Retention, limit: nat) {
    exists ds: set<Digest>, dr: set<Digest>, da: set<string> ::
      Batch(EligibleSessions(t, now, keep), ds, limit)
      && Batch(EligibleRecoveries(t, now, keep), dr, limit)
      && Batch(EligibleAttempts(t, now, keep), da, limit)
      && t' == Tables(t.users, t.sessions - ds, t.recoveries - dr, t.attempts - da)
  }

  /** Eligible rows left after a pass, per category. */
  function Remaining(t: Tables, now: real, keep: Retention): (nat, nat, nat) {
    (|EligibleSessions(t, now, keep)|, |EligibleRecoveries(t, now, keep)|, |EligibleAttempts(t, now, keep)|)
  }

  // ------------------------------------------------------------- later requests

  datatype Request =
    | Login(key: string, account: Option<UserId>, password: string, session: string, token: Digest, csrf: Digest,
            ttl: real)
    | CheckSession(token: Digest, csrf: Digest, touch: bool)
    | CreateRecovery(token: Digest, user: UserId, ttl: real)
    | ResetPassword(token: Digest, newHash: string)
    | ChangePassword(user: UserId, current: string, newHash: string, revoke: bool, kept: string)

  datatype Reply =
    | TooManyAttempts(until: real)
    | InvalidCredentials(lockedUntil: Option<real>)
    | SignedIn(user: UserId, session: string, expiresAt: real)
    | NoSession
    | SessionOf(session: string, user: UserId, expiresAt: real, csrfValid: bool)
    | RecoveryCreated(expiresAt: real)
    | UserNotFound
    | PasswordReset(user: UserId)
    | InvalidRecoveryToken
    | PasswordChanged
    | InvalidCurrentPassword

  /** Password verification is kept abstract. */
  type Verifier = (string, string) -> bool

  function RowAt(t: Tables, key: string): Option<Row> {
    if key in t.attempts then Some(t.attempts[key]) else None
  }

  /** Every session of the user that is not revoked yet is, but for one that is kept; no session has an empty id. */
  function Revoked(sessions: map<Digest, Session>, user: UserId, kept: string, now: real): map<Digest, Session> {
    map d | d in sessions ::
      if sessions[d].user == user && sessions[d].revokedAt.None? && (kept == "" || sessions[d].id != kept)
      then sessions[d].(revokedAt := Some(now))
      else sessions[d]
  }

  predicate CredentialsHold(t: Tables, user: Option<UserId>, password: string, verify: Verifier) {
    user.Some? && user.value in t.users && t.users[user.value].enabled
    && verify(password, t.users[user.value].passwordHash)
  }

  function HandleLogin(t: Tables, r: Request, now: real, verify: Verifier): (Tables, Reply)
    requires r.Login?
  {
    var row := RowAt(t, r.key);
    if Limited(row, now)
    then (t, TooManyAttempts(if row.value.lockedUntil.Some? then row.value.lockedUntil.value else 0.0))
    else if !CredentialsHold(t, r.account, r.password, verify) then
      var failed := AfterFailure(row, now);
      (t.(attempts := t.attempts[r.key := failed]), InvalidCredentials(failed.lockedUntil))
    else
      var session := Session(r.session, r.account.value, r.csrf, Some(now), now + r.ttl, None);
      (t.(attempts := t.attempts - {r.key}, sessions := t.sessions[r.token := session]),
       SignedIn(r.account.value, r.session, now + r.ttl))
  }

  predicate SessionLive(t: Tables, token: Digest, now: real) {
    token in t.sessions && t.sessions[token].revokedAt.None? && t.sessions[token].expiresAt > now
    && t.sessions[token].user in t.users && t.users[t.sessions[token].user].enabled
  }

  function HandleCheck(t: Tables, r: Request, now: real): (Tables, Reply)
    requires r.CheckSession?
  {
    if !SessionLive(t, r.token, now) then (t, NoSession)
    else
      var s := t.sessions[r.token];
      var touched := if r.touch && (s.lastSeenAt.None? || now - s.lastSeenAt.value >= 60.0)
                     then t.sessions[r.token := s.(lastSeenAt := Some(now))] else t.sessions;
      (t.(sessions := touched), SessionOf(s.id, s.user, s.expiresAt, r.csrf == s.csrfHash))
  }

  predicate RecoveryUsable(t: Tables, token: Digest, now: real) {
    token in t.recoveries && t.recoveries[token].usedAt.None? && t.recoveries[token].expiresAt > now
    && t.recoveries[token].user in t.users
  }

  function HandleReset(t: Tables, r: Request, now: real): (Tables, Reply)
    requires r.ResetPassword?
  {
    if !RecoveryUsable(t, r.token, now) then (t, InvalidRecoveryToken)
    else
      var rec := t.recoveries[r.token];
      (Tables(t.users[rec.user := t.users[rec.user].(passwordHash := r.newHash)],
              Revoked(t.sessions, rec.user, "", now),
              t.recoveries[r.token := rec.(usedAt := Some(now))],
              t.attempts),
       PasswordReset(rec.user))
  }

  function Handle(t: Tables, r: Request, now: real, verify: Verifier): (Tables, Reply) {
    match r
    case Login(_, _, _, _, _, _, _) => HandleLogin(t, r, now, verify)
    case CheckSession(_, _, _) => HandleCheck(t, r, now)
    case CreateRecovery(token, user, ttl) =>
      if user in t.users && t.users[user].enabled
      then (t.(recoveries := t.recoveries[token := Recovery(user, now + ttl, None)]), RecoveryCreated(now + ttl))
      else (t, UserNotFound)
    case ResetPassword(_, _) => HandleReset(t, r, now)
    case ChangePassword(user, current, newHash, revoke, kept) =>
      if CredentialsHold(t, Some(user), current, verify)
      then (t.(users := t.users[user := t.users[user].(passwordHash := newHash)],
               sessions := if revoke then Revoked(t.sessions, user, kept, now) else t.sessions), PasswordChanged)
      else (t, InvalidCurrentPassword)
  }

  // --------------------------------------------------------------- indifference

  predicate SessionDead(s: Session, now: real) { s.expiresAt <= now || AtMost(s.revokedAt, now) }
  predicate RecoveryDead(r: Recovery, now: real) { r.expiresAt <= now || AtMost(r.usedAt, now) }
  predicate AttemptDead(r: Row, now: real) {
    now - r.windowStarted > LOGIN_WINDOW_SECONDS && (r.lockedUntil.None? || r.lockedUntil.value <= now)
  }

  predicate SessionsAlike(a: map<Digest, Session>, b: map<Digest, Session>, now: real) {
    b.Keys <= a.Keys && (forall d | d in b :: b[d] == a[d])
    && (forall d | d in a && d !in b :: SessionDead(a[d], now))
  }

  predicate RecoveriesAlike(a: map<Digest, Recovery>, b: map<Digest, Recovery>, now: real) {
    b.Keys <= a.Keys && (forall d | d in b :: b[d] == a[d])
    && (forall d | d in a && d !in b :: RecoveryDead(a[d], now))
  }

  predicate AttemptsAlike(a: map<string, Row>, b: map<string, Row>, now: real) {
    b.Keys <= a.Keys && (forall k | k in b :: b[k] == a[k])
    && (forall k | k in a && k !in b :: AttemptDead(a[k], now))
  }

  /** b holds the rows of a, except some that no request from now on can notice. */
  predicate Indifferent(a: Tables, b: Tables, now: real) {
    a.users == b.users && SessionsAlike(a.sessions, b.sessions, now)
    && RecoveriesAlike(a.recoveries, b.recoveries, now) && AttemptsAlike(a.attempts, b.attempts, now)
  }

  /** New tokens are random: none is already stored. */
  predicate NewTokens(t: Tables, r: Request) {
    match r
    case Login(_, _, _, _, token, _, _) => token !in t.sessions
    case CreateRecovery(token, _, _) => token !in t.recoveries
    case _ => true
  }

  /** Tables a running system reaches: every attempt row was written by the limiter. */
  predicate Reachable(t: Tables, now: real) {
    forall k | k in t.attempts :: Reached(Some(t.attempts[k]), now)
  }

  /** A dead row counts like no row at all. */
  lemma DeadRowCountsAsNone(r: Row, now: real, later: real)
    requires AttemptDead(r, now) && now <= later && later > 0.0
    ensures !Limited(Some(r), later) && AfterFailure(Some(r), later) == AfterFailure(None, later)
  {
    hide Backoff;
  }

  lemma RowsAgree(a: Tables, b: Tables, key: string, now: real, later: real)
    requires Indifferent(a, b, now) && 0.0 < later && now <= later
    ensures Limited(RowAt(a, key), later) <==> Limited(RowAt(b, key), later)
    ensures Limited(RowAt(a, key), later) ==> RowAt(a, key) == RowAt(b, key)
    ensures AfterFailure(RowAt(a, key), later) == AfterFailure(RowAt(b, key), later)
  {
    if key in a.attempts && key !in b.attempts {
      DeadRowCountsAsNone(a.attempts[key], now, later);
    }
  }

  lemma StillIndifferent(a: Tables, b: Tables, now: real, later: real)
    requires Indifferent(a, b, now) && now <= later
    ensures Indifferent(a, b, later)
  {
  }

  lemma RevokedAlike(a: map<Digest, Session>, b: map<Digest, Session>, user: UserId, kept: string,
                      now: real)
    requires SessionsAlike(a, b, now)
    ensures SessionsAlike(Revoked(a, user, kept, now), Revoked(b, user, kept, now), now)
  {
  }

  lemma AttemptsReplaced(a: map<string, Row>, b: map<string, Row>, key: string, row: Row, now: real)
    requires AttemptsAlike(a, b, now)
    ensures AttemptsAlike(a[key := row], b[key := row], now) && AttemptsAlike(a - {key}, b - {key}, now)
  {
  }

  lemma SessionInserted(a: map<Digest, Session>, b: map<Digest, Session>, token: Digest, s: Session, now: real)
    requires SessionsAlike(a, b, now) && token !in a
    ensures SessionsAlike(a[token := s], b[token := s], now)
  {
  }

  lemma SameLogin(a: Tables, b: Tables, r: Request, now: real, later: real, verify: Verifier)
    requires r.Login? && Indifferent(a, b, now) && Indifferent(a, b, later)
    requires 0.0 < later && now <= later && NewTokens(a, r)
    ensures var ((a', ra), (b', rb)) := (HandleLogin(a, r, later, verify), HandleLogin(b, r, later, verify));
            ra == rb && Indifferent(a', b', later)
  {
    hide AfterFailure, Limited, Backoff, SessionsAlike, RecoveriesAlike, AttemptsAlike, RowAt;
    RowsAgree(a, b, r.key, now, later);
    AttemptsReplaced(a.attempts, b.attempts, r.key, AfterFailure(RowAt(a, r.key), later), later);
    if CredentialsHold(a, r.account, r.password, verify) {
      SessionInserted(a.sessions, b.sessions, r.token,
                      Session(r.session, r.account.value, r.csrf, Some(later), later + r.ttl, None), later);
    }
  }

  lemma SameCheck(a: Tables, b: Tables, r: Request, later: real)
    requires r.CheckSession? && Indifferent(a, b, later)
    ensures var ((a', ra), (b', rb)) := (HandleCheck(a, r, later), HandleCheck(b, r, later));
            ra == rb && Indifferent(a', b', later)
  {
    hide RecoveryDead, AttemptDead;
    assert SessionLive(a, r.token, later) <==> SessionLive(b, r.token, later);
  }

  lemma SameReset(a: Tables, b: Tables, r: Request, later: real)
    requires r.ResetPassword? && Indifferent(a, b, later)
    ensures var ((a', ra), (b', rb)) := (HandleReset(a, r, later), HandleReset(b, r, later));
            ra == rb && Indifferent(a', b', later)
  {
    hide SessionDead, AttemptDead, SessionsAlike, AttemptsAlike, Revoked;
    assert RecoveryUsable(a, r.token, later) <==> RecoveryUsable(b, r.token, later);
    if RecoveryUsable(a, r.token, later) {
      RevokedAlike(a.sessions, b.sessions, a.recoveries[r.token].user, "", later);
    }
  }

  /** One request: the same reply from both tables, and they stay indifferent. */
  lemma SameReply(a: Tables, b: Tables, r: Request, now: real, later: real, verify: Verifier)
    requires Indifferent(a, b, now) && 0.0 < later && now <= later && NewTokens(a, r)
    ensures var ((a', ra), (b', rb)) := (Handle(a, r, later, verify), Handle(b, r, later, verify));
            ra == rb && Indifferent(a', b', later)
  {
    hide HandleLogin, HandleCheck, HandleReset, SessionsAlike, AttemptsAlike, Revoked;
    StillIndifferent(a, b, now, later);
    match r
    case Login(_, _, _, _, _, _, _) => SameLogin(a, b, r, now, later, verify);
    case CheckSession(_, _, _) => SameCheck(a, b, r, later);
    case CreateRecovery(_, _, _) =>
    case ResetPassword(_, _) => SameReset(a, b, r, later);
    case ChangePassword(user, _, _, _, kept) => RevokedAlike(a.sessions, b.sessions, user, kept, later);
  }

  lemma ReachableNext(t: Tables, r: Request, now: real, later: real, verify: Verifier)
    requires Reachable(t, now) && 0.0 < later && now <= later
    ensures Reachable(Handle(t, r, later, verify).0, later)
  {
    hide AfterFailure, Backoff;
    forall k | k in t.attempts ensures Reached(Some(t.attempts[k]), later) {
    }
    if r.Login? && !Limited(RowAt(t, r.key), later) && !CredentialsHold(t, r.account, r.password, verify) {
      ReachedNext(RowAt(t, r.key), now, Attempt(later, false));
    }
  }

  // ------------------------------------------------------------------- whole runs

  /** Requests with the moments they arrive. */
  datatype Arrival = Arrival(at: real, request: Request)

  predicate Proper(t: Tables, later: seq<Arrival>, now: real, verify: Verifier)
    decreases |later|
  {
    later == []
    || (0.0 < later[0].at && now <= later[0].at && NewTokens(t, later[0].request)
        && Proper(Handle(t, later[0].request, later[0].at, verify).0, later[1..], later[0].at, verify))
  }

  function Replies(t: Tables, later: seq<Arrival>, verify: Verifier): seq<Reply>
    decreases |later|
  {
    if later == [] then []
    else
      var (t', reply) := Handle(t, later[0].request, later[0].at, verify);
      [reply] + Replies(t', later[1..], verify)
  }

  lemma {:induction false} SameReplies(a: Tables, b: Tables, later: seq<Arrival>, now: real, verify: Verifier)
    requires Indifferent(a, b, now) && Proper(a, later, now, verify)
    ensures Replies(a, later, verify) == Replies(b, later, verify)
    decreases |later|
  {
    hide Handle, NewTokens, Indifferent;
    if later != [] {
      var (r, at) := (later[0].request, later[0].at);
      SameReply(a, b, r, now, at, verify);
      SameReplies(Handle(a, r, at, verify).0, Handle(b, r, at, verify).0, later[1..], at, verify);
    }
  }

  /** A cleanup pass with a long enough quiet time deletes only rows nobody can notice. */
  lemma CleanupIndifferent(t: Tables, t': Tables, now: real, keep: Retention, limit: nat)
    requires Reachable(t, now) && CleanupStep(t, t', now, keep, limit) && keep.quiet > 900
    ensures Indifferent(t, t', now)
  {
  }

  /**
    Cleanup is unobservable: whatever logins, session checks, recoveries and
    password changes follow, every reply is the same as without the cleanup.
   */
  lemma CleanupUnobservable(t: Tables, t': Tables, now: real, keep: Retention, limit: nat,
                            later: seq<Arrival>, verify: Verifier)
    requires Reachable(t, now) && CleanupStep(t, t', now, keep, limit) && keep.quiet > 900
    requires Proper(t, later, now, verify)
    ensures Replies(t, later, verify) == Replies(t', later, verify)
  {
    hide CleanupStep, Reachable, Replies, Proper, Indifferent;
    CleanupIndifferent(t, t', now, keep, limit);
    SameReplies(t, t', later, now, verify);
  }

  /** What has happened to the tables: a request, or a cleanup pass and what it left. */
  datatype Past = Asked(arrival: Arrival) | Cleaned(at: real, keep: Retention, limit: nat, after: Tables)

  /** A history leads from one state of the tables, and one moment, to another. */
  ghost predicate Leads(t: Tables, now: real, past: seq<Past>, t': Tables, now': real, verify: Verifier)
    decreases |past|
  {
    if past == [] then t' == t && now' == now
    else
      match past[0]
      case Asked(a) =>
        0.0 < a.at && now <= a.at && Leads(Handle(t, a.request, a.at, verify).0, a.at, past[1..], t', now', verify)
      case Cleaned(at, keep, limit, after) =>
        now <= at && CleanupStep(t, after, at, keep, limit) && Leads(after, at, past[1..], t', now', verify)
  }

  lemma CleanedReachable(t: Tables, t': Tables, now: real, at: real, keep: Retention, limit: nat)
    requires Reachable(t, now) && now <= at && CleanupStep(t, t', at, keep, limit)
    ensures Reachable(t', at)
  {
    hide Backoff, Lag;
  }

  /** Every history of requests and cleanups keeps the attempt rows as the limiter writes them. */
  lemma {:induction false} ReachableRun(t: Tables, now: real, past: seq<Past>, t': Tables, now': real, verify: Verifier)
    requires Reachable(t, now) && Leads(t, now, past, t', now', verify)
    ensures Reachable(t', now')
    decreases |past|
  {
    hide Reachable, Handle, CleanupStep;
    if past != [] {
      match past[0]
      case Asked(a) =>
        ReachableNext(t, a.request, now, a.at, verify);
        ReachableRun(Handle(t, a.request, a.at, verify).0, a.at, past[1..], t', now', verify);
      case Cleaned(at, keep, limit, after) =>
        CleanedReachable(t, after, now, at, keep, limit);
        ReachableRun(after, at, past[1..], t', now', verify);
    }
  }

  /** Whatever has happened since there were no attempts, one more cleanup changes no later reply. */
  lemma CleanupUnobservableInRuns(start: Tables, began: real, past: seq<Past>, t: Tables, now: real, t': Tables,
                                  keep: Retention, limit: nat,
                                  later: seq<Arrival>, verify: Verifier)
    requires start.attempts == map[] && Leads(start, began, past, t, now, verify)
    requires CleanupStep(t, t', now, keep, limit) && keep.quiet > 900 && Proper(t, later, now, verify)
    ensures Replies(t, later, verify) == Replies(t', later, verify)
  {
    assert Reachable(start, began);
    hide *;
    ReachableRun(start, began, past, t, now, verify);
    CleanupUnobservable(t, t', now, keep, limit, later, verify);
  }

  ghost predicate Unobservable(keep: Retention) {
    forall t, t', now, limit, later, verify ::
      limit > 0 && Reachable(t, now) && CleanupStep(t, t', now, keep, limit) && Proper(t, later, now, verify) ==>
        Replies(t, later, verify) == Replies(t', later, verify)
  }

  /**
    The default keeps cleanup unobservable; in general it is so exactly when the quiet time
    exceeds the login window.
   */
  lemma UnobservableExactly(keep: Retention)
    ensures Unobservable(keep) <==> keep.quiet > 900
    ensures Unobservable(DEFAULT_RETENTION)
  {
    forall t, t', now, k, limit, later, verify
      | Reachable(t, now) && CleanupStep(t, t', now, k, limit) && k.quiet > 900 && Proper(t, later, now, verify)
      ensures Replies(t, later, verify) == Replies(t', later, verify)
    {
      CleanupUnobservable(t, t', now, k, limit, later, verify);
    }
    if keep.quiet <= 900 {
      ShortQuietShows(keep);
    }
  }

  /** Four failures, deleted while their window is still open: the fifth is no longer answered with a lock. */
  lemma ShortQuietShows(keep: Retention)
    requires keep.quiet <= 900
    ensures !Unobservable(keep)
  {
    var now := 2000.0;
    var written := now - ((if keep.quiet < 60 then 60 else keep.quiet) as real);
    var row := Row(4, written, None, written);
    var t := Tables(map[], map[], map[], map["k" := row]);
    var t' := Tables(map[], map[], map[], map[]);
    var request := Login("k", None, "", "", "", "", 0.0);
    var later := [Arrival(now, request)];
    var verify := (p: string, h: string) => false;
    assert EligibleAttempts(t, now, keep) == {"k"};
    assert EligibleSessions(t, now, keep) == {} && EligibleRecoveries(t, now, keep) == {};
    assert t' == Tables(t.users, t.sessions - {}, t.recoveries - {}, t.attempts - {"k"});
    assert Batch(EligibleAttempts(t, now, keep), {"k"}, 1);
    assert CleanupStep(t, t', now, keep, 1);
    assert Replies(t, later, verify)[0] == InvalidCredentials(AfterFailure(Some(row), now).lockedUntil);
    assert Replies(t', later, verify)[0] == InvalidCredentials(AfterFailure(None, now).lockedUntil);
    assert AfterFailure(Some(row), now).lockedUntil.Some? && AfterFailure(None, now).lockedUntil.None?;
    assert Proper(t, later, now, verify);
  }

  // ------------------------------------------------------------ bounded passes

  lemma CardinalityLeft<K>(eligible: set<K>, deleted: set<K>, limit: nat)
    requires Batch(eligible, deleted, limit)
    ensures |eligible - deleted| == |eligible| - Min(|eligible|, limit)
  {
    assert eligible == (eligible - deleted) + deleted;
  }

  /** One pass takes a full batch off each category, or all that is left of it, and touches nothing else. */
  lemma PassShrinks(t: Tables, t': Tables, now: real, keep: Retention, limit: nat)
    requires CleanupStep(t, t', now, keep, limit)
    ensures var (before, after) := (Remaining(t, now, keep), Remaining(t', now, keep));
            after.0 == before.0 - Min(before.0, limit) && after.1 == before.1 - Min(before.1, limit)
            && after.2 == before.2 - Min(before.2, limit)
    ensures OnlyEligibleGone(t, t', now, keep)
  {
    hide SessionEligible, RecoveryEligible, AttemptEligible;
    var ds, dr, da :| Batch(EligibleSessions(t, now, keep), ds, limit)
      && Batch(EligibleRecoveries(t, now, keep), dr, limit)
      && Batch(EligibleAttempts(t, now, keep), da, limit)
      && t' == Tables(t.users, t.sessions - ds, t.recoveries - dr, t.attempts - da);
    LeftAfterPass(t, t', now, keep, ds, dr, da);
    hide EligibleSessions, EligibleRecoveries, EligibleAttempts, OnlyEligibleGone;
    CardinalityLeft(EligibleSessions(t, now, keep), ds, limit);
    CardinalityLeft(EligibleRecoveries(t, now, keep), dr, limit);
    CardinalityLeft(EligibleAttempts(t, now, keep), da, limit);
  }

  lemma LeftAfterPass(t: Tables, t': Tables, now: real, keep: Retention, ds: set<Digest>, dr: set<Digest>,
                      da: set<string>)
    requires ds <= EligibleSessions(t, now, keep) && dr <= EligibleRecoveries(t, now, keep)
             && da <= EligibleAttempts(t, now, keep)
    requires t' == Tables(t.users, t.sessions - ds, t.recoveries - dr, t.attempts - da)
    ensures EligibleSessions(t', now, keep) == EligibleSessions(t, now, keep) - ds
    ensures EligibleRecoveries(t', now, keep) == EligibleRecoveries(t, now, keep) - dr
    ensures EligibleAttempts(t', now, keep) == EligibleAttempts(t, now, keep) - da
    ensures OnlyEligibleGone(t, t', now, keep)
  {
    hide SessionEligible, RecoveryEligible, AttemptEligible;
  }

  /** Everything that was not eligible is still there, unchanged, and nothing new appeared. */
  predicate OnlyEligibleGone(t: Tables, t': Tables, now: real, keep: Retention) {
    t'.users == t.users
    && (forall d | d in t'.sessions :: d in t.sessions && t'.sessions[d] == t.sessions[d])
    && (forall d | d in t.sessions && d !in t'.sessions :: SessionEligible(t.sessions[d], now, keep))
    && (forall d | d in t'.recoveries :: d in t.recoveries && t'.recoveries[d] == t.recoveries[d])
    && (forall d | d in t.recoveries && d !in t'.recoveries :: RecoveryEligible(t.recoveries[d], now, keep))
    && (forall k | k in t'.attempts :: k in t.attempts && t'.attempts[k] == t.attempts[k])
    && (forall k | k in t.attempts && k !in t'.attempts :: AttemptEligible(t.attempts[k], now, keep))
  }

  ghost predicate Passes(ts: seq<Tables>, now: real, keep: Retention, limit: nat) {
    |ts| > 0 && forall i | 0 <= i < |ts| - 1 :: CleanupStep(ts[i], ts[i + 1], now, keep, limit)
  }

  /** Repeated passes at one moment: after n of them, n batches are gone from each category, until none is left. */
  lemma {:induction false} PassesReachZero(ts: seq<Tables>, now: real, keep: Retention, limit: nat)
    requires limit > 0 && Passes(ts, now, keep, limit)
    ensures var n := |ts| - 1;
            var (before, after) := (Remaining(ts[0], now, keep), Remaining(ts[n], now, keep));
            after.0 == before.0 - Min(before.0, n * limit) && after.1 == before.1 - Min(before.1, n * limit)
            && after.2 == before.2 - Min(before.2, n * limit)
    ensures OnlyEligibleGone(ts[0], ts[|ts| - 1], now, keep)
    decreases |ts|
  {
    hide CleanupStep, Remaining, OnlyEligibleGone, Min;
    if |ts| == 1 {
      NothingGone(ts[0], now, keep);
    } else {
      var n := |ts| - 1;
      var init := ts[..n];
      assert forall i | 0 <= i < n :: init[i] == ts[i];
      PassesReachZero(init, now, keep, limit);
      assert CleanupStep(ts[n - 1], ts[n], now, keep, limit);
      PassShrinks(ts[n - 1], ts[n], now, keep, limit);
      GoneTransitively(ts[0], ts[n - 1], ts[n], now, keep);
      var done := (n - 1) * limit;
      assert n * limit == done + limit;
      var before := Remaining(ts[0], now, keep);
      TakenTogether(before.0, done, limit);
      TakenTogether(before.1, done, limit);
      TakenTogether(before.2, done, limit);
    }
  }

  lemma TakenTogether(all: nat, done: nat, more: nat)
    ensures Min(all, done) <= all
    ensures (all - Min(all, done)) - Min(all - Min(all, done), more) == all - Min(all, done + more)
  {
  }

  lemma NothingGone(t: Tables, now: real, keep: Retention)
    ensures OnlyEligibleGone(t, t, now, keep)
    ensures Min(Remaining(t, now, keep).0, 0) == Min(Remaining(t, now, keep).1, 0) == Min(Remaining(t, now, keep).2, 0)
            == 0
  {
  }

  lemma GoneTransitively(a: Tables, b: Tables, c: Tables, now: real, keep: Retention)
    requires OnlyEligibleGone(a, b, now, keep) && OnlyEligibleGone(b, c, now, keep)
    ensures OnlyEligibleGone(a, c, now, keep)
  {
    hide SessionEligible, RecoveryEligible, AttemptEligible;
  }

  // ------------------------------------------------------------ the pass itself

  /** select ... limit: up to limit keys out of the eligible ones. */
  method SelectUpTo<K(==)>(eligible: set<K>, limit: nat) returns (ids: set<K>)
    ensures Batch(eligible, ids, limit)
  {
    ids := {};
    var left := eligible;
    while left != {} && |ids| < limit
      invariant ids <= eligible && left == eligible - ids && |ids| <= limit
      invariant |eligible| == |ids| + |left|
      decreases |left|
    {
      var id :| id in left;
      ids, left := ids + {id}, left - {id};
    }
  }

  class AuthDatabase {
    var tables: Tables

    constructor (t: Tables)
      ensures tables == t
    {
      tables := t;
    }

    /** cleanup_auth_state: one bounded transaction over the three categories. */
    method CleanupAuthState(now: real, keep: Retention, batchLimit: nat) returns (remaining: (nat, nat, nat))
      modifies this
      ensures CleanupStep(old(tables), tables, now, keep, Clamp(batchLimit))
      ensures remaining == Remaining(tables, now, keep)
    {
      hide SessionEligible, RecoveryEligible, AttemptEligible;
      var limit := Clamp(batchLimit);
      var sessions := SelectUpTo(EligibleSessions(tables, now, keep), limit);
      tables := tables.(sessions := tables.sessions - sessions);
      var recoveries := SelectUpTo(EligibleRecoveries(tables, now, keep), limit);
      tables := tables.(recoveries := tables.recoveries - recoveries);
      var attempts := SelectUpTo(EligibleAttempts(tables, now, keep), limit);
      tables := tables.(attempts := tables.attempts - attempts);
      remaining := Remaining(tables, now, keep);
    }
  }
}
