/**
  What becomes of sessions, passwords and recovery tokens over whole runs of
  requests and cleanups (core/inkdrop_auth.py).
 */
module AuthSessions {
  import opened Outcomes
  import opened LoginLimiter
  import opened AuthCleanup

  // ----------------------------------------------------------- single requests

  predicate SameUser(a: User, b: User) { a.name == b.name && a.enabled == b.enabled }

  /** Only this user's password hash differs. */
  predicate PasswordSet(t: Tables, t': Tables, user: UserId, newHash: string) {
    user in t.users && t'.users.Keys == t.users.Keys
    && (forall u | u in t.users && u != user :: t'.users[u] == t.users[u])
    && SameUser(t.users[user], t'.users[user]) && t'.users[user].passwordHash == newHash
  }

  /**
    The user's sessions are revoked as of now, save the one kept and those revoked before;
    no other session differs.
   */
  predicate SessionsEnded(t: Tables, t': Tables, user: UserId, kept: string, now: real) {
    t'.sessions.Keys == t.sessions.Keys
    && forall d | d in t.sessions ::
         var (s, s') := (t.sessions[d], t'.sessions[d]);
         if s.user == user && s.revokedAt.None? && !(kept != "" && s.id == kept)
         then s' == Session(s.id, s.user, s.csrfHash, s.lastSeenAt, s.expiresAt, Some(now))
         else s' == s
  }

  /** The token is spent; no other token differs. */
  predicate TokenSpent(t: Tables, t': Tables, token: Digest, now: real) {
    token in t.recoveries && t'.recoveries.Keys == t.recoveries.Keys
    && (forall d | d in t.recoveries && d != token :: t'.recoveries[d] == t.recoveries[d])
    && t'.recoveries[token] == Recovery(t.recoveries[token].user, t.recoveries[token].expiresAt, Some(now))
  }

  /**
    A recovery token resets its user's password exactly while it is unspent and
    unexpired; the reset ends every session of the user and spends the token.
   */
  lemma ResetExactly(t: Tables, r: Request, now: real, verify: Verifier)
    requires r.ResetPassword?
    ensures var (t', reply) := Handle(t, r, now, verify);
            if r.token in t.recoveries && t.recoveries[r.token].usedAt == None && now < t.recoveries[r.token].expiresAt
               && t.recoveries[r.token].user in t.users
            then
              var user := t.recoveries[r.token].user;
              reply == PasswordReset(user) && PasswordSet(t, t', user, r.newHash)
              && SessionsEnded(t, t', user, "", now) && TokenSpent(t, t', r.token, now) && t'.attempts == t.attempts
            else reply == InvalidRecoveryToken && t' == t
  {
  }

  /** A password changes exactly for an enabled user who gives the current one. */
  lemma ChangeExactly(t: Tables, r: Request, now: real, verify: Verifier)
    requires r.ChangePassword?
    ensures var (t', reply) := Handle(t, r, now, verify);
            if r.user in t.users && t.users[r.user].enabled && verify(r.current, t.users[r.user].passwordHash)
            then
              reply == PasswordChanged && PasswordSet(t, t', r.user, r.newHash)
              && (if r.revoke then SessionsEnded(t, t', r.user, r.kept, now) else t'.sessions == t.sessions)
              && t'.recoveries == t.recoveries && t'.attempts == t.attempts
            else reply == InvalidCurrentPassword && t' == t
  {
  }

  /** A login is refused while its bucket is locked, and succeeds exactly with the enabled account's password. */
  lemma LoginExactly(t: Tables, r: Request, now: real, verify: Verifier)
    requires r.Login? && NewTokens(t, r) && 0.0 < now
    ensures var (t', reply) := Handle(t, r, now, verify);
            var lock := if r.key in t.attempts then t.attempts[r.key].lockedUntil else None;
            if lock.Some? && lock.value > now then reply == TooManyAttempts(lock.value) && t' == t
            else if r.account.Some? && r.account.value in t.users && t.users[r.account.value].enabled
                    && verify(r.password, t.users[r.account.value].passwordHash)
            then
              reply == SignedIn(r.account.value, r.session, now + r.ttl)
              && t'.sessions - {r.token} == t.sessions && r.token in t'.sessions
              && t'.sessions[r.token] == Session(r.session, r.account.value, r.csrf, Some(now), now + r.ttl, None)
              && t'.attempts == t.attempts - {r.key} && t'.users == t.users && t'.recoveries == t.recoveries
            else
              t'.users == t.users && t'.sessions == t.sessions && t'.recoveries == t.recoveries
              && r.key in t'.attempts && t'.attempts - {r.key} == t.attempts - {r.key}
              && reply == InvalidCredentials(t'.attempts[r.key].lockedUntil)
  {
    hide AfterFailure;
    assert t.sessions - {r.token} == t.sessions;
  }

  /** What a session is told about itself. */
  predicate Accepts(s: Session, csrf: Digest, reply: Reply) {
    reply == SessionOf(s.id, s.user, s.expiresAt, csrf == s.csrfHash)
  }

  /** A session check answers for the session exactly while it is live, and changes at most when it was last seen. */
  lemma CheckExactly(t: Tables, r: Request, now: real, verify: Verifier)
    requires r.CheckSession?
    ensures var (t', reply) := Handle(t, r, now, verify);
            if r.token in t.sessions && t.sessions[r.token].revokedAt == None && now < t.sessions[r.token].expiresAt
               && t.sessions[r.token].user in t.users && t.users[t.sessions[r.token].user].enabled
            then
              var s := t.sessions[r.token];
              Accepts(s, r.csrf, reply) && t'.users == t.users && t'.recoveries == t.recoveries
              && t'.attempts == t.attempts
              && t'.sessions
                 == (if r.touch && (s.lastSeenAt == None || now - s.lastSeenAt.value >= 60.0)
                     then t.sessions[r.token := Session(s.id, s.user, s.csrfHash, Some(now), s.expiresAt, None)]
                     else t.sessions)
            else reply == NoSession && t' == t
  {
  }

  // ------------------------------------------------------------ a session's life

  /** The request ends this session: a reset by its user's token, or a change of the password that does not keep it. */
  predicate Ends(t: Tables, r: Request, now: real, verify: Verifier, s: Session) {
    var reply := Handle(t, r, now, verify).1;
    reply == PasswordReset(s.user)
    || (r.ChangePassword? && reply == PasswordChanged && r.user == s.user && r.revoke
        && !(r.kept != "" && s.id == r.kept))
  }

  /** Some request of the run ends the session. */
  ghost predicate Ended(t: Tables, future: seq<Past>, verify: Verifier, s: Session)
    decreases |future|
  {
    future != []
    && match future[0]
       case Asked(a) =>
         Ends(t, a.request, a.at, verify, s) || Ended(Handle(t, a.request, a.at, verify).0, future[1..], verify, s)
       case Cleaned(_, _, _, after) => Ended(after, future[1..], verify, s)
  }

  /** No login of the run is given this token. */
  predicate NotReused(future: seq<Past>, token: Digest) {
    forall i | 0 <= i < |future| && future[i].Asked? && future[i].arrival.request.Login? ::
      future[i].arrival.request.token != token
  }

  /** The same session, whenever it was last seen. */
  predicate SameSession(s: Session, s': Session) {
    s'.id == s.id && s'.user == s.user && s'.csrfHash == s.csrfHash && s'.expiresAt == s.expiresAt
  }

  /** As the session stands at a moment: there and not revoked, or over. */
  predicate Stands(t: Tables, token: Digest, s: Session, ended: bool, now: real) {
    s.user in t.users && t.users[s.user].enabled
    && (if token in t.sessions then SameSession(s, t.sessions[token]) && (t.sessions[token].revokedAt.Some? <==> ended)
        else ended || s.expiresAt <= now)
  }

  lemma StandsAfter(t: Tables, r: Request, now: real, at: real, verify: Verifier, token: Digest, s: Session,
                    ended: bool)
    requires Stands(t, token, s, ended, now) && now <= at && (r.Login? ==> r.token != token)
    ensures Stands(Handle(t, r, at, verify).0, token, s, ended || Ends(t, r, at, verify, s), at)
  {
    hide AfterFailure;
    match r
    case Login(_, _, _, _, _, _, _) =>
    case CheckSession(_, _, _) => CheckExactly(t, r, at, verify);
    case CreateRecovery(_, _, _) =>
    case ResetPassword(_, _) => ResetExactly(t, r, at, verify);
    case ChangePassword(_, _, _, _, _) => ChangeExactly(t, r, at, verify);
  }

  lemma StandsCleaned(t: Tables, t': Tables, now: real, at: real, keep: Retention, limit: nat, token: Digest,
                      s: Session,
                      ended: bool)
    requires Stands(t, token, s, ended, now) && now <= at && CleanupStep(t, t', at, keep, limit)
    ensures Stands(t', token, s, ended, at)
  {
    PassShrinks(t, t', at, keep, limit);
    hide RecoveryEligible, AttemptEligible, CleanupStep;
  }

  lemma {:induction false} StandsRun(t: Tables, now: real, future: seq<Past>, t': Tables, now': real, verify: Verifier,
                                     token: Digest, s: Session, ended: bool)
    requires Stands(t, token, s, ended, now) && Leads(t, now, future, t', now', verify) && NotReused(future, token)
    ensures Stands(t', token, s, ended || Ended(t, future, verify, s), now') && now <= now'
    decreases |future|
  {
    hide Stands, Handle, CleanupStep, Ends;
    if future != [] {
      assert NotReused(future[1..], token);
      match future[0]
      case Asked(a) =>
        var t1 := Handle(t, a.request, a.at, verify).0;
        StandsAfter(t, a.request, now, a.at, verify, token, s, ended);
        StandsRun(t1, a.at, future[1..], t', now', verify, token, s, ended || Ends(t, a.request, a.at, verify, s));
      case Cleaned(at, keep, limit, after) =>
        StandsCleaned(t, after, now, at, keep, limit, token, s, ended);
        StandsRun(after, at, future[1..], t', now', verify, token, s, ended);
    }
  }

  /**
    From the login that began it, through every run of requests and cleanups, a
    session is answered for exactly until it expires or a reset or change of its
    user's password ends it.
   */
  lemma SessionLifeExactly(t: Tables, login: Request, now: real, future: seq<Past>, t': Tables, now': real,
                           check: Request, at: real, verify: Verifier)
    requires login.Login? && NewTokens(t, login) && Handle(t, login, now, verify).1.SignedIn? && 0.0 < now
    requires Leads(Handle(t, login, now, verify).0, now, future, t', now', verify) && NotReused(future, login.token)
    requires check.CheckSession? && check.token == login.token && now' <= at
    ensures var t1 := Handle(t, login, now, verify).0;
            var s := Session(login.session, login.account.value, login.csrf, Some(now), now + login.ttl, None);
            var reply := Handle(t', check, at, verify).1;
            if at < now + login.ttl && !Ended(t1, future, verify, s) then Accepts(s, check.csrf, reply)
            else reply == NoSession
  {
    var t1 := Handle(t, login, now, verify).0;
    var s := Session(login.session, login.account.value, login.csrf, Some(now), now + login.ttl, None);
    LoginExactly(t, login, now, verify);
    assert Stands(t1, login.token, s, false, now);
    StandsRun(t1, now, future, t', now', verify, login.token, s, false);
    CheckExactly(t', check, at, verify);
    hide Handle, Leads, Ended;
  }

  // ------------------------------------------------------------ a recovery's life

  /** Spent, or deleted after that or after it expired. */
  predicate Useless(t: Tables, token: Digest, now: real) {
    token in t.recoveries ==> t.recoveries[token].usedAt.Some? || t.recoveries[token].expiresAt <= now
  }

  predicate NotReissued(future: seq<Past>, token: Digest) {
    forall i | 0 <= i < |future| && future[i].Asked? && future[i].arrival.request.CreateRecovery? ::
      future[i].arrival.request.token != token
  }

  lemma UselessAfter(t: Tables, r: Request, now: real, at: real, verify: Verifier, token: Digest)
    requires Useless(t, token, now) && now <= at && (r.CreateRecovery? ==> r.token != token)
    ensures Useless(Handle(t, r, at, verify).0, token, at)
  {
    hide AfterFailure;
  }

  lemma {:induction false} UselessRun(t: Tables, now: real, future: seq<Past>, t': Tables, now': real, verify: Verifier,
                                      token: Digest)
    requires Useless(t, token, now) && Leads(t, now, future, t', now', verify) && NotReissued(future, token)
    ensures Useless(t', token, now')
    decreases |future|
  {
    hide Useless, Handle, CleanupStep;
    if future != [] {
      assert NotReissued(future[1..], token);
      match future[0]
      case Asked(a) =>
        UselessAfter(t, a.request, now, a.at, verify, token);
        UselessRun(Handle(t, a.request, a.at, verify).0, a.at, future[1..], t', now', verify, token);
      case Cleaned(at, keep, limit, after) =>
        UselessCleaned(t, after, now, at, keep, limit, token);
        UselessRun(after, at, future[1..], t', now', verify, token);
    }
  }

  lemma UselessCleaned(t: Tables, t': Tables, now: real, at: real, keep: Retention, limit: nat, token: Digest)
    requires Useless(t, token, now) && now <= at && CleanupStep(t, t', at, keep, limit)
    ensures Useless(t', token, at)
  {
    PassShrinks(t, t', at, keep, limit);
    hide CleanupStep;
  }

  /** A recovery token works once: after one reset with it, no later run brings a second. */
  lemma RecoveryWorksOnce(t: Tables, reset: Request, now: real, future: seq<Past>, t': Tables, now': real,
                          again: Request, at: real, verify: Verifier)
    requires reset.ResetPassword? && Handle(t, reset, now, verify).1.PasswordReset?
    requires Leads(Handle(t, reset, now, verify).0, now, future, t', now', verify) && NotReissued(future, reset.token)
    requires again.ResetPassword? && again.token == reset.token && now' <= at
    ensures Handle(t', again, at, verify).1 == InvalidRecoveryToken
  {
    ResetExactly(t, reset, now, verify);
    UselessRun(Handle(t, reset, now, verify).0, now, future, t', now', verify, reset.token);
    ResetExactly(t', again, at, verify);
    hide Handle, Leads;
  }
}
