/**
  The auth store's generation protocol (core/inkdrop_auth.py): how a process
  opens the authentication database, what it may inherit from the older state
  database, and why a revoked credential stays revoked over every run of opens,
  crashes, restarts and lost or foreign stores.
 */
module AuthStore {
  import opened Outcomes

  /** A session or API key. */
  type Credential = nat
  datatype Status = Live | Revoked

  /** The authentication database.  An empty generation is one never written. */
  datatype Store = Store(generation: string, migrated: bool, hasUsers: bool, rows: map<Credential, Status>)

  const EMPTY_STORE := Store("", false, false, map[])

  /** The state database: the generation it records and the frozen legacy rows. */
  datatype StateDb = StateDb(exists_: bool, hasSettings: bool, generation: string,
                             legacyUsers: bool, legacy: map<Credential, Status>)

  /** What survives a process, and whether this process has already checked its store. */
  datatype World = World(store: Option<Store>, state: StateDb, sameFile: bool, ready: bool)

  datatype CrashPoint = Never | AfterSchema | AfterInherit | AfterGeneration | AfterRecord

  /** Everything one open does not control. */
  datatype OpenEnv = OpenEnv(
    readable: bool,      // the recorded generation can be read
    writable: bool,      // the state database takes the write
    inheritFails: bool,  // the copy of legacy rows raises and rolls back
    recovery: bool,      // INKDROP_AUTH_STORE_RECOVERY is set
    token: string,       // the next random generation
    crash: CrashPoint)

  datatype Refusal = StoreMissing | GenerationMismatch | GenerationUnrecorded | InheritFailed
  datatype Opened = Authorised | Refused(why: Refusal) | Crashed

  // -------------------------------------------------------------- the protocol

  function ReadGeneration(s: StateDb, env: OpenEnv): string {
    if !s.exists_ || !env.readable || !s.hasSettings then "" else s.generation
  }

  predicate Recordable(w: World) { !w.sameFile && w.state.exists_ && w.state.hasSettings }

  /** A write that has nowhere to go counts as done. */
  predicate WriteSucceeds(w: World, env: OpenEnv) {
    w.sameFile || !w.state.exists_ || env.writable
  }

  function Recorded(w: World, generation: string): World {
    if Recordable(w) then w.(state := w.state.(generation := generation)) else w
  }

  predicate CopyWanted(w: World, store: Store) {
    w.state.exists_ && !w.sameFile && !store.hasUsers
  }

  /** The mark and, if wanted, the legacy rows, in one transaction; insert-or-ignore keeps the rows the store has. */
  function Copied(store: Store, wanted: bool, state: StateDb): Store {
    if wanted
    then store.(migrated := true, hasUsers := store.hasUsers || state.legacyUsers, rows := state.legacy + store.rows)
    else store.(migrated := true)
  }

  function Inherit(w: World, store: Store): Store { Copied(store, CopyWanted(w, store), w.state) }

  function Ensure(w: World, env: OpenEnv): (World, Opened) {
    if w.ready then (w, Authorised)
    else
      var recorded := if w.sameFile then "" else ReadGeneration(w.state, env);
      if recorded != "" && !env.recovery then
        if w.store.None? then (w, Refused(StoreMissing))
        else if w.store.value.generation != recorded then (w, Refused(GenerationMismatch))
        else (w.(ready := true), Authorised)
      else
        var present := if w.store.Some? then w.store.value else EMPTY_STORE;
        var w1 := w.(store := Some(present));
        if env.crash.AfterSchema? then (w1, Crashed)
        else if !present.migrated && env.inheritFails then (w1, Refused(InheritFailed))
        else
          var inherited := if present.migrated then present else Inherit(w, present);
          var w2 := w.(store := Some(inherited));
          if env.crash.AfterInherit? then (w2, Crashed)
          else
            var stamped := if inherited.generation == "" then inherited.(generation := env.token) else inherited;
            var w3 := w.(store := Some(stamped));
            if env.crash.AfterGeneration? then (w3, Crashed)
            else if !WriteSucceeds(w, env) then (w3, Refused(GenerationUnrecorded))
            else
              var w4 := Recorded(w3, stamped.generation);
              if env.crash.AfterRecord? then (w4, Crashed) else (w4.(ready := true), Authorised)
  }

  /** The host's databases and its process, changed step by step. */
  class AuthHost {
    var store: Option<Store>
    var state: StateDb
    const sameFile: bool
    var ready: bool

    constructor (w: World)
      ensures Contents() == w
    {
      store, state, ready := w.store, w.state, w.ready;
      sameFile := w.sameFile;
    }

    function Contents(): World
      reads this
    {
      World(store, state, sameFile, ready)
    }

    /** _ensure_auth_store: each assignment to a database is one durable commit. */
    method EnsureAuthStore(env: OpenEnv) returns (r: Opened)
      modifies this
      ensures (Contents(), r) == Ensure(old(Contents()), env)
    {
      if ready {
        return Authorised;
      }
      var recorded := if sameFile then "" else ReadGeneration(state, env);
      if recorded != "" && !env.recovery {
        if store.None? {
          return Refused(StoreMissing);
        }
        if store.value.generation != recorded {
          return Refused(GenerationMismatch);
        }
        ready := true;
        return Authorised;
      }
      if store.None? {
        store := Some(EMPTY_STORE);
      }
      if env.crash.AfterSchema? {
        return Crashed;
      }
      if !store.value.migrated {
        if env.inheritFails {
          return Refused(InheritFailed);
        }
        store := Some(Inherit(Contents(), store.value));
      }
      if env.crash.AfterInherit? {
        return Crashed;
      }
      var generation := store.value.generation;
      if generation == "" {
        generation := env.token;
        store := Some(store.value.(generation := generation));
      }
      if env.crash.AfterGeneration? {
        return Crashed;
      }
      if !sameFile {
        var written := WriteStateAuthGeneration(generation, env);
        if !written {
          return Refused(GenerationUnrecorded);
        }
      }
      if env.crash.AfterRecord? {
        return Crashed;
      }
      ready := true;
      r := Authorised;
    }

    /** _write_state_auth_generation */
    method WriteStateAuthGeneration(generation: string, env: OpenEnv) returns (ok: bool)
      requires !sameFile
      modifies this`state
      ensures ok == WriteSucceeds(old(Contents()), env)
      ensures Contents() == if ok then Recorded(old(Contents()), generation) else old(Contents())
    {
      if !state.exists_ {
        return true;
      }
      if !env.writable {
        return false;
      }
      if !state.hasSettings {
        return true;
      }
      state := state.(generation := generation);
      ok := true;
    }
  }

  // -------------------------------------------------------- what an open comes to

  /** Which store an open finds, before it looks for a generation: none counts as an empty one. */
  function Found(w: World): Store { if w.store.Some? then w.store.value else Store("", false, false, map[]) }

  /** A recorded generation that was read, and no request for recovery, hold the open to that store. */
  predicate HeldTo(w: World, env: OpenEnv, g: string) {
    !w.ready && !env.recovery && !w.sameFile && env.readable && w.state.exists_ && w.state.hasSettings
    && g == w.state.generation != ""
  }

  /** Held to a generation, an open changes nothing and succeeds exactly for a store that has it. */
  lemma HeldExactly(w: World, env: OpenEnv, g: string)
    requires HeldTo(w, env, g)
    ensures var (w', result) := Ensure(w, env);
            w'.store == w.store && w'.state == w.state
            && result == (if w.store.None? then Refused(StoreMissing)
                          else if w.store.value.generation == g then Authorised
                          else Refused(GenerationMismatch))
            && (w'.ready <==> result.Authorised?)
  {
  }

  /** Legacy rows join a store that was not migrated, unless it has users; a row the store has stays as it is. */
  predicate TakesOver(w: World, s: Store, s': Store) {
    s'.migrated
    && if !s.migrated && w.state.exists_ && !w.sameFile && !s.hasUsers
       then (s'.hasUsers <==> w.state.legacyUsers) && s'.rows.Keys == s.rows.Keys + w.state.legacy.Keys
            && forall id | id in s'.rows :: s'.rows[id] == if id in s.rows then s.rows[id] else w.state.legacy[id]
       else s'.hasUsers == s.hasUsers && s'.rows == s.rows
  }

  /**
    Held to none, an open that meets no failure takes the store it finds, with a
    generation of its own or the new one, and records it where there is a place to.
    With recovery it does so whatever was recorded.
   */
  lemma FreeExactly(w: World, env: OpenEnv)
    requires !w.ready && (forall g :: !HeldTo(w, env, g)) && env.crash.Never?
             && !(env.inheritFails && !Found(w).migrated)
    requires w.sameFile || !w.state.exists_ || env.writable
    ensures var ((w', result), s) := (Ensure(w, env), Found(w));
            result == Authorised && w'.ready && w'.store.Some? && TakesOver(w, s, w'.store.value)
            && w'.store.value.generation == (if s.generation != "" then s.generation else env.token)
            && w'.state == (if !w.sameFile && w.state.exists_ && w.state.hasSettings
                            then w.state.(generation := w'.store.value.generation) else w.state)
  {
    assert !HeldTo(w, env, w.state.generation);
  }

  /** A failed copy or an unrecorded generation refuses the open, and a crash leaves it without a verdict. */
  lemma FreeFails(w: World, env: OpenEnv)
    requires !w.ready && (forall g :: !HeldTo(w, env, g))
    ensures var (w', result) := Ensure(w, env);
            !w'.ready <==> env.crash != Never || (env.inheritFails && !Found(w).migrated)
                           || (!w.sameFile && w.state.exists_ && !env.writable)
    ensures var (w', result) := Ensure(w, env);
            w'.ready <==> result.Authorised?
    ensures Ensure(w, env).1 == Refused(InheritFailed)
            <==> env.crash != AfterSchema && env.inheritFails && !Found(w).migrated
    ensures Ensure(w, env).1 == Refused(GenerationUnrecorded)
            <==> env.crash !in {AfterSchema, AfterInherit, AfterGeneration} && !(env.inheritFails && !Found(w).migrated)
                 && !w.sameFile && w.state.exists_ && !env.writable
  {
    assert !HeldTo(w, env, w.state.generation);
  }

  // --------------------------------------------------------------------- runs

  /** What an authorised operation does to the credentials. */
  datatype Action = Check(id: Credential) | Revoke(id: Credential) | Login(id: Credential) | AddUser

  datatype Event =
    | Operate(env: OpenEnv, action: Action)  // open the store, then act if authorised
    | Stop                                   // the process ends
    | Lose                                   // the store file disappears
    | Swap(foreign: Store)                   // another store file takes its place

  function Act(s: Store, a: Action): Store {
    match a
    case Check(_) => s
    case Revoke(id) => if id in s.rows then s.(rows := s.rows[id := Revoked]) else s
    case Login(id) => if id in s.rows then s else s.(rows := s.rows[id := Live])
    case AddUser => s.(hasUsers := true)
  }

  predicate Accepts(s: Store, id: Credential) { id in s.rows && s.rows[id].Live? }

  /** A run so far: the world, and the credentials some authorised operation revoked. */
  datatype Run = Run(w: World, revoked: set<Credential>)

  /** What one event lets an observer see. */
  datatype Seen = Seen(authorised: bool, generation: string, recorded: string, copied: bool, resurrected: bool)

  const NOTHING := Seen(false, "", "", false, false)

  function Step(r: Run, e: Event): Run {
    match e
    case Operate(env, a) =>
      var (w, result) := Ensure(r.w, env);
      if result.Authorised? && w.store.Some? then
        Run(w.(store := Some(Act(w.store.value, a))),
            if a.Revoke? && a.id in w.store.value.rows then r.revoked + {a.id} else r.revoked)
      else Run(w, r.revoked)
    case Stop => r.(w := r.w.(ready := false))
    case Lose => r.(w := r.w.(store := None))
    case Swap(s) => r.(w := r.w.(store := Some(s)))
  }

  function Look(r: Run, e: Event): Seen {
    if !e.Operate? then NOTHING
    else
      var (w, result) := Ensure(r.w, e.env);
      if !(result.Authorised? && w.store.Some?) then NOTHING
      else
        Seen(true, w.store.value.generation, w.state.generation,
             (r.w.store.None? || !r.w.store.value.migrated) && w.store.value.migrated,
             e.action.Check? && e.action.id in r.revoked && Accepts(w.store.value, e.action.id))
  }

  /**
    The events the protocol is built for: recovery is off, a recorded generation
    can be read, random values are new, and store files are lost or replaced only
    while no process has them open, a replacement never carrying the recorded generation.
   */
  predicate Expected(r: Run, e: Event) {
    match e
    case Operate(env, a) =>
      !env.recovery && env.readable && env.token != "" && (a.Login? ==> a.id !in r.revoked)
    case Stop => true
    case Lose => !r.w.ready
    case Swap(s) => !r.w.ready && s.generation != r.w.state.generation
  }

  predicate ExpectedRun(r: Run, events: seq<Event>)
    decreases |events|
  {
    events == [] || (Expected(r, events[0]) && ExpectedRun(Step(r, events[0]), events[1..]))
  }

  function Observe(r: Run, events: seq<Event>): (log: seq<Seen>)
    ensures |log| == |events|
    decreases |events|
  {
    if events == [] then [] else [Look(r, events[0])] + Observe(Step(r, events[0]), events[1..])
  }

  /** Nothing recorded, nothing opened yet. */
  predicate Initial(w: World) { w.store.None? && w.state.generation == "" && !w.ready }

  // --------------------------------------------------------------- the invariant

  predicate Holds(r: Run) {
    Recordable(r.w)
    && (r.w.ready ==> r.w.state.generation != "" && r.w.store.Some?
                      && r.w.store.value.generation == r.w.state.generation)
    && (r.revoked != {} ==> r.w.state.generation != "")
    && (r.w.state.generation != "" && r.w.store.Some? && r.w.store.value.generation == r.w.state.generation ==>
          r.w.store.value.migrated && forall id | id in r.revoked :: !Accepts(r.w.store.value, id))
  }

  /** An open keeps a recorded generation and its store; one that succeeds leaves the generation recorded. */
  lemma EnsureHolds(w: World, env: OpenEnv)
    requires Recordable(w) && !env.recovery && env.readable && env.token != ""
    requires w.ready ==> w.state.generation != "" && w.store.Some? && w.store.value.generation == w.state.generation
    ensures var (w', result) := Ensure(w, env);
            Recordable(w')
            && (w.state.generation != "" ==> w'.state == w.state && w'.store == w.store)
            && (w'.state.generation != "" && w.state.generation == "" ==>
                  w'.store.Some? && w'.store.value.generation == w'.state.generation && w'.store.value.migrated)
            && (w'.ready <==> w.ready || result.Authorised?)
            && (w'.ready ==> w'.store.Some? && w'.store.value.generation == w'.state.generation != "")
  {
  }

  /** Once a generation is recorded it stays, every authorised open uses it, and nothing is copied or resurrected. */
  lemma StepHolds(r: Run, e: Event)
    requires Holds(r) && Expected(r, e)
    ensures Holds(Step(r, e))
    ensures r.w.state.generation != "" ==> Step(r, e).w.state.generation == r.w.state.generation
    ensures var seen := Look(r, e);
            !seen.resurrected && (r.w.state.generation != "" ==> !seen.copied)
            && (seen.authorised ==> seen.recorded != "" && seen.generation == seen.recorded
                                    && Step(r, e).w.state.generation == seen.recorded)
  {
    if e.Operate? {
      EnsureHolds(r.w, e.env);
      hide Ensure;
    }
  }

  /** An authorised open saw a recorded generation, and the one it used. */
  predicate SeenRecorded(s: Seen) {
    s.authorised ==> s.recorded != "" && s.generation == s.recorded
  }

  /** Every authorised open of the log used generation g, and none copied legacy rows. */
  predicate Pinned(log: seq<Seen>, g: string) {
    forall i | 0 <= i < |log| :: !log[i].copied && (log[i].authorised ==> log[i].generation == g)
  }

  /** What is promised about a whole log. */
  predicate SafeLog(log: seq<Seen>) {
    (forall i | 0 <= i < |log| :: !log[i].resurrected && SeenRecorded(log[i]))
    && (forall i, j | 0 <= i < j < |log| && log[i].authorised ::
          !log[j].copied && (log[j].authorised ==> log[j].generation == log[i].generation))
  }

  lemma SafeLogCons(s: Seen, rest: seq<Seen>)
    requires !s.resurrected && SeenRecorded(s) && SafeLog(rest) && (s.authorised ==> Pinned(rest, s.generation))
    ensures SafeLog([s] + rest)
  {
    var log := [s] + rest;
    assert forall i | 0 < i < |log| :: log[i] == rest[i - 1];
  }

  /**
    Over every expected run: nothing is authorised before the generation is
    durably recorded, every authorised open uses the same recorded generation,
    legacy rows are never copied after the first authorised open, and a revoked
    credential is never accepted again.
   */
  lemma {:induction false} SafeRuns(r: Run, events: seq<Event>)
    requires Holds(r) && ExpectedRun(r, events)
    ensures SafeLog(Observe(r, events))
    ensures r.w.state.generation != "" ==> Pinned(Observe(r, events), r.w.state.generation)
    decreases |events|
  {
    hide Step, Look, Expected, Holds, SafeLog;
    if events == [] {
      assert SafeLog([]) by { SafeNothing(); }
    } else {
      StepHolds(r, events[0]);
      SafeRuns(Step(r, events[0]), events[1..]);
      SafeLogCons(Look(r, events[0]), Observe(Step(r, events[0]), events[1..]));
    }
  }

  lemma SafeNothing()
    ensures SafeLog([])
  {
  }

  /** No event of the run accepted a credential that an authorised operation had revoked. */
  predicate NeverResurrects(log: seq<Seen>) {
    forall i | 0 <= i < |log| :: !log[i].resurrected
  }

  const CALM := OpenEnv(true, true, false, false, "g", Never)

  /** A run in which a store with its own history slips in while nothing is recorded. */
  const SLIPPED_IN: seq<Event> :=
    [Operate(CALM, Login(0)), Operate(CALM, Revoke(0)), Stop,
     Swap(Store("f", true, true, map[0 := Live])), Operate(CALM, Check(0))]

  lemma ObserveFive(r: Run, e0: Event, e1: Event, e2: Event, e3: Event, e4: Event)
    ensures var r1 := Step(r, e0);
            var r2 := Step(r1, e1);
            var r3 := Step(r2, e2);
            var r4 := Step(r3, e3);
            (ExpectedRun(r, [e0, e1, e2, e3, e4]) <==>
              (Expected(r, e0) && Expected(r1, e1) && Expected(r2, e2) && Expected(r3, e3) && Expected(r4, e4)))
            && Observe(r, [e0, e1, e2, e3, e4]) == [Look(r, e0), Look(r1, e1), Look(r2, e2), Look(r3, e3), Look(r4, e4)]
  {
    hide Step, Look, Expected, ExpectedRun, Observe;
    var r1 := Step(r, e0);
    var r2 := Step(r1, e1);
    var r3 := Step(r2, e2);
    var r4 := Step(r3, e3);
    ObserveNothing(Step(r4, e4));
    ObserveCons(r4, e4, []);
    assert [e4] + [] == [e4] && [e3] + [e4] == [e3, e4] && [e2] + [e3, e4] == [e2, e3, e4]
        && [e1] + [e2, e3, e4] == [e1, e2, e3, e4] && [e0] + [e1, e2, e3, e4] == [e0, e1, e2, e3, e4];
    ObserveCons(r3, e3, [e4]);
    ObserveCons(r2, e2, [e3, e4]);
    ObserveCons(r1, e1, [e2, e3, e4]);
    ObserveCons(r, e0, [e1, e2, e3, e4]);
  }

  lemma ObserveNothing(r: Run)
    ensures ExpectedRun(r, []) && Observe(r, []) == []
  {
  }

  lemma ObserveCons(r: Run, e: Event, rest: seq<Event>)
    ensures ExpectedRun(r, [e] + rest) <==> Expected(r, e) && ExpectedRun(Step(r, e), rest)
    ensures Observe(r, [e] + rest) == [Look(r, e)] + Observe(Step(r, e), rest)
  {
    hide Step, Look, Expected;
    assert ([e] + rest)[1..] == rest;
  }

  /**
    The protocol protects revocation exactly when the generation has somewhere
    to go: the state database exists, has its settings table, and is not the
    auth store itself.  Otherwise the write reports success without recording.
   */
  lemma SafeExactlyWhenRecordable(w: World)
    requires Initial(w)
    ensures Recordable(w)
       <==> forall events :: ExpectedRun(Run(w, {}), events) ==> NeverResurrects(Observe(Run(w, {}), events))
  {
    var start := Run(w, {});
    if Recordable(w) {
      forall events | ExpectedRun(start, events) ensures NeverResurrects(Observe(start, events)) {
        SafeRuns(start, events);
      }
    } else {
      ResurrectsUnrecorded(w);
    }
  }

  lemma ResurrectsUnrecorded(w: World)
    requires Initial(w) && !Recordable(w)
    ensures ExpectedRun(Run(w, {}), SLIPPED_IN) && Observe(Run(w, {}), SLIPPED_IN)[4].resurrected
  {
    var es := SLIPPED_IN;
    var r0 := Run(w, {});
    ObserveFive(r0, es[0], es[1], es[2], es[3], es[4]);
    assert es == [es[0], es[1], es[2], es[3], es[4]];
    var r1 := Step(r0, es[0]);
    assert r1.w.ready && r1.w.store.Some? && 0 in r1.w.store.value.rows && r1.revoked == {};
    var r2 := Step(r1, es[1]);
    assert r2.revoked == {0} && r2.w.state == w.state && r2.w.sameFile == w.sameFile;
    var r3 := Step(r2, es[2]);
    var r4 := Step(r3, es[3]);
    assert r4.w.store == Some(Store("f", true, true, map[0 := Live])) && !r4.w.ready;
  }

  /** Losing the store is then enough: the frozen legacy rows come back with their revoked credentials. */
  lemma LegacyRowsComeBack(w: World, id: Credential)
    requires Initial(w) && w.state.exists_ && !w.state.hasSettings && !w.sameFile
    requires id in w.state.legacy && w.state.legacy[id].Live?
    ensures var es := [Operate(CALM, Revoke(id)), Stop, Lose, Operate(CALM, Check(id)), Stop];
            ExpectedRun(Run(w, {}), es) && Observe(Run(w, {}), es)[3].resurrected
  {
    var es := [Operate(CALM, Revoke(id)), Stop, Lose, Operate(CALM, Check(id)), Stop];
    var r0 := Run(w, {});
    ObserveFive(r0, es[0], es[1], es[2], es[3], es[4]);
    var r1 := Step(r0, es[0]);
    assert r1.revoked == {id} && r1.w.state == w.state;
    var r3 := Step(Step(r1, es[1]), es[2]);
    assert r3.w == w && r3.revoked == {id};
  }

  /** A recorded generation that cannot be read counts as none: a lost store is rebuilt from the legacy rows. */
  lemma UnreadableGenerationReopens(r: Run, env: OpenEnv, a: Action)
    requires Holds(r) && r.w.state.generation != "" && r.w.store.None?
    requires !env.recovery && env.writable && !env.inheritFails && env.crash.Never?
    ensures Look(r, Operate(env, a)).copied <==> !env.readable
  {
  }
}
