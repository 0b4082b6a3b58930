/**
  Several processes that open the auth store at once (core/inkdrop_auth.py).  A
  lock keeps the threads of one process apart, but not the processes: each reads,
  copies, stamps and records on its own, one commit after another.
 */
module AuthRace {
  import opened Outcomes
  import AuthStore

  type Store = AuthStore.Store
  type StateDb = AuthStore.StateDb
  type Credential = AuthStore.Credential
  type Action = AuthStore.Action

  /** Where a process stands that has begun to open the store. */
  datatype Phase =
    | Comparing(recorded: string)     // a generation is recorded; the store's has yet to be read
    | Creating                        // none is
    | Looking                         // the schema is there; was it migrated?
    | Counting                        // it was not; has it users?
    | Copying(wanted: bool)           // it has none, or it has some
    | Reading                         // the store is marked as migrated
    | Stamping                        // it had no generation
    | Recording(generation: string)   // this one is to be recorded
    | Ready

  /** The two databases, the processes that have begun, and the credentials some authorised operation revoked. */
  datatype Race = Race(store: Option<Store>, state: StateDb, procs: map<nat, Phase>, revoked: set<Credential>)

  datatype Event =
    | Advance(p: nat, token: string, ok: bool)  // the next step of an open, whose copy or record may fail
    | Act(p: nat, action: Action)
    | Stop(p: nat)                              // the process ends, wherever it stands
    | Lose                                      // the store file disappears
    | Swap(foreign: Store)                      // another store file takes its place

  // ------------------------------------------------------------- one step of an open

  function Gone(r: Race, p: nat): Race { r.(procs := r.procs - {p}) }
  function Moved(r: Race, p: nat, ph: Phase): Race { r.(procs := r.procs[p := ph]) }
  function Wrote(r: Race, p: nat, ph: Phase, s: Store): Race { r.(store := Some(s), procs := r.procs[p := ph]) }

  function Present(store: Option<Store>): Store { if store.Some? then store.value else AuthStore.EMPTY_STORE }

  function Begun(r: Race, p: nat): Race {
    if r.state.generation == "" then Moved(r, p, Creating)
    else if r.store.None? then r
    else Moved(r, p, Comparing(r.state.generation))
  }

  /** A step on a store that is there; a refused process starts over. */
  function Advanced(r: Race, p: nat, s: Store, token: string, ok: bool): Race
    requires p in r.procs
  {
    match r.procs[p]
    case Comparing(g) => if s.generation == g then Moved(r, p, Ready) else Gone(r, p)
    case Creating => Wrote(r, p, Looking, s)
    case Looking => Moved(r, p, if s.migrated then Reading else Counting)
    case Counting => Moved(r, p, Copying(!s.hasUsers))
    case Copying(wanted) => if ok then Wrote(r, p, Reading, AuthStore.Copied(s, wanted, r.state)) else Gone(r, p)
    case Reading => Moved(r, p, if s.generation == "" then Stamping else Recording(s.generation))
    case Stamping => Wrote(r, p, Recording(token), s.(generation := token))
    case Recording(g) =>
      if ok then Moved(r, p, Ready).(state := r.state.(generation := g)) else Gone(r, p)
    case Ready => r
  }

  function Step(r: Race, e: Event): Race {
    match e
    case Advance(p, token, ok) => if p in r.procs then Advanced(r, p, Present(r.store), token, ok) else Begun(r, p)
    case Act(p, a) =>
      if p in r.procs && r.procs[p].Ready? && r.store.Some? then
        r.(store := Some(AuthStore.Act(r.store.value, a)),
           revoked := if a.Revoke? && a.id in r.store.value.rows then r.revoked + {a.id} else r.revoked)
      else r
    case Stop(p) => Gone(r, p)
    case Lose => r.(store := None)
    case Swap(s) => r.(store := Some(s))
  }

  function Play(r: Race, es: seq<Event>): Race
    decreases |es|
  {
    if es == [] then r else Play(Step(r, es[0]), es[1..])
  }

  /**
    New generations are not empty, a login makes a credential that is new, and store files are
    lost or replaced only while no process is about, never by one with the recorded generation.
   */
  predicate Expected(r: Race, e: Event) {
    match e
    case Advance(_, token, _) => token != ""
    case Act(_, a) => a.Login? ==> a.id !in r.revoked
    case Stop(_) => true
    case Lose => r.procs == map[]
    case Swap(s) => r.procs == map[] && (r.state.generation == "" || s.generation != r.state.generation)
  }

  predicate ExpectedRun(r: Race, es: seq<Event>)
    decreases |es|
  {
    es == [] || (Expected(r, es[0]) && ExpectedRun(Step(r, es[0]), es[1..]))
  }

  // -------------------------------------------------------------------- safety

  /** An authorised check accepts a credential that was revoked. */
  predicate Resurrects(r: Race, e: Event) {
    e.Act? && e.p in r.procs && r.procs[e.p].Ready? && r.store.Some? && e.action.Check?
    && e.action.id in r.revoked && AuthStore.Accepts(r.store.value, e.action.id)
  }

  /** The event makes a process ready to authorise. */
  predicate Admits(r: Race, e: Event) {
    e.Advance? && e.p in Step(r, e).procs && Step(r, e).procs[e.p].Ready? && !(e.p in r.procs && r.procs[e.p].Ready?)
  }

  /** The event copies into a store that is marked as migrated. */
  predicate CopiesAgain(r: Race, e: Event) {
    e.Advance? && e.ok && e.p in r.procs && r.procs[e.p].Copying? && r.store.Some? && r.store.value.migrated
  }

  predicate SafeEvent(r: Race, e: Event) {
    !Resurrects(r, e) && (Admits(r, e) ==> Step(r, e).state.generation != "")
    && (CopiesAgain(r, e) ==> Step(r, e).store == r.store)
  }

  predicate SafeRun(r: Race, es: seq<Event>)
    decreases |es|
  {
    es == [] || (SafeEvent(r, es[0]) && SafeRun(Step(r, es[0]), es[1..]))
  }

  predicate Remembers(store: Option<Store>, revoked: set<Credential>) {
    if store.None? then revoked == {}
    else forall id | id in revoked :: id in store.value.rows && store.value.rows[id].Revoked?
  }

  /** The store is not the one the recorded generation belongs to, and no process takes it for that. */
  predicate Foreign(r: Race) {
    r.state.generation != "" && (r.store.Some? ==> r.store.value.generation != r.state.generation)
    && forall p | p in r.procs :: r.procs[p] == Comparing(r.state.generation)
  }

  /** The store has every legacy row, and users if the legacy rows have. */
  predicate HasLegacy(s: Store, state: StateDb) {
    state.legacy.Keys <= s.rows.Keys && (state.legacyUsers ==> s.hasUsers)
  }

  predicate Fits(ph: Phase, store: Option<Store>, state: StateDb) {
    ph.Creating?
    || (store.Some?
        && var s := store.value;
           match ph
           case Comparing(g) => g != "" && state.generation != "" && (s.generation == g ==> s.migrated)
           case Counting => s.migrated ==> HasLegacy(s, state) || s.hasUsers
           case Copying(wanted) =>
             if wanted then (s.hasUsers ==> s.migrated) && (s.migrated ==> HasLegacy(s, state)) else s.hasUsers
           case Reading => s.migrated
           case Stamping => s.migrated
           case Recording(g) => g != "" && s.migrated
           case Ready => state.generation != "" && s.migrated
           case _ => true)
  }

  /** What every step of every process keeps. */
  predicate Guarded(r: Race) {
    (r.revoked != {} ==> r.state.generation != "")
    && (forall p | p in r.procs :: Fits(r.procs[p], r.store, r.state))
    && (r.store.Some? && r.state.generation != "" && r.store.value.generation == r.state.generation ==>
          r.store.value.migrated)
    && (Remembers(r.store, r.revoked) || Foreign(r))
  }

  lemma BegunGuarded(r: Race, p: nat)
    requires Guarded(r) && p !in r.procs
    ensures Guarded(Begun(r, p))
  {
    hide Remembers, HasLegacy;
    assert r.revoked == {} ==> Remembers(r.store, r.revoked) by { NothingRevoked(r.store); }
  }

  lemma NothingRevoked(store: Option<Store>)
    ensures Remembers(store, {})
  {
  }

  /** The steps that leave both databases alone. */
  lemma MovedGuarded(r: Race, p: nat, ph: Phase)
    requires Guarded(r) && p in r.procs && Fits(ph, r.store, r.state) && Remembers(r.store, r.revoked)
    ensures Guarded(Moved(r, p, ph))
  {
    hide Remembers, HasLegacy, Fits;
  }

  lemma GoneGuarded(r: Race, p: nat)
    requires Guarded(r)
    ensures Guarded(Gone(r, p))
  {
    hide Remembers, HasLegacy, Fits;
  }

  /** A write to the store that the other processes and the revoked credentials survive. */
  lemma WroteGuarded(r: Race, p: nat, ph: Phase, s: Store)
    requires Guarded(r) && p in r.procs && Fits(ph, Some(s), r.state) && Remembers(Some(s), r.revoked)
    requires forall q | q in r.procs :: Fits(r.procs[q], Some(s), r.state)
    requires r.state.generation != "" && s.generation == r.state.generation ==> s.migrated
    ensures Guarded(Wrote(r, p, ph, s))
  {
    hide Remembers, HasLegacy, Fits;
  }

  /** A process that opens the store finds the revoked credentials in it. */
  lemma OpenersRemember(r: Race, p: nat)
    requires Guarded(r) && p in r.procs && !r.procs[p].Comparing?
    ensures Remembers(r.store, r.revoked)
  {
    hide Remembers, Fits;
  }

  lemma CopyFits(ph: Phase, s: Store, wanted: bool, state: StateDb)
    requires Fits(ph, Some(s), state) && Fits(Copying(wanted), Some(s), state)
    ensures Fits(ph, Some(AuthStore.Copied(s, wanted, state)), state)
    ensures s.migrated ==> AuthStore.Copied(s, wanted, state) == s
  {
    if s.migrated && wanted {
      assert state.legacy + s.rows == s.rows;
    }
  }

  lemma CopyRemembers(s: Store, wanted: bool, state: StateDb, revoked: set<Credential>)
    requires Remembers(Some(s), revoked)
    ensures Remembers(Some(AuthStore.Copied(s, wanted, state)), revoked)
  {
  }

  lemma StampFits(ph: Phase, s: Store, token: string, state: StateDb)
    requires Fits(ph, Some(s), state) && s.migrated
    ensures Fits(ph, Some(s.(generation := token)), state)
  {
  }

  lemma CreateFits(ph: Phase, store: Option<Store>, state: StateDb)
    requires Fits(ph, store, state)
    ensures Fits(ph, Some(Present(store)), state)
  {
  }

  lemma RecordFits(ph: Phase, store: Option<Store>, state: StateDb, g: string)
    requires Fits(ph, store, state) && g != ""
    ensures Fits(ph, store, state.(generation := g))
  {
  }

  lemma RecordGuarded(r: Race, p: nat, g: string)
    requires Guarded(r) && p in r.procs && r.procs[p] == Recording(g)
    ensures Guarded(Moved(r, p, Ready).(state := r.state.(generation := g)))
  {
    OpenersRemember(r, p);
    assert Fits(Recording(g), r.store, r.state);
    assert g != "" && r.store.Some? && r.store.value.migrated;
    assert Fits(Ready, r.store, r.state.(generation := g));
    hide Remembers, HasLegacy, Fits;
    forall q | q in r.procs
      ensures Fits(r.procs[q], r.store, r.state.(generation := g))
    {
      RecordFits(r.procs[q], r.store, r.state, g);
    }
  }

  lemma StoreThere(r: Race, p: nat)
    requires Guarded(r) && p in r.procs && !r.procs[p].Creating?
    ensures r.store.Some? && Present(r.store) == r.store.value
  {
  }

  lemma CompareGuarded(r: Race, p: nat, g: string)
    requires Guarded(r) && p in r.procs && r.procs[p] == Comparing(g) && Present(r.store).generation == g
    ensures Guarded(Moved(r, p, Ready)) && r.state.generation != ""
  {
    StoreThere(r, p);
    assert Fits(Comparing(g), r.store, r.state);
    assert Remembers(r.store, r.revoked);
    MovedGuarded(r, p, Ready);
  }

  lemma CopyGuarded(r: Race, p: nat, wanted: bool)
    requires Guarded(r) && p in r.procs && r.procs[p] == Copying(wanted)
    ensures r.store.Some? && var s := r.store.value;
            Guarded(Wrote(r, p, Reading, AuthStore.Copied(s, wanted, r.state)))
            && (s.migrated ==> AuthStore.Copied(s, wanted, r.state) == s)
  {
    StoreThere(r, p);
    OpenersRemember(r, p);
    var s := r.store.value;
    assert Fits(Copying(wanted), r.store, r.state);
    CopyRemembers(s, wanted, r.state, r.revoked);
    assert Fits(Reading, Some(AuthStore.Copied(s, wanted, r.state)), r.state);
    CopyFits(Copying(wanted), s, wanted, r.state);
    hide Remembers, HasLegacy, Fits;
    forall q | q in r.procs
      ensures Fits(r.procs[q], Some(AuthStore.Copied(s, wanted, r.state)), r.state)
    {
      CopyFits(r.procs[q], s, wanted, r.state);
    }
    WroteGuarded(r, p, Reading, AuthStore.Copied(s, wanted, r.state));
  }

  lemma StampGuarded(r: Race, p: nat, token: string)
    requires Guarded(r) && p in r.procs && r.procs[p].Stamping? && token != ""
    ensures r.store.Some? && Guarded(Wrote(r, p, Recording(token), r.store.value.(generation := token)))
  {
    StoreThere(r, p);
    OpenersRemember(r, p);
    var s := r.store.value.(generation := token);
    assert Fits(Stamping, r.store, r.state);
    assert s.migrated && Fits(Recording(token), Some(s), r.state) && Remembers(Some(s), r.revoked);
    hide Remembers, HasLegacy, Fits;
    forall q | q in r.procs
      ensures Fits(r.procs[q], Some(s), r.state)
    {
      StampFits(r.procs[q], r.store.value, token, r.state);
    }
    WroteGuarded(r, p, Recording(token), s);
  }

  lemma CreateGuarded(r: Race, p: nat)
    requires Guarded(r) && p in r.procs && r.procs[p].Creating?
    ensures Guarded(Wrote(r, p, Looking, Present(r.store)))
  {
    OpenersRemember(r, p);
    var s := Present(r.store);
    assert Fits(Looking, Some(s), r.state) && Remembers(Some(s), r.revoked);
    assert r.state.generation != "" && s.generation == r.state.generation ==> s.migrated;
    hide Remembers, HasLegacy, Fits;
    forall q | q in r.procs
      ensures Fits(r.procs[q], Some(s), r.state)
    {
      CreateFits(r.procs[q], r.store, r.state);
    }
    WroteGuarded(r, p, Looking, s);
  }

  lemma AdvanceGuarded(r: Race, p: nat, token: string, ok: bool)
    requires Guarded(r) && p in r.procs && token != ""
    ensures var e := Advance(p, token, ok);
            Guarded(Step(r, e)) && SafeEvent(r, e)
  {
    hide Guarded, Foreign, Remembers;
    var s := Present(r.store);
    match r.procs[p]
    case Comparing(g) =>
      if s.generation == g { CompareGuarded(r, p, g); } else { GoneGuarded(r, p); }
    case Creating => CreateGuarded(r, p);
    case Looking => NextGuarded(r, p, if s.migrated then Reading else Counting);
    case Counting => NextGuarded(r, p, Copying(!s.hasUsers));
    case Copying(wanted) =>
      CopyGuarded(r, p, wanted);
      GoneGuarded(r, p);
    case Reading => NextGuarded(r, p, if s.generation == "" then Stamping else Recording(s.generation));
    case Stamping => StampGuarded(r, p, token);
    case Recording(g) =>
      RecordGuarded(r, p, g);
      RecordedSome(r, p, g);
      GoneGuarded(r, p);
    case Ready =>
  }

  lemma RecordedSome(r: Race, p: nat, g: string)
    requires Guarded(r) && p in r.procs && r.procs[p] == Recording(g)
    ensures g != ""
  {
    assert Fits(Recording(g), r.store, r.state);
  }

  lemma NextGuarded(r: Race, p: nat, ph: Phase)
    requires Guarded(r) && p in r.procs
    requires var s := Present(r.store);
             match r.procs[p]
             case Looking => ph == if s.migrated then Reading else Counting
             case Counting => ph == Copying(!s.hasUsers)
             case Reading => ph == if s.generation == "" then Stamping else Recording(s.generation)
             case _ => false
    ensures Guarded(Moved(r, p, ph))
  {
    StoreThere(r, p);
    OpenersRemember(r, p);
    assert Fits(r.procs[p], r.store, r.state);
    MovedGuarded(r, p, ph);
  }

  lemma ActFits(ph: Phase, s: Store, a: Action, state: StateDb)
    requires Fits(ph, Some(s), state) && s.migrated
    ensures Fits(ph, Some(AuthStore.Act(s, a)), state)
  {
  }

  lemma ActRemembers(s: Store, a: Action, revoked: set<Credential>)
    requires Remembers(Some(s), revoked)
    ensures Remembers(Some(AuthStore.Act(s, a)), if a.Revoke? && a.id in s.rows then revoked + {a.id} else revoked)
    ensures forall id | id in revoked :: !AuthStore.Accepts(s, id)
  {
  }

  lemma ActGuarded(r: Race, p: nat, a: Action)
    requires Guarded(r)
    ensures Guarded(Step(r, Act(p, a))) && SafeEvent(r, Act(p, a))
  {
    if p in r.procs && r.procs[p].Ready? {
      StoreThere(r, p);
      OpenersRemember(r, p);
      var s := r.store.value;
      assert Fits(Ready, r.store, r.state);
      ActRemembers(s, a, r.revoked);
      hide Remembers, HasLegacy, Fits;
      forall q | q in r.procs
        ensures Fits(r.procs[q], Some(AuthStore.Act(s, a)), r.state)
      {
        ActFits(r.procs[q], s, a, r.state);
      }
    }
  }

  lemma FileGuarded(r: Race, e: Event)
    requires Guarded(r) && Expected(r, e) && (e.Lose? || e.Swap?)
    ensures Guarded(Step(r, e))
  {
    NothingRevoked(None);
    if e.Swap? {
      NothingRevoked(Some(e.foreign));
    }
    hide Remembers, Fits;
  }

  lemma StepGuarded(r: Race, e: Event)
    requires Guarded(r) && Expected(r, e)
    ensures Guarded(Step(r, e)) && SafeEvent(r, e)
  {
    hide Guarded;
    match e
    case Advance(p, token, ok) =>
      if p in r.procs { AdvanceGuarded(r, p, token, ok); } else { BegunGuarded(r, p); }
    case Act(p, a) => ActGuarded(r, p, a);
    case Stop(p) => GoneGuarded(r, p);
    case Lose => FileGuarded(r, e);
    case Swap(_) => FileGuarded(r, e);
  }

  lemma {:induction false} GuardedRun(r: Race, es: seq<Event>)
    requires Guarded(r) && ExpectedRun(r, es)
    ensures SafeRun(r, es) && Guarded(Play(r, es))
    decreases |es|
  {
    hide Guarded, Step, Expected, SafeEvent;
    if es != [] {
      StepGuarded(r, es[0]);
      GuardedRun(Step(r, es[0]), es[1..]);
    }
  }

  /** A new installation, with whatever legacy rows: no store, nothing recorded, no process. */
  predicate Fresh(r: Race) {
    r.store.None? && r.state.generation == "" && r.procs == map[] && r.revoked == {}
  }

  lemma FreshGuarded(r: Race)
    requires Fresh(r)
    ensures Guarded(r)
  {
  }

  /**
    Over every interleaving of any number of processes that open, act, stop and
    crash, nothing is authorised before a generation is recorded, a second copy of
    the legacy rows changes nothing, and no revoked credential is accepted again.
   */
  lemma RacesAreSafe(r: Race, es: seq<Event>)
    requires Fresh(r) && ExpectedRun(r, es)
    ensures SafeRun(r, es)
  {
    hide Guarded, SafeRun;
    FreshGuarded(r);
    GuardedRun(r, es);
  }

  // ------------------------------------------------------------- who gets in later

  /** No open is under way. */
  predicate Settled(r: Race) { forall p | p in r.procs :: r.procs[p].Ready? }

  /** The store has the generation that is recorded. */
  predicate Agrees(r: Race) {
    r.state.generation == "" || (r.store.Some? && r.store.value.generation == r.state.generation)
  }

  /** Some open of the run succeeds. */
  predicate LetsIn(r: Race, es: seq<Event>)
    decreases |es|
  {
    es != [] && (Admits(r, es[0]) || LetsIn(Step(r, es[0]), es[1..]))
  }

  /** The processes are ready or about to compare in vain. */
  predicate Shut(r: Race) {
    r.state.generation != "" && !Agrees(r)
    && forall p | p in r.procs :: r.procs[p].Ready? || r.procs[p] == Comparing(r.state.generation)
  }

  lemma ShutStep(r: Race, e: Event)
    requires Shut(r) && Expected(r, e)
    ensures Shut(Step(r, e)) && !Admits(r, e)
  {
  }

  lemma {:induction false} ShutRun(r: Race, es: seq<Event>)
    requires Shut(r) && ExpectedRun(r, es)
    ensures !LetsIn(r, es)
    decreases |es|
  {
    hide Shut, Step, Expected, Admits;
    if es != [] {
      ShutStep(r, es[0]);
      ShutRun(Step(r, es[0]), es[1..]);
    }
  }

  lemma NewOpen(r: Race, p: nat)
    requires Settled(r) && r.state.generation != "" && Agrees(r) && p !in r.procs
    ensures var es := [Advance(p, "t", true), Advance(p, "t", true)];
            ExpectedRun(r, es) && LetsIn(r, es)
  {
    var e := Advance(p, "t", true);
    var (r1, es) := (Step(r, e), [e, e]);
    assert r1.procs[p] == Comparing(r.state.generation);
    assert es[1..] == [e] && es[1..][1..] == [];
    assert Admits(r1, e);
    hide Step, Admits, Expected;
    assert LetsIn(r1, [e]);
    assert ExpectedRun(r1, [e]);
  }

  lemma NewProcess(m: map<nat, Phase>) returns (p: nat)
    ensures p !in m
  {
    p := Above(m.Keys);
  }

  lemma {:induction false} Above(s: set<nat>) returns (p: nat)
    ensures forall q | q in s :: q < p
  {
    if s == {} {
      p := 0;
    } else {
      var x :| x in s;
      var rest := Above(s - {x});
      assert forall q | q in s :: q == x || q in s - {x};
      p := if x < rest then rest else x + 1;
    }
  }

  /**
    Once a generation is recorded and no open is under way, a later open can
    succeed exactly when the store has that generation.  Otherwise every later
    open is refused, whatever processes do and whatever stores appear.
   */
  lemma OpensAgainExactly(r: Race)
    requires Settled(r) && r.state.generation != ""
    ensures (exists es :: ExpectedRun(r, es) && LetsIn(r, es)) <==> Agrees(r)
  {
    if Agrees(r) {
      var p := NewProcess(r.procs);
      NewOpen(r, p);
    } else {
      assert Shut(r);
      forall es | ExpectedRun(r, es)
        ensures !LetsIn(r, es)
      {
        ShutRun(r, es);
      }
    }
  }

  // --------------------------------------------------- which generation is last

  /** No store file is lost or replaced. */
  predicate Kept(es: seq<Event>) { forall i | 0 <= i < |es| :: !es[i].Lose? && !es[i].Swap? }

  predicate Stamps(r: Race, e: Event) { e.Advance? && e.p in r.procs && r.procs[e.p].Stamping? }

  predicate Records(r: Race, e: Event) { e.Advance? && e.ok && e.p in r.procs && r.procs[e.p].Recording? }

  /** The generation some process stamped last, if any did. */
  function LastStamp(r: Race, es: seq<Event>): Option<string>
    decreases |es|
  {
    if es == [] then None
    else
      var later := LastStamp(Step(r, es[0]), es[1..]);
      if later.Some? then later else if Stamps(r, es[0]) then Some(es[0].token) else None
  }

  /** The generation some process recorded last, if any did. */
  function LastRecord(r: Race, es: seq<Event>): Option<string>
    decreases |es|
  {
    if es == [] then None
    else
      var later := LastRecord(Step(r, es[0]), es[1..]);
      if later.Some? then later else if Records(r, es[0]) then Some(r.procs[es[0].p].generation) else None
  }

  function GenerationOf(store: Option<Store>): string { Present(store).generation }

  /** Of racing processes the last to stamp names the store, and the last to record names what is expected of it. */
  lemma {:induction false} LastWins(r: Race, es: seq<Event>)
    requires Kept(es)
    ensures var (stamp, record) := (LastStamp(r, es), LastRecord(r, es));
            GenerationOf(Play(r, es).store) == (if stamp.Some? then stamp.value else GenerationOf(r.store))
            && Play(r, es).state.generation == if record.Some? then record.value else r.state.generation
    decreases |es|
  {
    hide Step;
    if es != [] {
      StepNames(r, es[0]);
      LastWins(Step(r, es[0]), es[1..]);
    }
  }

  lemma StepNames(r: Race, e: Event)
    requires !e.Lose? && !e.Swap?
    ensures GenerationOf(Step(r, e).store) == if Stamps(r, e) then e.token else GenerationOf(r.store)
    ensures Step(r, e).state.generation == if Records(r, e) then r.procs[e.p].generation else r.state.generation
  {
  }

  // ------------------------------------------------------------- one open at a time

  /** The processes whose open is under way. */
  function Opening(r: Race): set<nat> { set p | p in r.procs && !r.procs[p].Ready? }

  predicate AtMost(r: Race, es: seq<Event>, c: nat)
    decreases |es|
  {
    |Opening(r)| <= c && (es == [] || AtMost(Step(r, es[0]), es[1..], c))
  }

  /** A single opener finds its own work, and a recorded generation is the store's. */
  predicate Lone(r: Race) {
    Agrees(r) && |Opening(r)| <= 1 && forall p | p in r.procs :: LoneFits(r.procs[p], r.store, r.state.generation)
  }

  predicate LoneFits(ph: Phase, store: Option<Store>, recorded: string) {
    match ph
    case Comparing(g) => recorded == g != ""
    case Ready => recorded != ""
    case Creating => recorded == ""
    case Recording(g) => recorded == "" && store.Some? && store.value.generation == g != ""
    case _ => recorded == "" && store.Some?
  }

  lemma OnlyOne(s: set<nat>, p: nat, q: nat)
    requires |s| <= 1 && p in s && q in s
    ensures p == q
  {
    var both := {p, q};
    assert both <= s && |s - both| == |s| - |both|;
    assert p != q ==> |both| == 2;
  }

  /** While one process opens, any other is ready, and then the generation is recorded. */
  lemma AloneIn(r: Race, p: nat)
    requires Lone(r) && p in r.procs && !r.procs[p].Ready? && !r.procs[p].Comparing?
    ensures r.procs.Keys == {p} && r.state.generation == ""
  {
    assert LoneFits(r.procs[p], r.store, r.state.generation);
    forall q | q in r.procs
      ensures q == p
    {
      assert LoneFits(r.procs[q], r.store, r.state.generation);
      OnlyOne(Opening(r), p, q);
    }
  }

  lemma LoneStep(r: Race, e: Event)
    requires Lone(r) && Expected(r, e) && !e.Lose? && !e.Swap? && |Opening(Step(r, e))| <= 1
    ensures Lone(Step(r, e))
  {
    hide Opening;
    match e
    case Advance(p, token, ok) =>
      if p in r.procs && !r.procs[p].Ready? && !r.procs[p].Comparing? {
        AloneIn(r, p);
      }
    case Act(p, a) =>
      if r.store.Some? {
        ActKeepsGeneration(r.store.value, a);
        hide AuthStore.Act;
        assert forall q | q in r.procs :: LoneFits(r.procs[q], r.store, r.state.generation);
      }
    case Stop(_) =>
  }

  lemma ActKeepsGeneration(s: Store, a: Action)
    ensures AuthStore.Act(s, a).generation == s.generation
  {
  }

  lemma {:induction false} LoneRun(r: Race, es: seq<Event>)
    requires Lone(r) && ExpectedRun(r, es) && Kept(es) && AtMost(r, es, 1)
    ensures Lone(Play(r, es))
    decreases |es|
  {
    hide Lone, Step, Expected;
    if es != [] {
      assert AtMost(Step(r, es[0]), es[1..], 1);
      LoneStep(r, es[0]);
      LoneRun(Step(r, es[0]), es[1..]);
    }
  }

  // --------------------------------------------------------------- two at a time

  /** A run leads from one state to another with at most c opens under way. */
  predicate Reaches(r: Race, es: seq<Event>, r': Race, c: nat) {
    Play(r, es) == r' && ExpectedRun(r, es) && Kept(es) && AtMost(r, es, c)
  }

  lemma ReachesOne(r: Race, e: Event, c: nat)
    requires Expected(r, e) && !e.Lose? && !e.Swap? && |Opening(r)| <= c && |Opening(Step(r, e))| <= c
    ensures Reaches(r, [e], Step(r, e), c)
  {
    hide Step, Expected, Opening;
    assert [e][1..] == [];
    var r' := Step(r, e);
    assert Play(r', []) == r' && ExpectedRun(r', []) && AtMost(r', [], c);
  }

  lemma {:induction false} ReachesOn(r: Race, x: seq<Event>, r1: Race, y: seq<Event>, r2: Race, c: nat)
    requires Reaches(r, x, r1, c) && Reaches(r1, y, r2, c)
    ensures Reaches(r, x + y, r2, c)
    decreases |x|
  {
    hide Step, Expected, Opening;
    if x == [] {
      assert x + y == y;
    } else {
      assert (x + y)[1..] == x[1..] + y;
      assert Kept(x[1..]);
      ReachesOn(Step(r, x[0]), x[1..], r1, y, r2, c);
    }
  }

  const START_STATE := AuthStore.StateDb(true, true, "", false, map[])
  const MARKED := AuthStore.Store("", true, false, map[])

  /** The two databases and where the first two processes stand. */
  function Two(store: Option<Store>, recorded: string, first: Option<Phase>, second: Option<Phase>): (r: Race) {
    Race(store, START_STATE.(generation := recorded),
         (if first.Some? then map[0 := first.value] else map[])
         + (if second.Some? then map[1 := second.value] else map[]), {})
  }

  lemma TwoOpen(store: Option<Store>, recorded: string, first: Option<Phase>, second: Option<Phase>)
    ensures |Opening(Two(store, recorded, first, second))| <= 2
  {
    var o := Opening(Two(store, recorded, first, second));
    assert o <= {0, 1};
    assert |{0, 1} - o| == 2 - |o|;
  }

  /** One more step of one of the two. */
  lemma TwoOn(start: Race, es: seq<Event>, r: Race, e: Event, store: Option<Store>, recorded: string,
              first: Option<Phase>, second: Option<Phase>, c: nat)
    requires c >= 2 && !e.Lose? && !e.Swap? && Expected(r, e) && |Opening(r)| <= 2 && Reaches(start, es, r, c)
    requires Step(r, e) == Two(store, recorded, first, second)
    ensures var r' := Two(store, recorded, first, second);
            Reaches(start, es + [e], r', c) && |Opening(r')| <= 2
  {
    TwoOpen(store, recorded, first, second);
    hide *;
    ReachesOne(r, e, c);
    ReachesOn(start, es, r, [e], Step(r, e), c);
  }

  function Next(p: nat): Event { Advance(p, if p == 0 then "a" else "b", true) }

  /** A new installation without legacy rows. */
  const BLANK := Two(None, "", None, None)

  /** The first process has made a store, and found that it was not migrated. */
  lemma FirstCreates(c: nat) returns (es: seq<Event>)
    requires c >= 2
    ensures Reaches(BLANK, es, Two(Some(AuthStore.EMPTY_STORE), "", Some(Counting), None), c)
  {
    var bare := Some(AuthStore.EMPTY_STORE);
    TwoOpen(None, "", None, None);
    assert Reaches(BLANK, [], BLANK, c);
    hide Reaches, Opening;
    es := [];
    TwoOn(BLANK, es, BLANK, Next(0), None, "", Some(Creating), None, c);
    es := es + [Next(0)];
    TwoOn(BLANK, es, Two(None, "", Some(Creating), None), Next(0), bare, "", Some(Looking), None, c);
    es := es + [Next(0)];
    TwoOn(BLANK, es, Two(bare, "", Some(Looking), None), Next(0), bare, "", Some(Counting), None, c);
    es := es + [Next(0)];
  }

  /** It has marked the store, and found that it has no generation. */
  lemma FirstReads(c: nat) returns (es: seq<Event>)
    requires c >= 2
    ensures Reaches(BLANK, es, Two(Some(MARKED), "", Some(Stamping), None), c)
  {
    var bare := Some(AuthStore.EMPTY_STORE);
    es := FirstCreates(c);
    TwoOpen(bare, "", Some(Counting), None);
    hide Reaches, Opening;
    TwoOn(BLANK, es, Two(bare, "", Some(Counting), None), Next(0), bare, "", Some(Copying(true)), None, c);
    es := es + [Next(0)];
    TwoOn(BLANK, es, Two(bare, "", Some(Copying(true)), None), Next(0), Some(MARKED), "", Some(Reading), None, c);
    es := es + [Next(0)];
    TwoOn(BLANK, es, Two(Some(MARKED), "", Some(Reading), None), Next(0), Some(MARKED), "", Some(Stamping), None, c);
    es := es + [Next(0)];
  }

  /** So has the second, before the first stamps its own. */
  lemma SecondReads(c: nat) returns (es: seq<Event>)
    requires c >= 2
    ensures Reaches(BLANK, es, Two(Some(MARKED), "", Some(Stamping), Some(Stamping)), c)
  {
    var (s, first) := (Some(MARKED), Some(Stamping));
    es := FirstReads(c);
    TwoOpen(s, "", first, None);
    hide Reaches, Opening;
    TwoOn(BLANK, es, Two(s, "", first, None), Next(1), s, "", first, Some(Creating), c);
    es := es + [Next(1)];
    TwoOn(BLANK, es, Two(s, "", first, Some(Creating)), Next(1), s, "", first, Some(Looking), c);
    es := es + [Next(1)];
    TwoOn(BLANK, es, Two(s, "", first, Some(Looking)), Next(1), s, "", first, Some(Reading), c);
    es := es + [Next(1)];
    TwoOn(BLANK, es, Two(s, "", first, Some(Reading)), Next(1), s, "", first, Some(Stamping), c);
    es := es + [Next(1)];
  }

  /** The second stamps last and the first records last: both are ready, and the store is not the recorded one. */
  lemma CrossedRecords(c: nat) returns (es: seq<Event>)
    requires c >= 2
    ensures Reaches(BLANK, es, Two(Some(MARKED.(generation := "b")), "a", Some(Ready), Some(Ready)), c)
  {
    var (a, b) := (Some(MARKED.(generation := "a")), Some(MARKED.(generation := "b")));
    var (ra, rb) := (Some(Recording("a")), Some(Recording("b")));
    es := SecondReads(c);
    TwoOpen(Some(MARKED), "", Some(Stamping), Some(Stamping));
    hide Reaches, Opening;
    TwoOn(BLANK, es, Two(Some(MARKED), "", Some(Stamping), Some(Stamping)), Next(0), a, "", ra, Some(Stamping), c);
    es := es + [Next(0)];
    TwoOn(BLANK, es, Two(a, "", ra, Some(Stamping)), Next(1), b, "", ra, rb, c);
    es := es + [Next(1)];
    TwoOn(BLANK, es, Two(b, "", ra, rb), Next(1), b, "b", ra, Some(Ready), c);
    es := es + [Next(1)];
    TwoOn(BLANK, es, Two(b, "b", ra, Some(Ready)), Next(0), b, "a", Some(Ready), Some(Ready), c);
    es := es + [Next(0)];
  }

  /** In every run from a new installation with at most c opens under way the store stays the recorded one. */
  ghost predicate AlwaysAgrees(c: nat) {
    forall r, es :: Fresh(r) && ExpectedRun(r, es) && Kept(es) && AtMost(r, es, c) ==> Agrees(Play(r, es))
  }

  /**
    That the store and the recorded generation part, so that every later open is
    refused, can happen in some interleaving exactly when two processes may open at once.
   */
  lemma AlwaysAgreesExactly(c: nat)
    requires c > 0
    ensures AlwaysAgrees(c) <==> c == 1
  {
    if c == 1 {
      forall r, es | Fresh(r) && ExpectedRun(r, es) && Kept(es) && AtMost(r, es, 1)
        ensures Agrees(Play(r, es))
      {
        assert Lone(r);
        LoneRun(r, es);
      }
    } else {
      var es := CrossedRecords(c);
      assert Fresh(BLANK);
      assert !Agrees(Play(BLANK, es));
    }
  }

  // ------------------------------------------------------------------ one alone

  /** What AuthStore's single process sees of the same databases. */
  function Alone(r: Race): AuthStore.World { AuthStore.World(r.store, r.state, false, false) }

  /** p alone, at this phase or gone. */
  function Only(r: Race, p: nat, ph: Option<Phase>): Race {
    r.(procs := if ph.Some? then map[p := ph.value] else map[])
  }

  lemma PlayFirst(r: Race, e: Event, rest: seq<Event>)
    ensures Play(r, [e] + rest) == Play(Step(r, e), rest) && Play(r, []) == r
  {
    hide Step;
    assert ([e] + rest)[1..] == rest;
  }

  /** One step, and the run from where it leads. */
  lemma Continue(r: Race, e: Event, r1: Race, rest: seq<Event>, r2: Race) returns (es: seq<Event>)
    requires Step(r, e) == r1 && Play(r1, rest) == r2
    ensures Play(r, es) == r2
  {
    PlayFirst(r, e, rest);
    es := [e] + rest;
  }

  /** The process crashes here, or goes on. */
  lemma CrashOr(r: Race, p: nat, ph: Phase, crash: bool, rest: seq<Event>, r2: Race) returns (es: seq<Event>)
    requires !crash ==> Play(Only(r, p, Some(ph)), rest) == r2
    ensures Play(Only(r, p, Some(ph)), es) == if crash then Only(r, p, None) else r2
  {
    if crash {
      assert Step(Only(r, p, Some(ph)), Stop(p)) == Only(r, p, None);
      PlayFirst(Only(r, p, Some(ph)), Stop(p), []);
      es := [Stop(p)] + [];
    } else {
      es := rest;
    }
  }

  /** The generation of the store is recorded, or the process crashes or is refused. */
  function Ending(r: Race, p: nat, g: string, env: AuthStore.OpenEnv): Race {
    if env.crash.AfterGeneration? || !env.writable then Only(r, p, None)
    else
      Only(r.(state := r.state.(generation := g)), p, if env.crash.AfterRecord? then None else Some(Ready))
  }

  lemma AloneRecords(r: Race, p: nat, g: string, env: AuthStore.OpenEnv) returns (es: seq<Event>)
    ensures Play(Only(r, p, Some(Recording(g))), es) == Ending(r, p, g, env)
  {
    var r0 := Only(r, p, Some(Recording(g)));
    var r1 := r.(state := r.state.(generation := g));
    var e := Advance(p, "", env.writable);
    if env.writable {
      PlayFirst(Only(r1, p, Some(Ready)), e, []);
      assert Step(r0, e) == Only(r1, p, Some(Ready));
      var rest := CrashOr(r1, p, Ready, env.crash.AfterRecord?, [], Only(r1, p, Some(Ready)));
      es := Continue(r0, e, Only(r1, p, Some(Ready)), rest,
                     Only(r1, p, if env.crash.AfterRecord? then None else Some(Ready)));
    } else {
      PlayFirst(Only(r, p, None), e, []);
      assert Step(r0, e) == Only(r, p, None);
      es := Continue(r0, e, Only(r, p, None), [], Only(r, p, None));
    }
    es := CrashOr(r, p, Recording(g), env.crash.AfterGeneration?, es, Ending(r, p, g, env));
  }

  lemma AloneReads(r: Race, p: nat, s: Store, env: AuthStore.OpenEnv) returns (es: seq<Event>)
    requires r.store == Some(s)
    ensures var stamped := if s.generation == "" then s.(generation := env.token) else s;
            Play(Only(r, p, Some(Reading)), es) == Ending(r.(store := Some(stamped)), p, stamped.generation, env)
  {
    var e := Advance(p, env.token, true);
    var r0 := Only(r, p, Some(Reading));
    if s.generation == "" {
      var t := s.(generation := env.token);
      var rt := r.(store := Some(t));
      var rest := AloneRecords(rt, p, t.generation, env);
      assert Step(r0, e) == Only(r, p, Some(Stamping));
      assert Step(Only(r, p, Some(Stamping)), e) == Only(rt, p, Some(Recording(t.generation)));
      es := Continue(Only(r, p, Some(Stamping)), e, Only(rt, p, Some(Recording(t.generation))), rest,
                     Ending(rt, p, t.generation, env));
      es := Continue(r0, e, Only(r, p, Some(Stamping)), es, Ending(rt, p, t.generation, env));
    } else {
      var rest := AloneRecords(r, p, s.generation, env);
      assert Step(r0, e) == Only(r, p, Some(Recording(s.generation)));
      es := Continue(r0, e, Only(r, p, Some(Recording(s.generation))), rest, Ending(r, p, s.generation, env));
    }
  }

  /** From the mark on: what is left of the open once the store is migrated. */
  function Rest(r: Race, p: nat, s: Store, env: AuthStore.OpenEnv): Race {
    var stamped := if s.generation == "" then s.(generation := env.token) else s;
    if env.crash.AfterInherit? then Only(r.(store := Some(s)), p, None)
    else Ending(r.(store := Some(stamped)), p, stamped.generation, env)
  }

  lemma AloneGoesOn(r: Race, p: nat, s: Store, env: AuthStore.OpenEnv) returns (es: seq<Event>)
    requires r.store == Some(s)
    ensures Play(Only(r, p, Some(Reading)), es) == Rest(r, p, s, env)
  {
    es := AloneReads(r, p, s, env);
    es := CrashOr(r, p, Reading, env.crash.AfterInherit?, es, Rest(r, p, s, env));
  }

  /** The look at the mark, and the copy if there is none. */
  function Opened(r: Race, p: nat, s: Store, env: AuthStore.OpenEnv): Race {
    if env.crash.AfterSchema? || (!s.migrated && env.inheritFails) then Only(r.(store := Some(s)), p, None)
    else Rest(r, p, if s.migrated then s else AuthStore.Copied(s, !s.hasUsers, r.state), env)
  }

  lemma AloneLooks(r: Race, p: nat, s: Store, env: AuthStore.OpenEnv) returns (es: seq<Event>)
    requires r.store == Some(s)
    ensures Play(Only(r, p, Some(Looking)), es) == Opened(r, p, s, env)
  {
    hide Rest, AuthStore.Copied;
    var e := Advance(p, "", !env.inheritFails);
    var r0 := Only(r, p, Some(Looking));
    if s.migrated {
      var rest := AloneGoesOn(r, p, s, env);
      assert Step(r0, e) == Only(r, p, Some(Reading));
      es := Continue(r0, e, Only(r, p, Some(Reading)), rest, Rest(r, p, s, env));
    } else {
      var end := if env.inheritFails then Only(r, p, None)
                 else Rest(r, p, AuthStore.Copied(s, !s.hasUsers, r.state), env);
      var rest := AloneCopies(r, p, s, env);
      assert Step(r0, e) == Only(r, p, Some(Counting));
      es := Continue(r0, e, Only(r, p, Some(Counting)), rest, end);
    }
    OnlyHere(r, p, s);
    es := CrashOr(r, p, Looking, env.crash.AfterSchema?, es, Opened(r, p, s, env));
  }

  lemma OnlyHere(r: Race, p: nat, s: Store)
    requires r.store == Some(s)
    ensures Only(r.(store := Some(s)), p, None) == Only(r, p, None)
  {
  }

  lemma AloneCopies(r: Race, p: nat, s: Store, env: AuthStore.OpenEnv) returns (es: seq<Event>)
    requires r.store == Some(s)
    ensures Play(Only(r, p, Some(Counting)), es)
            == if env.inheritFails then Only(r, p, None) else Rest(r, p, AuthStore.Copied(s, !s.hasUsers, r.state), env)
  {
    hide Rest, AuthStore.Copied;
    var e := Advance(p, "", !env.inheritFails);
    var (r1, r2) := (Only(r, p, Some(Counting)), Only(r, p, Some(Copying(!s.hasUsers))));
    assert Step(r1, e) == r2;
    if env.inheritFails {
      PlayFirst(Only(r, p, None), e, []);
      assert Step(r2, e) == Only(r, p, None);
      es := Continue(r2, e, Only(r, p, None), [], Only(r, p, None));
      es := Continue(r1, e, r2, es, Only(r, p, None));
    } else {
      var copied := AuthStore.Copied(s, !s.hasUsers, r.state);
      var rc := r.(store := Some(copied));
      var rest := AloneGoesOn(rc, p, copied, env);
      assert Step(r2, e) == Only(rc, p, Some(Reading));
      es := Continue(r2, e, Only(rc, p, Some(Reading)), rest, Rest(rc, p, copied, env));
      es := Continue(r1, e, r2, es, Rest(rc, p, copied, env));
      RestSame(r, rc, p, copied, env);
    }
  }

  lemma RestSame(r: Race, r': Race, p: nat, s: Store, env: AuthStore.OpenEnv)
    requires r' == r.(store := r'.store)
    ensures Rest(r', p, s, env) == Rest(r, p, s, env)
  {
  }

  /**
    A process that opens alone does what AuthStore's one-step open does: for every
    course of an open there is a run of steps with the same databases and verdict.
   */
  lemma AloneIsEnsure(r: Race, p: nat, env: AuthStore.OpenEnv) returns (es: seq<Event>)
    requires r.procs == map[] && !env.recovery && env.readable && r.state.exists_ && r.state.hasSettings
    ensures var (w, result) := AuthStore.Ensure(Alone(r), env);
            Play(r, es) == Only(r.(store := w.store, state := w.state), p,
                                if result.Authorised? then Some(Ready) else None)
  {
    var e := Advance(p, "", true);
    PlayFirst(r, e, []);
    if r.state.generation == "" {
      var s := Present(r.store);
      var r1 := r.(store := Some(s));
      var rest := AloneLooks(r1, p, s, env);
      assert Step(r, e) == Only(r, p, Some(Creating));
      assert Step(Only(r, p, Some(Creating)), e) == Only(r1, p, Some(Looking));
      es := Continue(Only(r, p, Some(Creating)), e, Only(r1, p, Some(Looking)), rest, Opened(r1, p, s, env));
      es := Continue(r, e, Only(r, p, Some(Creating)), es, Opened(r1, p, s, env));
      OpenedIsEnsure(r, p, env);
    } else if r.store.Some? {
      var r1 := Only(r, p, Some(Comparing(r.state.generation)));
      var agreed := r.store.value.generation == r.state.generation;
      var end := Only(r, p, if agreed then Some(Ready) else None);
      assert Step(r, e) == r1;
      assert Step(r1, e) == end;
      PlayFirst(end, e, []);
      es := Continue(r1, e, end, [], end);
      es := Continue(r, e, r1, es, end);
    } else {
      es := [];
    }
  }

  lemma OpenedIsEnsure(r: Race, p: nat, env: AuthStore.OpenEnv)
    requires r.procs == map[] && !env.recovery && env.readable && r.state.exists_ && r.state.hasSettings
    requires r.state.generation == ""
    ensures var (w, result) := AuthStore.Ensure(Alone(r), env);
            var s := Present(r.store);
            Opened(r.(store := Some(s)), p, s, env)
            == Only(r.(store := w.store, state := w.state), p, if result.Authorised? then Some(Ready) else None)
  {
  }
}
