/**
  The stale-while-refresh cache of download client status under threads
  (core/inkdrop_client_status.py). Each block run under the lock is one step.
 */
module ClientStatus {
  import opened Outcomes

  type Id = string

  datatype Entry = Entry(at: real, payload: string)

  /** What the lock protects. */
  datatype Memory = Memory(entries: map<Id, Entry>, refreshing: set<Id>)

  /** What the first locked block of get decides. */
  datatype Decision =
    | AnswerFresh(entry: Entry)
    | AnswerStale(entry: Entry, age: real)
    | AnswerAndSpawn(entry: Entry, age: real)
    | FetchYourself

  function Age(now: real, e: Entry): real { if now < e.at then 0.0 else now - e.at }

  function Decide(m: Memory, id: Id, now: real, force: bool, ttl: real): Decision {
    if id in m.entries then
      var e := m.entries[id];
      if !force && now - e.at <= ttl then AnswerFresh(e)
      else if id in m.refreshing then AnswerStale(e, Age(now, e))
      else if force then FetchYourself
      else AnswerAndSpawn(e, Age(now, e))
    else FetchYourself
  }

  /**
    An entry answers as fresh up to the time limit, unless the call is forced. After
    that, or forced, it answers as stale while someone refreshes it, and starts a
    refresher if no one does; only a missing entry, or a forced call with no
    refresher about, makes the call fetch. A stated age is never negative.
   */
  lemma DecideExactly(m: Memory, id: Id, now: real, force: bool, ttl: real)
    ensures var d := Decide(m, id, now, force, ttl);
            if id !in m.entries then d == FetchYourself
            else
              var e := m.entries[id];
              (d.AnswerFresh? <==> !force && now <= e.at + ttl)
              && (d.AnswerStale? <==> id in m.refreshing && (force || now > e.at + ttl))
              && (d.AnswerAndSpawn? <==> id !in m.refreshing && !force && now > e.at + ttl)
              && (d.FetchYourself? <==> id !in m.refreshing && force)
              && (!d.FetchYourself? ==> d.entry == e)
              && (d.AnswerStale? || d.AnswerAndSpawn? ==>
                    d.age >= 0.0 && (now >= e.at ==> d.age == now - e.at) && (now < e.at ==> d.age == 0.0))
  {
  }

  function Marks(d: Decision): bool { d.AnswerAndSpawn? || d.FetchYourself? }

  function Marked(m: Memory, id: Id): Memory { m.(refreshing := m.refreshing + {id}) }
  function Stored(m: Memory, id: Id, e: Entry): Memory { m.(entries := m.entries[id := e]) }
  function Cleared(m: Memory, id: Id): Memory { m.(refreshing := m.refreshing - {id}) }

  class ClientStatusCache {
    const ttl: real
    var entries: map<Id, Entry>
    var refreshing: set<Id>

    function Now(): Memory
      reads this
    {
      Memory(entries, refreshing)
    }

    /** max(0.01, ttl_seconds) */
    constructor (ttlSeconds: real)
      ensures Now() == Memory(map[], {}) && ttl == if ttlSeconds < 0.01 then 0.01 else ttlSeconds
    {
      ttl, entries, refreshing := if ttlSeconds < 0.01 then 0.01 else ttlSeconds, map[], {};
    }

    /** get, up to the answer or to its own refresh; the lock is held throughout. */
    method Enter(id: Id, now: real, force: bool) returns (d: Decision)
      modifies this
      ensures d == Decide(old(Now()), id, now, force, ttl)
      ensures Now() == if Marks(d) then Marked(old(Now()), id) else old(Now())
    {
      if id in entries && !force && now - entries[id].at <= ttl {
        return AnswerFresh(entries[id]);
      }
      if id in entries && !force {
        d := AnswerStale(entries[id], Age(now, entries[id]));
        if id !in refreshing {
          refreshing := refreshing + {id};
          d := AnswerAndSpawn(entries[id], Age(now, entries[id]));
        }
        return;
      }
      if id in refreshing && id in entries {
        return AnswerStale(entries[id], Age(now, entries[id]));
      }
      refreshing := refreshing + {id};
      d := FetchYourself;
    }

    /** _refresh, once the fetcher has returned an object. */
    method Store(id: Id, e: Entry)
      modifies this
      ensures Now() == Stored(old(Now()), id, e)
    {
      entries := entries[id := e];
    }

    /** _refresh, finally. */
    method Clear(id: Id)
      modifies this
      ensures Now() == Cleared(old(Now()), id)
    {
      refreshing := refreshing - {id};
    }

    /** get, after its own refresh; no entry is a KeyError. */
    method ReadBack(id: Id) returns (r: Result<Entry>)
      ensures r == if id in Now().entries then Ok(Now().entries[id]) else Raised
    {
      r := if id in entries then Ok(entries[id]) else Raised;
    }
  }

  // ---------------------------------------------------------------- interleavings

  /** An answer with what it rests on: when its entry was fetched, the clock the call had read, and its own fetch. */
  datatype Answer = Fresh(at: real, since: real) | Stale(age: real) | Own(at: real, fetched: real, since: real) | Failed

  /**
    Where a call or a refresh thread stands; own tells a call refreshing for
    itself from a thread, and since is the clock the call behind it had read.
   */
  datatype Agent =
    | Clocked(id: Id, force: bool, since: real)
    | Fetching(id: Id, own: bool, since: real)
    | Fetched(id: Id, own: bool, since: real, entry: Entry)
    | Storing(id: Id, own: bool, since: real, fetched: real)
    | Failing(id: Id, own: bool, since: real)
    | Reading(id: Id, since: real, fetched: real)
    | Done(id: Id, answer: Answer)

  /** An agent that will still clear its id. */
  predicate Refreshes(a: Agent) { a.Fetching? || a.Fetched? || a.Storing? || a.Failing? }

  datatype State = State(memory: Memory, agents: map<nat, Agent>, clock: real, ttl: real)

  /** One step of one agent. A call reads the clock before it takes the lock. */
  datatype Event =
    | Call(agent: nat, id: Id, force: bool)
    | Enter(agent: nat, thread: nat, starts: bool)
    | FetchEnds(agent: nat, payload: Option<string>)
    | Store(agent: nat)
    | Clear(agent: nat)
    | Read(agent: nat)
    | Tick(seconds: real)

  function With(s: State, a: nat, agent: Agent): State { s.(agents := s.agents[a := agent]) }

  /** The first locked block; the new thread may fail to start. */
  function EnterStep(s: State, a: nat, thread: nat, starts: bool): State
    requires a in s.agents && s.agents[a].Clocked?
  {
    var c := s.agents[a];
    match Decide(s.memory, c.id, c.since, c.force, s.ttl)
    case AnswerFresh(e) => With(s, a, Done(c.id, Fresh(e.at, c.since)))
    case AnswerStale(_, age) => With(s, a, Done(c.id, Stale(age)))
    case AnswerAndSpawn(_, age) =>
      var marked := s.(memory := Marked(s.memory, c.id));
      if starts then With(With(marked, thread, Fetching(c.id, false, c.since)), a, Done(c.id, Stale(age)))
      else With(marked, a, Done(c.id, Failed))
    case FetchYourself => With(s.(memory := Marked(s.memory, c.id)), a, Fetching(c.id, true, c.since))
  }

  /** An event that is not possible changes nothing. */
  function Step(s: State, e: Event): State {
    match e
    case Call(a, id, force) => if a in s.agents then s else With(s, a, Clocked(id, force, s.clock))
    case Enter(a, thread, starts) =>
      if a in s.agents && s.agents[a].Clocked? && thread !in s.agents then EnterStep(s, a, thread, starts) else s
    case FetchEnds(a, payload) =>
      if a in s.agents && s.agents[a].Fetching? then
        var f := s.agents[a];
        With(s, a, if payload.Some? then Fetched(f.id, f.own, f.since, Entry(s.clock, payload.value))
                   else Failing(f.id, f.own, f.since))
      else s
    case Store(a) =>
      if a in s.agents && s.agents[a].Fetched? then
        var f := s.agents[a];
        With(s.(memory := Stored(s.memory, f.id, f.entry)), a, Storing(f.id, f.own, f.since, f.entry.at))
      else s
    case Clear(a) =>
      if a in s.agents && (s.agents[a].Storing? || s.agents[a].Failing?) then
        var f := s.agents[a];
        With(s.(memory := Cleared(s.memory, f.id)), a,
             if f.Storing? && f.own then Reading(f.id, f.since, f.fetched) else Done(f.id, Failed))
      else s
    case Read(a) =>
      if a in s.agents && s.agents[a].Reading? then
        var r := s.agents[a];
        With(s, a, Done(r.id,
                        if r.id in s.memory.entries then Own(s.memory.entries[r.id].at, r.fetched, r.since)
                        else Failed))
      else s
    case Tick(seconds) => if seconds >= 0.0 then s.(clock := s.clock + seconds) else s
  }

  function Run(s: State, es: seq<Event>): State {
    if es == [] then s else Step(Run(s, es[..|es| - 1]), es[|es| - 1])
  }

  /** An id marked as refreshing has an agent that will clear it. */
  ghost predicate Tended(s: State, id: Id) {
    exists a :: a in s.agents && Refreshes(s.agents[a]) && s.agents[a].id == id
  }

  ghost predicate Healthy(s: State) {
    forall id | id in s.memory.refreshing :: Tended(s, id)
  }

  /** A thread that does not start, where nobody else is refreshing the id. */
  ghost predicate Orphans(s: State, e: Event) {
    e.Enter? && !e.starts && e.agent in s.agents && s.agents[e.agent].Clocked? && e.thread !in s.agents
    && var c := s.agents[e.agent];
       Decide(s.memory, c.id, c.since, c.force, s.ttl).AnswerAndSpawn? && !Tended(s, c.id)
  }

  /** The agent an event moves, unless it is the clock. */
  function Moved(e: Event): Option<nat> {
    match e
    case Tick(_) => None
    case Call(a, _, _) => Some(a)
    case Enter(a, _, _) => Some(a)
    case FetchEnds(a, _) => Some(a)
    case Store(a) => Some(a)
    case Clear(a) => Some(a)
    case Read(a) => Some(a)
  }

  lemma OthersStay(s: State, e: Event, a: nat)
    requires a in s.agents && Moved(e) != Some(a)
    ensures a in Step(s, e).agents && Step(s, e).agents[a] == s.agents[a]
  {
  }

  /** A refreshing agent goes on refreshing its id until it clears it. */
  lemma RefresherPersists(s: State, e: Event, a: nat)
    requires a in s.agents && Refreshes(s.agents[a])
    ensures var s' := Step(s, e); var id := s.agents[a].id;
            (a in s'.agents && Refreshes(s'.agents[a]) && s'.agents[a].id == id) || id !in s'.memory.refreshing
  {
    if Moved(e) != Some(a) {
      OthersStay(s, e, a);
    }
  }

  /** A step that marks an id leaves it tended, unless its thread did not start. */
  lemma MarkingTends(s: State, e: Event, id: Id)
    requires id in Step(s, e).memory.refreshing && id !in s.memory.refreshing
    ensures Tended(Step(s, e), id) || (Orphans(s, e) && s.agents[e.agent].id == id) || Tended(s, id)
  {
    assert e.Enter?;
    var s' := Step(s, e);
    var c := s.agents[e.agent];
    var d := Decide(s.memory, c.id, c.since, c.force, s.ttl);
    if d.FetchYourself? {
      assert s'.agents[e.agent] == Fetching(id, true, c.since);
    } else if e.starts {
      assert s'.agents[e.thread] == Fetching(id, false, c.since);
    }
  }

  /** Each step keeps every marked id tended exactly when it does not orphan one. */
  lemma HealthyExactly(s: State, e: Event)
    requires Healthy(s)
    ensures Healthy(Step(s, e)) <==> !Orphans(s, e)
  {
    hide Step, Decide;
    var s' := Step(s, e);
    if Orphans(s, e) {
      OrphanStays(s, e);
    } else {
      forall id | id in s'.memory.refreshing
        ensures Tended(s', id)
      {
        if id !in s.memory.refreshing {
          MarkingTends(s, e, id);
        }
        if Tended(s, id) {
          var a :| a in s.agents && Refreshes(s.agents[a]) && s.agents[a].id == id;
          RefresherPersists(s, e, a);
        }
      }
    }
  }

  lemma OrphanStays(s: State, e: Event)
    requires Orphans(s, e)
    ensures s.agents[e.agent].id in Step(s, e).memory.refreshing && !Tended(Step(s, e), s.agents[e.agent].id)
  {
    var (s', id) := (Step(s, e), s.agents[e.agent].id);
    assert s' == With(s.(memory := Marked(s.memory, id)), e.agent, s'.agents[e.agent]);
    assert s'.agents[e.agent].Done?;
  }

  /** Over a whole run: every marked id always has a live refresher exactly when no step orphans one. */
  lemma {:induction false} AlwaysTendedExactly(s: State, es: seq<Event>)
    requires Healthy(s)
    ensures (forall n | 0 <= n <= |es| :: Healthy(Run(s, es[..n])))
            <==> forall n | 0 <= n < |es| :: !Orphans(Run(s, es[..n]), es[n])
  {
    hide Healthy, Step, Orphans, Run;
    RunNothing(s, es);
    forall n | 0 <= n < |es|
      ensures Run(s, es[..n + 1]) == Step(Run(s, es[..n]), es[n])
      ensures Healthy(Run(s, es[..n])) ==> (Healthy(Run(s, es[..n + 1])) <==> !Orphans(Run(s, es[..n]), es[n]))
    {
      RunNext(s, es, n);
      if Healthy(Run(s, es[..n])) {
        HealthyExactly(Run(s, es[..n]), es[n]);
      }
    }
    if forall n | 0 <= n <= |es| :: Healthy(Run(s, es[..n])) {
      forall n | 0 <= n < |es|
        ensures !Orphans(Run(s, es[..n]), es[n])
      {
        assert Healthy(Run(s, es[..n])) && Healthy(Run(s, es[..n + 1]));
      }
    }
    if forall n | 0 <= n < |es| :: !Orphans(Run(s, es[..n]), es[n]) {
      for i := 0 to |es|
        invariant forall n | 0 <= n <= i :: Healthy(Run(s, es[..n]))
      {
        assert Healthy(Run(s, es[..i]));
      }
    }
  }

  lemma RunNothing(s: State, es: seq<Event>)
    ensures Run(s, es[..0]) == s
  {
  }

  lemma RunNext(s: State, es: seq<Event>, n: nat)
    requires n < |es|
    ensures Run(s, es[..n + 1]) == Step(Run(s, es[..n]), es[n])
  {
    hide Step;
    assert es[..n + 1][..n] == es[..n];
  }

  // ------------------------------------------------------------------- orphans

  /** Nobody refreshes a marked id whose entry exists. */
  ghost predicate Orphaned(s: State, id: Id) {
    id in s.memory.refreshing && id in s.memory.entries && !Tended(s, id)
  }

  /** An orphaned id is never refreshed again, not even by a forced call. */
  lemma OrphanedForever(s: State, e: Event, id: Id)
    requires Orphaned(s, id)
    ensures Orphaned(Step(s, e), id) && Step(s, e).memory.entries[id] == s.memory.entries[id]
  {
    var s' := Step(s, e);
    assert forall a | a in s.agents && s.agents[a].id == id :: !Refreshes(s.agents[a]);
    forall a | a in s'.agents && s'.agents[a].id == id
      ensures !Refreshes(s'.agents[a])
    {
      if a in s.agents && Moved(e) != Some(a) {
        OthersStay(s, e, a);
      }
    }
  }

  lemma {:induction false} OrphanedInEveryRun(s: State, es: seq<Event>, id: Id)
    requires Orphaned(s, id)
    ensures Orphaned(Run(s, es), id) && Run(s, es).memory.entries[id] == s.memory.entries[id]
  {
    hide Orphaned, Step;
    if es != [] {
      OrphanedInEveryRun(s, es[..|es| - 1], id);
      OrphanedForever(Run(s, es[..|es| - 1]), es[|es| - 1], id);
      assert Orphaned(Run(s, es), id);
      OrphanHasEntry(Run(s, es), id);
    }
  }

  lemma OrphanHasEntry(s: State, id: Id)
    requires Orphaned(s, id)
    ensures id in s.memory.entries
  {
  }

  /** The steps a refresher has left, for a fetch that ends in this way. */
  function OwnSteps(agent: Agent, a: nat, payload: Option<string>): seq<Event>
    requires Refreshes(agent)
  {
    match agent
    case Fetching(_, _, _) => [FetchEnds(a, payload)] + if payload.Some? then [Store(a), Clear(a)] else [Clear(a)]
    case Fetched(_, _, _, _) => [Store(a), Clear(a)]
    case _ => [Clear(a)]
  }

  /** From every state a live refresher's own next steps, at most three, clear its mark, however its fetch ends. */
  lemma RefresherCanClear(s: State, a: nat, payload: Option<string>)
    requires a in s.agents && Refreshes(s.agents[a])
    ensures var es := OwnSteps(s.agents[a], a, payload);
            |es| <= 3 && (forall i | 0 <= i < |es| :: Moved(es[i]) == Some(a))
            && s.agents[a].id !in Run(s, es).memory.refreshing
  {
    var agent := s.agents[a];
    var es := OwnSteps(agent, a, payload);
    if agent.Storing? || agent.Failing? {
      RunOne(s, es[0]);
    } else if agent.Fetched? {
      RunOne(s, es[0]);
      RunTwo(s, es[0], es[1]);
    } else if payload.None? {
      RunTwo(s, es[0], es[1]);
    } else {
      RunTwo(s, es[0], es[1]);
      RunNext(s, es, 2);
      assert es[..3] == es && es[..2] == [es[0], es[1]];
    }
  }

  lemma RunOne(s: State, e: Event)
    ensures Run(s, [e]) == Step(s, e)
  {
    hide Step;
    assert [e][..0] == [];
  }

  lemma RunTwo(s: State, e0: Event, e1: Event)
    ensures Run(s, [e0, e1]) == Step(Step(s, e0), e1)
  {
    hide Step;
    assert [e0, e1][..1] == [e0];
    RunOne(s, e0);
  }

  // ------------------------------------------------------------------- answers

  /** What an agent's times say: a fetch ends after its call began, and a fresh answer is within the limit. */
  predicate TimelyAgent(a: Agent, clock: real, ttl: real, entries: map<Id, Entry>) {
    match a
    case Clocked(_, _, since) => since <= clock
    case Fetching(_, _, since) => since <= clock
    case Fetched(_, _, since, e) => since <= e.at <= clock
    case Storing(id, _, since, fetched) => since <= fetched <= clock && id in entries
    case Failing(_, _, _) => true
    case Reading(id, since, fetched) => since <= fetched <= clock && id in entries
    case Done(_, Fresh(at, since)) => since - at <= ttl && at <= clock
    case Done(_, Own(at, fetched, since)) => since <= fetched <= clock && at <= clock
    case Done(_, _) => true
  }

  ghost predicate Timely(s: State) {
    (forall id | id in s.memory.entries :: s.memory.entries[id].at <= s.clock)
    && forall a | a in s.agents :: TimelyAgent(s.agents[a], s.clock, s.ttl, s.memory.entries)
  }

  lemma EntriesStay(s: State, e: Event)
    ensures s.memory.entries.Keys <= Step(s, e).memory.entries.Keys
    ensures s.clock <= Step(s, e).clock && Step(s, e).ttl == s.ttl
  {
  }

  lemma TimelyLater(a: Agent, s: State, s': State)
    requires TimelyAgent(a, s.clock, s.ttl, s.memory.entries)
    requires s.clock <= s'.clock && s'.ttl == s.ttl && s.memory.entries.Keys <= s'.memory.entries.Keys
    ensures TimelyAgent(a, s'.clock, s'.ttl, s'.memory.entries)
  {
  }

  /** The agent a step moves, or the thread it starts, is timely afterwards. */
  lemma TimelyMoved(s: State, e: Event, a: nat)
    requires Timely(s) && a in Step(s, e).agents && (a !in s.agents || Step(s, e).agents[a] != s.agents[a])
    ensures TimelyAgent(Step(s, e).agents[a], Step(s, e).clock, Step(s, e).ttl, Step(s, e).memory.entries)
  {
  }

  lemma TimelyEntries(s: State, e: Event)
    requires Timely(s)
    ensures forall id | id in Step(s, e).memory.entries :: Step(s, e).memory.entries[id].at <= Step(s, e).clock
  {
  }

  lemma TimelyStep(s: State, e: Event)
    requires Timely(s)
    ensures Timely(Step(s, e))
  {
    var s' := Step(s, e);
    EntriesStay(s, e);
    TimelyEntries(s, e);
    hide Step, TimelyAgent;
    forall a | a in s'.agents
      ensures TimelyAgent(s'.agents[a], s'.clock, s'.ttl, s'.memory.entries)
    {
      if a in s.agents && s'.agents[a] == s.agents[a] {
        TimelyLater(s.agents[a], s, s');
      } else {
        TimelyMoved(s, e, a);
      }
    }
  }

  lemma {:induction false} TimelyRun(s: State, es: seq<Event>)
    requires Timely(s)
    ensures Timely(Run(s, es)) && Run(s, es).ttl == s.ttl
  {
    hide Timely, Step;
    if es != [] {
      TimelyRun(s, es[..|es| - 1]);
      TimelyStep(Run(s, es[..|es| - 1]), es[|es| - 1]);
      EntriesStay(Run(s, es[..|es| - 1]), es[|es| - 1]);
    }
  }

  /** In every run, an answer given as fresh was fetched within the limit of the clock its call had read. */
  lemma FreshIsInTime(s: State, es: seq<Event>, a: nat)
    requires Timely(s) && a in Run(s, es).agents && Run(s, es).agents[a].Done? && Run(s, es).agents[a].answer.Fresh?
    ensures var answer := Run(s, es).agents[a].answer; answer.since - answer.at <= s.ttl
  {
    hide Run;
    TimelyRun(s, es);
  }

  /** When the entry of an id was fetched that the run stored last, if it stored any. */
  function LastStore(s: State, es: seq<Event>, id: Id): Option<real> {
    if es == [] then None
    else
      var (b, e) := (Run(s, es[..|es| - 1]), es[|es| - 1]);
      if Stores(b, e, id) then Some(b.agents[e.agent].entry.at) else LastStore(s, es[..|es| - 1], id)
  }

  predicate Stores(s: State, e: Event, id: Id) {
    e.Store? && e.agent in s.agents && s.agents[e.agent].Fetched? && s.agents[e.agent].id == id
  }

  lemma {:induction false} EntryIsLastStore(s: State, es: seq<Event>, id: Id)
    requires id in s.memory.entries
    ensures id in Run(s, es).memory.entries
    ensures Run(s, es).memory.entries[id].at == if LastStore(s, es, id).Some? then LastStore(s, es, id).value
                                                else s.memory.entries[id].at
  {
    if es != [] {
      EntryIsLastStore(s, es[..|es| - 1], id);
    }
  }

  lemma {:induction false} RunConcat(s: State, x: seq<Event>, y: seq<Event>)
    ensures Run(s, x + y) == Run(Run(s, x), y)
  {
    hide Step;
    if y == [] {
      assert x + y == x;
    } else {
      assert (x + y)[..|x + y| - 1] == x + y[..|y| - 1];
      RunConcat(s, x, y[..|y| - 1]);
    }
  }

  /** Event i of the run is agent a's own store of what it fetched. */
  predicate OwnStore(s: State, es: seq<Event>, a: nat, i: nat, id: Id, fetched: real) {
    i < |es| && es[i] == Store(a)
    && var b := Run(s, es[..i]); Stores(b, es[i], id) && b.agents[a].entry.at == fetched
  }

  /** An agent that has stored did so by a step of its own. */
  lemma {:induction false} StoredItself(s: State, es: seq<Event>, a: nat) returns (i: nat)
    requires a !in s.agents && a in Run(s, es).agents
             && (Run(s, es).agents[a].Storing? || Run(s, es).agents[a].Reading?)
    ensures OwnStore(s, es, a, i, Run(s, es).agents[a].id, Run(s, es).agents[a].fetched)
  {
    assert es != [] by { RunNothing(s, es); }
    var n := |es| - 1;
    var b := Run(s, es[..n]);
    assert Run(s, es) == Step(b, es[n]);
    if Stores(b, es[n], Run(s, es).agents[a].id) && es[n] == Store(a) {
      i := n;
    } else {
      StoredBefore(b, es[n], a);
      i := StoredItself(s, es[..n], a);
      assert es[..n][..i] == es[..i];
    }
  }

  lemma StoredBefore(s: State, e: Event, a: nat)
    requires a in Step(s, e).agents && (Step(s, e).agents[a].Storing? || Step(s, e).agents[a].Reading?)
    requires !(Stores(s, e, Step(s, e).agents[a].id) && e == Store(a))
    ensures a in s.agents && (s.agents[a].Storing? || s.agents[a].Reading?)
    ensures s.agents[a].id == Step(s, e).agents[a].id && s.agents[a].fetched == Step(s, e).agents[a].fetched
  {
  }

  /** After its own store, an older entry was stored last. */
  ghost predicate Overtaken(s: State, es: seq<Event>, i: nat, id: Id, fetched: real)
    requires i < |es|
  {
    var last := LastStore(Run(s, es[..i + 1]), es[i + 1..], id);
    last.Some? && last.value < fetched
  }

  /**
    In every run, a call that refreshed for itself answers after storing what it
    fetched, which is no older than the call; its answer is older than that
    exactly when an older entry of the same id was stored last in between.
   */
  lemma OwnAnswerExactly(s: State, es: seq<Event>, a: nat) returns (i: nat)
    requires Timely(s) && a !in s.agents && a in Run(s, es).agents && Run(s, es).agents[a].Reading?
    ensures var r := Run(s, es).agents[a];
            var answer := Step(Run(s, es), Read(a)).agents[a].answer;
            answer.Own? && answer.since <= answer.fetched == r.fetched && OwnStore(s, es, a, i, r.id, r.fetched)
            && (answer.at < answer.fetched <==> Overtaken(s, es, i, r.id, r.fetched))
  {
    var r := Run(s, es).agents[a];
    i := StoredItself(s, es, a);
    TimelyRun(s, es);
    RunNext(s, es, i);
    var b := Run(s, es[..i + 1]);
    assert r.id in b.memory.entries && b.memory.entries[r.id].at == r.fetched;
    assert es == es[..i + 1] + es[i + 1..];
    RunConcat(s, es[..i + 1], es[i + 1..]);
    EntryIsLastStore(b, es[i + 1..], r.id);
  }

  function Cold(): State { State(Memory(map[], {}), map[], 0.0, 15.0) }

  function OvertakingRun(id: Id): seq<Event> {
    [Call(0, id, false), Enter(0, 9, true), FetchEnds(0, Some("old")), Tick(100.0), Call(1, id, false),
     Enter(1, 9, true), FetchEnds(1, Some("new")), Store(1), Store(0), Clear(1), Read(1)]
  }

  /** The first agent and the second, and the entry stored last, after k steps of the overtaking run. */
  function Overtaking(id: Id, k: nat): State {
    var (slow, quick) := (Entry(0.0, "old"), Entry(100.0, "new"));
    var first := if k == 1 then Clocked(id, false, 0.0) else if k == 2 then Fetching(id, true, 0.0)
                 else if k <= 8 then Fetched(id, true, 0.0, slow) else Storing(id, true, 0.0, 0.0);
    var second := if k == 5 then Clocked(id, false, 100.0) else if k == 6 then Fetching(id, true, 100.0)
                  else if k == 7 then Fetched(id, true, 100.0, quick)
                  else if k <= 9 then Storing(id, true, 100.0, 100.0)
                  else if k == 10 then Reading(id, 100.0, 100.0) else Done(id, Own(0.0, 100.0, 100.0));
    State(Memory(if k <= 7 then map[] else if k == 8 then map[id := quick] else map[id := slow],
                 if k <= 1 || k >= 10 then {} else {id}),
          if k == 0 then map[] else if k <= 4 then map[0 := first] else map[0 := first, 1 := second],
          if k <= 3 then 0.0 else 100.0, 15.0)
  }

  lemma OvertakingStep(id: Id, k: nat)
    requires k < 11
    ensures Step(Overtaking(id, k), OvertakingRun(id)[k]) == Overtaking(id, k + 1)
  {
    var (s, e, s') := (Overtaking(id, k), OvertakingRun(id)[k], Overtaking(id, k + 1));
    assert Step(s, e).agents == s'.agents;
    assert Step(s, e).memory.entries == s'.memory.entries && Step(s, e).memory.refreshing == s'.memory.refreshing;
  }

  /** A slow store: the second call fetches at 100 and answers, unmarked, with what the first fetched at 0. */
  lemma OvertakenAnswer(id: Id)
    ensures var s := Run(Cold(), OvertakingRun(id)); 1 in s.agents && s.agents[1] == Done(id, Own(0.0, 100.0, 100.0))
  {
    hide Run, Step;
    var es := OvertakingRun(id);
    RunNothing(Cold(), es);
    for k := 0 to 11
      invariant Run(Cold(), es[..k]) == Overtaking(id, k)
    {
      RunNext(Cold(), es, k);
      OvertakingStep(id, k);
    }
    assert es[..11] == es;
  }

  // --------------------------------------------------------------- one at a time

  /** The agent refreshes for its own call, or has answered from that. */
  predicate OwnBusiness(a: Agent) {
    match a
    case Clocked(_, _, _) => false
    case Fetching(_, own, _) => own
    case Fetched(_, own, _, _) => own
    case Storing(_, own, _, _) => own
    case Failing(_, own, _) => own
    case Reading(_, _, _) => true
    case Done(_, answer) => answer.Own?
  }

  /** Only unforced calls, every id they ask for has an entry, and each live refresher has the mark to itself. */
  ghost predicate Single(s: State, ids: set<Id>) {
    ids <= s.memory.entries.Keys
    && (forall a | a in s.agents ::
        s.agents[a].id in ids && (s.agents[a].Clocked? ==> !s.agents[a].force) && !OwnBusiness(s.agents[a]))
    && (forall a | a in s.agents && Refreshes(s.agents[a]) :: s.agents[a].id in s.memory.refreshing)
    && (forall a, b | a in s.agents && b in s.agents && Refreshes(s.agents[a]) && Refreshes(s.agents[b])
        && s.agents[a].id == s.agents[b].id :: a == b)
  }

  predicate Warm(e: Event, ids: set<Id>) { e.Call? ==> !e.force && e.id in ids }

  lemma SingleStep(s: State, e: Event, ids: set<Id>)
    requires Single(s, ids) && Warm(e, ids)
    ensures Single(Step(s, e), ids)
  {
    EntriesStay(s, e);
    var s' := Step(s, e);
    forall a | a in s'.agents
      ensures s'.agents[a].id in ids && (s'.agents[a].Clocked? ==> !s'.agents[a].force) && !OwnBusiness(s'.agents[a])
      ensures Refreshes(s'.agents[a]) ==> s'.agents[a].id in s'.memory.refreshing
    {
      SingleAgent(s, e, ids, a);
    }
    forall a, b | a in s'.agents && b in s'.agents && Refreshes(s'.agents[a]) && Refreshes(s'.agents[b])
    && s'.agents[a].id == s'.agents[b].id
      ensures a == b
    {
      if a != b {
        NewRefresher(s, e, ids, a);
        NewRefresher(s, e, ids, b);
      }
    }
  }

  lemma SingleAgent(s: State, e: Event, ids: set<Id>, a: nat)
    requires Single(s, ids) && Warm(e, ids) && a in Step(s, e).agents
    ensures var s' := Step(s, e);
            s'.agents[a].id in ids && (s'.agents[a].Clocked? ==> !s'.agents[a].force) && !OwnBusiness(s'.agents[a])
            && (Refreshes(s'.agents[a]) ==> s'.agents[a].id in s'.memory.refreshing)
  {
    if a in s.agents && Moved(e) != Some(a) {
      OthersStay(s, e, a);
    }
  }

  /** A live refresher was one before, or is the thread that has just marked its id. */
  lemma NewRefresher(s: State, e: Event, ids: set<Id>, a: nat)
    requires Single(s, ids) && Warm(e, ids) && a in Step(s, e).agents && Refreshes(Step(s, e).agents[a])
    ensures var id := Step(s, e).agents[a].id;
            (a in s.agents && Refreshes(s.agents[a]) && s.agents[a].id == id)
            || (id !in s.memory.refreshing && e.Enter? && a == e.thread)
  {
    if a in s.agents && Moved(e) != Some(a) {
      OthersStay(s, e, a);
    }
  }

  /** Starting warm and without forced calls, at most one refresher per client is in flight. */
  lemma {:induction false} OneRefresherEach(s: State, es: seq<Event>, ids: set<Id>, a: nat, b: nat)
    requires Single(s, ids) && forall i | 0 <= i < |es| :: Warm(es[i], ids)
    requires var t := Run(s, es);
             a in t.agents && b in t.agents && Refreshes(t.agents[a]) && Refreshes(t.agents[b])
             && t.agents[a].id == t.agents[b].id
    ensures a == b
  {
    SingleRun(s, es, ids);
  }

  /**
    Nor does any call refresh for itself: every answer is fresh in time, marked stale, or a
    failure to start a thread.
   */
  lemma WarmCallsNeverWait(s: State, es: seq<Event>, ids: set<Id>, a: nat)
    requires Single(s, ids) && (forall i | 0 <= i < |es| :: Warm(es[i], ids)) && a in Run(s, es).agents
    ensures !OwnBusiness(Run(s, es).agents[a])
  {
    hide Run;
    SingleRun(s, es, ids);
  }

  lemma {:induction false} SingleRun(s: State, es: seq<Event>, ids: set<Id>)
    requires Single(s, ids) && forall i | 0 <= i < |es| :: Warm(es[i], ids)
    ensures Single(Run(s, es), ids)
  {
    hide Single, Step, Warm;
    if es != [] {
      SingleRun(s, es[..|es| - 1], ids);
      SingleStep(Run(s, es[..|es| - 1]), es[|es| - 1], ids);
    }
  }

  /** On a cold cache two calls may refresh the same client at once. */
  lemma ColdCallsBothFetch(id: Id)
    ensures var s := Run(Cold(), [Call(0, id, false), Call(1, id, false), Enter(0, 2, true), Enter(1, 2, true)]);
            0 in s.agents && 1 in s.agents && s.agents[0] == Fetching(id, true, 0.0)
            && s.agents[1] == Fetching(id, true, 0.0)
  {
    var es := [Call(0, id, false), Call(1, id, false), Enter(0, 2, true), Enter(1, 2, true)];
    RunNothing(Cold(), es);
    RunNext(Cold(), es, 0);
    RunNext(Cold(), es, 1);
    RunNext(Cold(), es, 2);
    RunNext(Cold(), es, 3);
    assert es[..4] == es;
  }
}
