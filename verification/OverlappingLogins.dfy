/**
  Logins of one bucket that overlap (core/inkdrop_auth.py): a login reads the
  clock, reads the row, checks the password for as long as that takes, and then
  writes a count worked out from the row it read.  No lock spans these steps,
  and the write may fail.
 */
module OverlappingLogins {
  import opened Outcomes
  import opened LoginLimiter

  /** A login under way: it has read the clock, or the row too and is checking the password. */
  datatype Login = Arrived(now: real) | Checking(now: real, row: Option<Row>)

  datatype Bucket = Bucket(row: Option<Row>, clock: real, flying: map<nat, Login>)

  datatype Event =
    | Arrive(id: nat)
    | ReadRow(id: nat)
    | Finish(id: nat, correct: bool)
    | Lose(id: nat, correct: bool)
    | Tick(seconds: real)

  function Empty(clock: real): Bucket { Bucket(None, clock, map[]) }

  /**
    An event that is not possible changes nothing.  A limited login ends where it
    reads the row.  A login is lost when the database raises: what it would have
    written is rolled back, after its password was checked if it had read the row.
   */
  function Step(b: Bucket, e: Event): Bucket {
    match e
    case Arrive(id) => if id in b.flying then b else b.(flying := b.flying[id := Arrived(b.clock)])
    case ReadRow(id) =>
      if id in b.flying && b.flying[id].Arrived? then
        var now := b.flying[id].now;
        b.(flying := if Limited(b.row, now) then b.flying - {id} else b.flying[id := Checking(now, b.row)])
      else b
    case Finish(id, correct) =>
      if Finishes(b, e) then
        var l := b.flying[id];
        b.(row := if correct then None else Some(AfterFailure(l.row, l.now)), flying := b.flying - {id})
      else b
    case Lose(id, _) => b.(flying := b.flying - {id})
    case Tick(seconds) => if seconds >= 0.0 then b.(clock := b.clock + seconds) else b
  }

  predicate Finishes(b: Bucket, e: Event) { e.Finish? && e.id in b.flying && b.flying[e.id].Checking? }

  /** A checked password of which nothing is recorded. */
  predicate Loses(b: Bucket, e: Event) { e.Lose? && e.id in b.flying && b.flying[e.id].Checking? }

  function Play(b: Bucket, es: seq<Event>): Bucket
    decreases |es|
  {
    if es == [] then b else Play(Step(b, es[0]), es[1..])
  }

  /**
    The logins whose password was checked and outcome recorded, in the order they ended,
    each with the clock it had read.
   */
  function Log(b: Bucket, es: seq<Event>): seq<Attempt>
    decreases |es|
  {
    if es == [] then []
    else
      (if Finishes(b, es[0]) then [Attempt(b.flying[es[0].id].now, es[0].correct)] else [])
          + Log(Step(b, es[0]), es[1..])
  }

  /** The logins whose password was checked and whose record was lost. */
  function Lost(b: Bucket, es: seq<Event>): seq<Attempt>
    decreases |es|
  {
    if es == [] then []
    else
      (if Loses(b, es[0]) then [Attempt(b.flying[es[0].id].now, es[0].correct)] else []) + Lost(Step(b, es[0]), es[1..])
  }

  /** Never more than c logins are under way. */
  predicate AtMost(b: Bucket, es: seq<Event>, c: nat)
    decreases |es|
  {
    |b.flying| <= c && (es == [] || AtMost(Step(b, es[0]), es[1..], c))
  }

  /** No login takes longer than lag from reading the clock to reading the row. */
  predicate Prompt(b: Bucket, es: seq<Event>, lag: real)
    decreases |es|
  {
    es == []
    || ((es[0].ReadRow? && es[0].id in b.flying && b.flying[es[0].id].Arrived?
         ==> b.clock - b.flying[es[0].id].now <= lag)
        && Prompt(Step(b, es[0]), es[1..], lag))
  }

  // ------------------------------------------------------- one login at a time

  /** What holds while at most one login is under way. */
  predicate Serial(b: Bucket) {
    0.0 < b.clock && Reached(b.row, b.clock) && |b.flying| <= 1
    && forall id | id in b.flying :: SerialLogin(b.flying[id], b.row, b.clock)
  }

  predicate SerialLogin(l: Login, row: Option<Row>, clock: real) {
    0.0 < l.now <= clock && Reached(row, l.now) && (l.Checking? ==> l.row == row && !Limited(row, l.now))
  }

  lemma OnlyOne<K, V>(m: map<K, V>, i: K, j: K)
    requires |m| <= 1 && i in m && j in m
    ensures i == j
  {
    var both := {i, j};
    assert both <= m.Keys;
    assert |m.Keys - both| == |m.Keys| - |both|;
    assert i != j ==> |both| == 2;
  }

  lemma SerialStep(b: Bucket, e: Event)
    requires Serial(b) && |Step(b, e).flying| <= 1
    ensures Serial(Step(b, e))
    ensures Finishes(b, e) ==>
              Step(b, e).flying == map[] && !Limited(b.row, b.flying[e.id].now)
              && Step(b, e).row == Next(b.row, Attempt(b.flying[e.id].now, e.correct))
  {
    if Finishes(b, e) {
      SerialFinish(b, e);
    } else {
      hide AfterFailure, Reached, Limited;
      var b' := Step(b, e);
      match e
      case Arrive(id) =>
        if id !in b.flying {
          forall i | i in b'.flying
            ensures i == id
          {
            OnlyOne(b'.flying, i, id);
          }
        }
      case ReadRow(_) =>
      case Finish(_, _) =>
      case Lose(_, _) => SerialLose(b, e);
      case Tick(_) => ReachedLater(b.row, b.clock, b'.clock);
    }
  }

  lemma SerialFinish(b: Bucket, e: Event)
    requires Serial(b) && Finishes(b, e)
    ensures Serial(Step(b, e)) && Step(b, e).flying == map[] && !Limited(b.row, b.flying[e.id].now)
    ensures Step(b, e).row == Next(b.row, Attempt(b.flying[e.id].now, e.correct))
  {
    hide AfterFailure, Reached, Limited;
    var l := b.flying[e.id];
    assert SerialLogin(l, b.row, b.clock);
    ReachedNext(b.row, l.now, Attempt(l.now, e.correct));
    ReachedLater(Step(b, e).row, l.now, b.clock);
    forall i | i in b.flying
      ensures i == e.id
    {
      OnlyOne(b.flying, i, e.id);
    }
    assert b.flying - {e.id} == map[];
  }

  lemma SerialLose(b: Bucket, e: Event)
    requires Serial(b) && e.Lose? && |Step(b, e).flying| <= 1
    ensures Serial(Step(b, e))
  {
    hide AfterFailure, Reached, Limited, SerialLogin;
  }

  lemma ReachedLater(row: Option<Row>, t: real, t': real)
    requires Reached(row, t) && t <= t'
    ensures Reached(row, t')
  {
  }

  /** Every attempt of the list finds the bucket unlocked. */
  predicate Checked(row: Option<Row>, log: seq<Attempt>)
    decreases |log|
  {
    log == [] || (!Limited(row, log[0].now) && Checked(Next(row, log[0]), log[1..]))
  }

  /** Logins one at a time are a run of whole attempts, in the order of their clocks. */
  lemma {:induction false} SerialLog(b: Bucket, es: seq<Event>, t: real)
    requires Serial(b) && AtMost(b, es, 1) && t <= b.clock && forall id | id in b.flying :: t <= b.flying[id].now
    ensures Ordered(Log(b, es), t) && Checked(b.row, Log(b, es))
    ensures Serial(Play(b, es))
    decreases |es|
  {
    hide Serial, Next, Limited;
    if es != [] {
      var b' := Step(b, es[0]);
      StillWithin(b, es);
      SerialStep(b, es[0]);
      ClocksFrom(b, es[0], t);
      if Finishes(b, es[0]) {
        FinishedBefore(b, es[0]);
        SerialLog(b', es[1..], b.flying[es[0].id].now);
        var first := Attempt(b.flying[es[0].id].now, es[0].correct);
        assert ([first] + Log(b', es[1..]))[1..] == Log(b', es[1..]);
      } else {
        SerialLog(b', es[1..], t);
        assert [] + Log(b', es[1..]) == Log(b', es[1..]);
      }
    }
  }

  lemma StillWithin(b: Bucket, es: seq<Event>)
    requires es != [] && AtMost(b, es, 1)
    ensures |Step(b, es[0]).flying| <= 1
  {
    hide Step;
    assert AtMost(Step(b, es[0]), es[1..], 1);
  }

  lemma ClocksFrom(b: Bucket, e: Event, t: real)
    requires t <= b.clock && forall id | id in b.flying :: t <= b.flying[id].now
    ensures var b' := Step(b, e);
            t <= b'.clock && (forall id | id in b'.flying :: t <= b'.flying[id].now)
            && (!Finishes(b, e) ==> b'.row == b.row)
  {
  }

  lemma FinishedBefore(b: Bucket, e: Event)
    requires Serial(b) && Finishes(b, e)
    ensures b.flying[e.id].now <= Step(b, e).clock
  {
  }

  // ----------------------------------------------------- counting in an interval

  predicate Within(a: real, x: Attempt, until: real) { a <= x.now <= until }

  /** How many wrong passwords of the log belong to logins begun in an interval. */
  function CountIn(log: seq<Attempt>, a: real, until: real): nat {
    if log == [] then 0
    else (if Within(a, log[0], until) && !log[0].correct then 1 else 0) + CountIn(log[1..], a, until)
  }

  /** No login begun in the interval succeeded. */
  predicate NoLogin(log: seq<Attempt>, a: real, until: real) {
    forall i | 0 <= i < |log| && Within(a, log[i], until) :: !log[i].correct
  }

  lemma {:induction false} CountNone(log: seq<Attempt>, t: real, a: real, until: real)
    requires Ordered(log, t) && until < t
    ensures CountIn(log, a, until) == 0
    decreases |log|
  {
    if log != [] {
      CountNone(log[1..], log[0].now, a, until);
    }
  }

  /** The logins begun in the interval are the first of a log that begins in it. */
  lemma {:induction false} CountIsPrefix(row: Option<Row>, log: seq<Attempt>, a: real, from: real, until: real)
    returns (m: nat)
    requires Ordered(log, from) && Checked(row, log) && NoLogin(log, a, until) && a <= from <= until
    ensures m <= |log| && CountIn(log, a, until) == m == Wrong(row, log[..m]) && Quiet(row, log[..m], from, until)
    decreases |log|
  {
    hide Next, Limited;
    if log == [] {
      m := 0;
    } else if log[0].now > until {
      CountNone(log, log[0].now, a, until);
      m := 0;
    } else {
      var rest := CountIsPrefix(Next(row, log[0]), log[1..], a, log[0].now, until);
      m := rest + 1;
      assert log[..m][0] == log[0] && log[..m][1..] == log[1..][..rest];
    }
  }

  lemma {:induction false} SerialBound(row: Option<Row>, log: seq<Attempt>, t: real, a: real, took: real)
    requires Ordered(log, t) && Checked(row, log) && NoLogin(log, a, a + took) && 0.0 < t && 0.0 < a && 0.0 <= took
    requires Reached(row, t) && (row.None? || t <= a)
    requires took < 930.0 * ((Windows(took) - 1) as real) + 60.0
    ensures CountIn(log, a, a + took) <= 9 * Windows(took)
    decreases |log|
  {
    hide Next, Limited, Reached, Windows;
    if log == [] {
      assert Windows(took) >= 1 by { WindowsFit(took); }
    } else if log[0].now < a {
      ReachedNext(row, t, log[0]);
      SerialBound(Next(row, log[0]), log[1..], log[0].now, a, took);
    } else {
      WindowsFit(took);
      if log[0].now > a + took {
        CountNone(log, log[0].now, a, a + took);
      } else {
        ReachedAnywhere(row, t, a);
        assert Ordered(log, log[0].now);
        var m := CountIsPrefix(row, log, a, log[0].now, a + took);
        QuietEarlier(row, log[..m], log[0].now, a, a + took);
        ManyTakeLong(row, log[..m], a, a + took, a, if row.None? then Idle else Older(0), Windows(took) - 1);
      }
    }
  }

  lemma WindowsFit(took: real)
    requires 0.0 <= took
    ensures Windows(took) >= 1 && 900.0 * ((Windows(took) - 1) as real) <= took < 900.0 * (Windows(took) as real)
  {
  }

  lemma ReachedAnywhere(row: Option<Row>, t: real, a: real)
    requires Reached(row, t) && (row.None? || t <= a)
    ensures Reached(row, a) && Tracks(row, a, if row.None? then Idle else Older(0))
  {
  }

  lemma QuietEarlier(row: Option<Row>, log: seq<Attempt>, from: real, a: real, until: real)
    requires Quiet(row, log, from, until) && a <= from
    ensures Quiet(row, log, a, until)
  {
  }

  // ------------------------------------------------------------------- bursts

  /** Two stretches of a run, one after the other. */
  lemma {:induction false} PlayConcat(b: Bucket, x: seq<Event>, y: seq<Event>, c: nat)
    ensures Play(b, x + y) == Play(Play(b, x), y)
    ensures Log(b, x + y) == Log(b, x) + Log(Play(b, x), y)
    ensures AtMost(b, x, c) && AtMost(Play(b, x), y, c) ==> AtMost(b, x + y, c)
    decreases |x|
  {
    hide Step, Finishes;
    if x == [] {
      assert x + y == y && Log(b, []) + Log(b, y) == Log(b, y);
    } else {
      assert (x + y)[1..] == x[1..] + y;
      PlayConcat(Step(b, x[0]), x[1..], y, c);
    }
  }

  lemma PlayOne(b: Bucket, e: Event, c: nat)
    ensures Play(b, [e]) == Step(b, e)
    ensures !Finishes(b, e) ==> Log(b, [e]) == []
    ensures Finishes(b, e) ==> Log(b, [e]) == [Attempt(b.flying[e.id].now, e.correct)]
    ensures |b.flying| <= c && |Step(b, e).flying| <= c ==> AtMost(b, [e], c)
  {
    assert [e][1..] == [];
  }

  function Arrivals(n: nat): seq<Event> { if n == 0 then [] else Arrivals(n - 1) + [Arrive(n - 1)] }
  function Reads(n: nat): seq<Event> { if n == 0 then [] else Reads(n - 1) + [ReadRow(n - 1)] }
  function Ends(n: nat): seq<Event> { if n == 0 then [] else Ends(n - 1) + [Finish(n - 1, false)] }

  /** n logins that all read the row before any of them writes it. */
  function Burst(n: nat): seq<Event> { Arrivals(n) + Reads(n) + Ends(n) }

  function Repeat(x: Attempt, n: nat): (r: seq<Attempt>)
    ensures |r| == n
  {
    seq(n, _ => x)
  }

  /** The numbers from k up to n. */
  function Numbers(k: nat, n: nat): (s: set<nat>)
    ensures forall i :: i in s <==> k <= i < n
    decreases n - k
  {
    if k >= n then {} else {k} + Numbers(k + 1, n)
  }

  /** k of n logins have arrived. */
  function SomeArrived(row: Option<Row>, now: real, k: nat): Bucket {
    Bucket(row, now, map i | i in Numbers(0, k) :: Arrived(now))
  }

  /** k of n have read the row. */
  function SomeRead(row: Option<Row>, now: real, n: nat, k: nat): Bucket {
    Bucket(row, now, map i | i in Numbers(0, n) :: if i < k then Checking(now, row) else Arrived(now))
  }

  /** k of n have ended. */
  function SomeEnded(row: Option<Row>, now: real, n: nat, k: nat): Bucket {
    Bucket(if k == 0 then row else Some(AfterFailure(row, now)), now, map i | i in Numbers(k, n) :: Checking(now, row))
  }

  lemma {:induction false} FlyingCount(m: map<nat, Login>, n: nat)
    requires forall i | i in m :: i < n
    ensures |m| <= n
  {
    if n == 0 {
      assert m == map[];
    } else {
      FlyingCount(m - {n - 1}, n - 1);
      assert m.Keys <= (m - {n - 1}).Keys + {n - 1};
      Fewer(m.Keys, (m - {n - 1}).Keys + {n - 1});
    }
  }

  lemma Fewer<T>(a: set<T>, b: set<T>)
    requires a <= b
    ensures |a| <= |b|
  {
    assert |b - a| == |b| - |a|;
  }

  /** One more of the n logins takes its next step. */
  lemma NextOfBurst(row: Option<Row>, now: real, n: nat, k: nat)
    requires k < n && !Limited(row, now)
    ensures Step(SomeArrived(row, now, k), Arrive(k)) == SomeArrived(row, now, k + 1)
    ensures !Finishes(SomeArrived(row, now, k), Arrive(k)) && !Finishes(SomeRead(row, now, n, k), ReadRow(k))
    ensures Step(SomeRead(row, now, n, k), ReadRow(k)) == SomeRead(row, now, n, k + 1)
    ensures Step(SomeEnded(row, now, n, k), Finish(k, false)) == SomeEnded(row, now, n, k + 1)
    ensures Finishes(SomeEnded(row, now, n, k), Finish(k, false)) && SomeEnded(row, now, n, k).flying[k].now == now
  {
    hide AfterFailure, Limited;
    assert Step(SomeArrived(row, now, k), Arrive(k)).flying == SomeArrived(row, now, k + 1).flying;
    assert Step(SomeRead(row, now, n, k), ReadRow(k)).flying == SomeRead(row, now, n, k + 1).flying;
    assert Step(SomeEnded(row, now, n, k), Finish(k, false)).flying == SomeEnded(row, now, n, k + 1).flying;
  }

  lemma BurstWithin(row: Option<Row>, now: real, n: nat, k: nat)
    requires k <= n
    ensures |SomeArrived(row, now, k).flying| <= n && |SomeRead(row, now, n, k).flying| <= n
            && |SomeEnded(row, now, n, k).flying| <= n
  {
    hide AfterFailure;
    FlyingCount(SomeArrived(row, now, k).flying, n);
    FlyingCount(SomeRead(row, now, n, k).flying, n);
    FlyingCount(SomeEnded(row, now, n, k).flying, n);
  }

  /** A stretch of a run and one more event. */
  lemma PlayNext(b: Bucket, es: seq<Event>, e: Event, all: seq<Event>, n: nat)
    requires all == es + [e] && AtMost(b, es, n) && |Play(b, es).flying| <= n && |Step(Play(b, es), e).flying| <= n
    ensures Play(b, all) == Step(Play(b, es), e) && AtMost(b, all, n)
    ensures Finishes(Play(b, es), e) ==> Log(b, all) == Log(b, es) + [Attempt(Play(b, es).flying[e.id].now, e.correct)]
    ensures !Finishes(Play(b, es), e) ==> Log(b, all) == Log(b, es)
  {
    PlayOne(Play(b, es), e, n);
    hide Play, Log, AtMost, Step;
    PlayConcat(b, es, [e], n);
    assert Log(b, es) + [] == Log(b, es);
  }

  lemma NothingPlayed(b: Bucket, n: nat)
    ensures Play(b, []) == b && Log(b, []) == [] && (|b.flying| <= n ==> AtMost(b, [], n))
  {
  }

  lemma Stretches(k: nat)
    ensures Arrivals(0) == [] && Reads(0) == [] && Ends(0) == [] && forall x :: Repeat(x, 0) == []
    ensures k > 0 ==> Arrivals(k) == Arrivals(k - 1) + [Arrive(k - 1)]
    ensures k > 0 ==> Reads(k) == Reads(k - 1) + [ReadRow(k - 1)] && Ends(k) == Ends(k - 1) + [Finish(k - 1, false)]
  {
  }

  lemma {:induction false} AllArrive(row: Option<Row>, now: real, n: nat, k: nat)
    requires k <= n && !Limited(row, now)
    ensures Play(SomeArrived(row, now, 0), Arrivals(k)) == SomeArrived(row, now, k)
    ensures Log(SomeArrived(row, now, 0), Arrivals(k)) == [] && AtMost(SomeArrived(row, now, 0), Arrivals(k), n)
  {
    hide *;
    Stretches(k);
    if k == 0 {
      BurstWithin(row, now, n, 0);
      NothingPlayed(SomeArrived(row, now, 0), n);
    } else {
      BurstWithin(row, now, n, k);
      AllArrive(row, now, n, k - 1);
      BurstWithin(row, now, n, k - 1);
      NextOfBurst(row, now, n, k - 1);
      PlayNext(SomeArrived(row, now, 0), Arrivals(k - 1), Arrive(k - 1), Arrivals(k), n);
    }
  }

  lemma {:induction false} AllRead(row: Option<Row>, now: real, n: nat, k: nat)
    requires k <= n && !Limited(row, now)
    ensures Play(SomeRead(row, now, n, 0), Reads(k)) == SomeRead(row, now, n, k)
    ensures Log(SomeRead(row, now, n, 0), Reads(k)) == [] && AtMost(SomeRead(row, now, n, 0), Reads(k), n)
  {
    hide *;
    Stretches(k);
    if k == 0 {
      BurstWithin(row, now, n, 0);
      NothingPlayed(SomeRead(row, now, n, 0), n);
    } else {
      BurstWithin(row, now, n, k);
      AllRead(row, now, n, k - 1);
      BurstWithin(row, now, n, k - 1);
      NextOfBurst(row, now, n, k - 1);
      PlayNext(SomeRead(row, now, n, 0), Reads(k - 1), ReadRow(k - 1), Reads(k), n);
    }
  }

  lemma {:induction false} AllEnd(row: Option<Row>, now: real, n: nat, k: nat)
    requires k <= n && !Limited(row, now)
    ensures Play(SomeEnded(row, now, n, 0), Ends(k)) == SomeEnded(row, now, n, k)
    ensures Log(SomeEnded(row, now, n, 0), Ends(k)) == Repeat(Attempt(now, false), k)
            && AtMost(SomeEnded(row, now, n, 0), Ends(k), n)
  {
    hide *;
    Stretches(k);
    if k == 0 {
      BurstWithin(row, now, n, 0);
      NothingPlayed(SomeEnded(row, now, n, 0), n);
    } else {
      BurstWithin(row, now, n, k);
      AllEnd(row, now, n, k - 1);
      BurstWithin(row, now, n, k - 1);
      NextOfBurst(row, now, n, k - 1);
      PlayNext(SomeEnded(row, now, n, 0), Ends(k - 1), Finish(k - 1, false), Ends(k), n);
      RepeatNext(Attempt(now, false), k);
    }
  }

  lemma RepeatNext(x: Attempt, k: nat)
    requires k > 0
    ensures Repeat(x, k) == Repeat(x, k - 1) + [x]
  {
  }

  /** However many logins overlap, all their passwords are checked and one failure is counted. */
  lemma BurstCountsOnce(row: Option<Row>, now: real, n: nat)
    requires n > 0 && !Limited(row, now)
    ensures var b := Bucket(row, now, map[]);
            Play(b, Burst(n)) == Bucket(Some(AfterFailure(row, now)), now, map[])
            && Log(b, Burst(n)) == Repeat(Attempt(now, false), n) && AtMost(b, Burst(n), n)
  {
    var b := Bucket(row, now, map[]);
    AllArrive(row, now, n, n);
    AllRead(row, now, n, n);
    AllEnd(row, now, n, n);
    assert SomeArrived(row, now, 0).flying == map[];
    assert SomeArrived(row, now, n) == SomeRead(row, now, n, 0);
    assert SomeRead(row, now, n, n) == SomeEnded(row, now, n, 0);
    assert SomeEnded(row, now, n, n).flying == map[];
    hide Play, Log, AtMost, AfterFailure;
    PlayConcat(b, Arrivals(n), Reads(n), n);
    PlayConcat(b, Arrivals(n) + Reads(n), Ends(n), n);
    assert [] + [] + Repeat(Attempt(now, false), n) == Repeat(Attempt(now, false), n);
  }

  /** One burst of n at the moment of each attempt. */
  function Volley(clock: real, attempts: seq<Attempt>, n: nat): seq<Event>
    decreases |attempts|
  {
    if attempts == [] then []
    else [Tick(attempts[0].now - clock)] + Burst(n) + Volley(attempts[0].now, attempts[1..], n)
  }

  /** The first burst of a volley, and the rest. */
  lemma VolleyStep(row: Option<Row>, clock: real, attempts: seq<Attempt>, n: nat)
    requires n > 0 && attempts != [] && clock <= attempts[0].now && !Limited(row, attempts[0].now)
             && !attempts[0].correct
    ensures var now := attempts[0].now;
            var (b, b') := (Bucket(row, clock, map[]), Bucket(Next(row, attempts[0]), now, map[]));
            var (es, rest) := (Volley(clock, attempts, n), Volley(now, attempts[1..], n));
            Log(b, es) == Repeat(Attempt(now, false), n) + Log(b', rest) && (AtMost(b', rest, n) ==> AtMost(b, es, n))
  {
    var now := attempts[0].now;
    var b := Bucket(row, clock, map[]);
    var rest := Volley(now, attempts[1..], n);
    assert Step(b, Tick(now - clock)) == Bucket(row, now, map[]);
    assert Next(row, attempts[0]) == Some(AfterFailure(row, now));
    BurstCountsOnce(row, now, n);
    PlayOne(b, Tick(now - clock), n);
    VolleyStarts(clock, attempts, n);
    hide *;
    PlayConcat(b, [Tick(now - clock)], Burst(n), n);
    PlayConcat(b, [Tick(now - clock)] + Burst(n), rest, n);
    assert [] + Repeat(Attempt(now, false), n) == Repeat(Attempt(now, false), n);
  }

  lemma {:induction false} VolleyLog(row: Option<Row>, clock: real, attempts: seq<Attempt>, n: nat, a: real, from: real,
                                     until: real)
    requires n > 0 && Wrong(row, attempts) == |attempts| && Quiet(row, attempts, from, until) && clock <= from
             && a <= from
    ensures var (b, es) := (Bucket(row, clock, map[]), Volley(clock, attempts, n));
            AtMost(b, es, n) && CountIn(Log(b, es), a, until) == n * |attempts| && NoLogin(Log(b, es), a, until)
    decreases |attempts|
  {
    if attempts != [] {
      var (now, row') := (attempts[0].now, Next(row, attempts[0]));
      QuietUntil(row, attempts, from, until);
      WrongFirst(row, attempts, from, until);
      hide *;
      VolleyLog(row', now, attempts[1..], n, a, now, until);
      VolleyStep(row, clock, attempts, n);
      CountRepeat(Attempt(now, false), n, a, until);
      CountConcat(Repeat(Attempt(now, false), n), Log(Bucket(row', now, map[]), Volley(now, attempts[1..], n)), a,
                  until);
      VolleyCounts(n, attempts, Repeat(Attempt(now, false), n),
                   Log(Bucket(row', now, map[]), Volley(now, attempts[1..], n)), a, until);
    } else {
      NothingPlayed(Bucket(row, clock, map[]), n);
    }
  }

  lemma {:induction false} BurstLossless(n: nat)
    ensures Lossless(Arrivals(n)) && Lossless(Reads(n)) && Lossless(Ends(n)) && Lossless(Burst(n))
  {
    if n > 0 {
      BurstLossless(n - 1);
    }
  }

  lemma {:induction false} VolleyLossless(clock: real, attempts: seq<Attempt>, n: nat)
    ensures Lossless(Burst(n)) && Lossless(Volley(clock, attempts, n))
    decreases |attempts|
  {
    BurstLossless(n);
    hide Burst;
    if attempts != [] {
      VolleyLossless(attempts[0].now, attempts[1..], n);
    }
  }

  lemma VolleyCounts(n: nat, attempts: seq<Attempt>, x: seq<Attempt>, y: seq<Attempt>, a: real, until: real)
    requires attempts != [] && NoLogin(y, a, until) && forall i | 0 <= i < |x| :: !x[i].correct
    ensures NoLogin(x + y, a, until) && n + n * |attempts[1..]| == n * |attempts|
  {
  }

  lemma WrongFirst(row: Option<Row>, attempts: seq<Attempt>, from: real, until: real)
    requires attempts != [] && Wrong(row, attempts) == |attempts| && Quiet(row, attempts, from, until)
    ensures !Limited(row, attempts[0].now) && !attempts[0].correct
    ensures var row' := Next(row, attempts[0]);
            Quiet(row', attempts[1..], attempts[0].now, until) && Wrong(row', attempts[1..]) == |attempts[1..]|
  {
    hide AfterFailure, Limited;
    WrongAtMost(Next(row, attempts[0]), attempts[1..]);
  }

  lemma VolleyStarts(clock: real, attempts: seq<Attempt>, n: nat)
    requires attempts != []
    ensures Volley(clock, attempts, n)
            == [Tick(attempts[0].now - clock)] + Burst(n) + Volley(attempts[0].now, attempts[1..], n)
  {
  }

  lemma {:induction false} WrongAtMost(row: Option<Row>, attempts: seq<Attempt>)
    ensures Wrong(row, attempts) <= |attempts|
    decreases |attempts|
  {
    hide Next, VerdictOf;
    if attempts != [] {
      WrongAtMost(Next(row, attempts[0]), attempts[1..]);
    }
  }

  lemma {:induction false} QuietUntil(row: Option<Row>, attempts: seq<Attempt>, from: real, until: real)
    requires Quiet(row, attempts, from, until) && attempts != []
    ensures from <= attempts[0].now <= until
  {
  }

  lemma {:induction false} CountConcat(x: seq<Attempt>, y: seq<Attempt>, a: real, until: real)
    ensures CountIn(x + y, a, until) == CountIn(x, a, until) + CountIn(y, a, until)
  {
    if x == [] {
      assert x + y == y;
    } else {
      assert (x + y)[1..] == x[1..] + y;
      CountConcat(x[1..], y, a, until);
    }
  }

  lemma {:induction false} CountRepeat(x: Attempt, n: nat, a: real, until: real)
    requires Within(a, x, until) && !x.correct
    ensures CountIn(Repeat(x, n), a, until) == n
  {
    if n > 0 {
      assert Repeat(x, n)[1..] == Repeat(x, n - 1);
      CountRepeat(x, n - 1, a, until);
    }
  }

  // ---------------------------------------------------- when nine is the bound

  /** Every checked password is recorded. */
  predicate Lossless(es: seq<Event>) { forall i | 0 <= i < |es| :: !es[i].Lose? }

  /** How many wrong passwords are checked by logins begun in an interval, recorded or not. */
  function Checks(b: Bucket, es: seq<Event>, a: real, until: real): nat {
    CountIn(Log(b, es), a, until) + CountIn(Lost(b, es), a, until)
  }

  /** At most nine wrong passwords per window are checked, in every run with at most c logins under way. */
  ghost predicate NineWithin(c: nat, lossy: bool, took: real) {
    forall clock, es, a :: Observed(clock, es, a, c, took) && (lossy || Lossless(es)) ==>
      Checks(Empty(clock), es, a, a + took) <= 9 * Windows(took)
  }

  /** A run from an empty bucket, and an interval of it in which no login succeeds. */
  predicate Observed(clock: real, es: seq<Event>, a: real, c: nat, took: real) {
    0.0 < clock && 0.0 < a && AtMost(Empty(clock), es, c) && NoLogin(Log(Empty(clock), es), a, a + took)
  }

  lemma EmptySerial(clock: real)
    requires 0.0 < clock
    ensures Serial(Empty(clock))
  {
  }

  lemma {:induction false} NothingLost(b: Bucket, es: seq<Event>)
    requires Lossless(es)
    ensures Lost(b, es) == []
    decreases |es|
  {
    hide Step;
    if es != [] {
      NothingLost(Step(b, es[0]), es[1..]);
    }
  }

  /**
    The bound of nine per window holds in every run exactly when logins never
    overlap, no record of a checked password is lost, and the interval leaves less
    than sixty seconds beside its full windows.
   */
  lemma NinePerWindowExactly(c: nat, lossy: bool, took: real)
    requires c > 0 && took >= 0.0
    ensures NineWithin(c, lossy, took)
            <==> c == 1 && !lossy && took < 930.0 * ((Windows(took) - 1) as real) + 60.0
  {
    hide Log, Lost, AtMost, NoLogin, CountIn, Lossless, Windows;
    WindowsFit(took);
    if lossy {
      var es := Unrecorded(9 * Windows(took) + 1);
      UnrecordedChecks(901.0, 9 * Windows(took) + 1, c, took);
      assert Observed(901.0, es, 901.0, c, took);
    } else if c == 1 && took < 930.0 * ((Windows(took) - 1) as real) + 60.0 {
      forall clock, es, a | Observed(clock, es, a, 1, took) && Lossless(es)
        ensures Checks(Empty(clock), es, a, a + took) <= 9 * Windows(took)
      {
        EmptySerial(clock);
        SerialLog(Empty(clock), es, clock);
        SerialBound(None, Log(Empty(clock), es), clock, a, took);
        NothingLost(Empty(clock), es);
        CountEarly([], a, a + took);
      }
    } else {
      var es := TooMany(c, took);
      assert Observed(1.0, es, 901.0, c, took);
    }
  }

  /**
    Single logins, none of them under way and no window open at the start: each
    window of any length of time sees at most nine checks, and the lost ones.
   */
  lemma NinePerWindow(clock: real, before: seq<Event>, es: seq<Event>, took: real)
    requires 0.0 < clock && took >= 0.0 && AtMost(Empty(clock), before, 1)
    requires var b := Play(Empty(clock), before);
             b.flying == map[] && Expired(b.row, b.clock) && AtMost(b, es, 1)
             && NoLogin(Log(b, es), b.clock, b.clock + took)
    ensures var b := Play(Empty(clock), before);
            var until := b.clock + took;
            Checks(b, es, b.clock, until) <= 9 * Windows(took) + CountIn(Lost(b, es), b.clock, until)
  {
    hide Play, Log, Lost, AtMost, NoLogin, CountIn, Wrong, Quiet, Windows, Expired;
    var b := Play(Empty(clock), before);
    var (a, until, k) := (b.clock, b.clock + took, Windows(took) - 1);
    EmptySerial(clock);
    SerialLog(Empty(clock), before, clock);
    SerialLog(b, es, a);
    WindowsFit(took);
    var m := CountIsPrefix(b.row, Log(b, es), a, a, until);
    ManyTakeLong(b.row, Log(b, es)[..m], a, until, a, Idle, k);
  }

  /** n logins, one after the other, whose records are lost. */
  function Unrecorded(n: nat): seq<Event> {
    if n == 0 then [] else [Arrive(0), ReadRow(0), Lose(0, false)] + Unrecorded(n - 1)
  }

  lemma {:induction false} UnrecordedRun(now: real, n: nat, c: nat)
    requires 0.0 < now && c > 0
    ensures var (b, es) := (Empty(now), Unrecorded(n));
            AtMost(b, es, c) && Log(b, es) == [] && Lost(b, es) == Repeat(Attempt(now, false), n)
  {
    if n > 0 {
      var (b, rest) := (Empty(now), Unrecorded(n - 1));
      var b1 := Bucket(None, now, map[0 := Arrived(now)]);
      var b2 := Bucket(None, now, map[0 := Checking(now, None)]);
      UnrecordedRun(now, n - 1, c);
      assert b2.flying - {0} == map[];
      assert Step(b, Arrive(0)) == b1 && Step(b1, ReadRow(0)) == b2 && Step(b2, Lose(0, false)) == b;
      LostFirst(b2, Lose(0, false), rest, c);
      LostFirst(b1, ReadRow(0), [Lose(0, false)] + rest, c);
      LostFirst(b, Arrive(0), [ReadRow(0), Lose(0, false)] + rest, c);
      assert [ReadRow(0)] + ([Lose(0, false)] + rest) == [ReadRow(0), Lose(0, false)] + rest;
      assert [Arrive(0)] + ([ReadRow(0), Lose(0, false)] + rest) == Unrecorded(n);
      assert [Attempt(now, false)] + Repeat(Attempt(now, false), n - 1) == Repeat(Attempt(now, false), n);
    }
  }

  /** One event that records nothing, before the others. */
  lemma LostFirst(b: Bucket, e: Event, rest: seq<Event>, c: nat)
    requires !Finishes(b, e) && |b.flying| <= c
    ensures var (es, b') := ([e] + rest, Step(b, e));
            Log(b, es) == Log(b', rest) && (AtMost(b', rest, c) ==> AtMost(b, es, c))
            && Lost(b, es) == (if Loses(b, e) then [Attempt(b.flying[e.id].now, e.correct)] else []) + Lost(b', rest)
  {
    hide Step;
    var es := [e] + rest;
    assert es[1..] == rest && [] + Log(Step(b, e), rest) == Log(Step(b, e), rest);
  }

  lemma UnrecordedChecks(now: real, n: nat, c: nat, took: real)
    requires 0.0 < now && c > 0 && took >= 0.0
    ensures var (b, es) := (Empty(now), Unrecorded(n));
            AtMost(b, es, c) && NoLogin(Log(b, es), now, now + took) && Checks(b, es, now, now + took) == n
  {
    UnrecordedRun(now, n, c);
    CountRepeat(Attempt(now, false), n, now, now + took);
  }

  /** A sequence of attempts from an old row, each made by n logins at once, counted from 901 on. */
  lemma VolleyFromOld(attempts: seq<Attempt>, n: nat, c: nat, took: real) returns (es: seq<Event>)
    requires 0 < n <= c && Wrong(Some(OLD_ROW), attempts) == |attempts|
             && Quiet(Some(OLD_ROW), attempts, 901.0, 901.0 + took)
    ensures AtMost(Empty(1.0), es, c) && NoLogin(Log(Empty(1.0), es), 901.0, 901.0 + took)
    ensures CountIn(Log(Empty(1.0), es), 901.0, 901.0 + took) == n * |attempts| && Lossless(es)
  {
    var until := 901.0 + took;
    var b := Bucket(Some(OLD_ROW), 1.0, map[]);
    BurstCountsOnce(None, 1.0, n);
    OldRowIsReached();
    VolleyLog(Some(OLD_ROW), 1.0, attempts, n, 901.0, 901.0, until);
    var early := Repeat(Attempt(1.0, false), n);
    es := Burst(n) + Volley(1.0, attempts, n);
    VolleyLossless(1.0, attempts, n);
    hide Play, Log, AtMost, AfterFailure, Burst, Volley, Wrong, Quiet, CountIn;
    PlayConcat(Empty(1.0), Burst(n), Volley(1.0, attempts, n), n);
    CountEarly(early, 901.0, until);
    CountConcat(early, Log(b, Volley(1.0, attempts, n)), 901.0, until);
    MoreAllowed(Empty(1.0), es, n, c);
  }

  lemma {:induction false} CountEarly(log: seq<Attempt>, a: real, until: real)
    requires forall i | 0 <= i < |log| :: log[i].now < a
    ensures CountIn(log, a, until) == 0
  {
    if log != [] {
      CountEarly(log[1..], a, until);
    }
  }

  lemma {:induction false} MoreAllowed(b: Bucket, es: seq<Event>, n: nat, c: nat)
    requires AtMost(b, es, n) && n <= c
    ensures AtMost(b, es, c)
    decreases |es|
  {
    hide Step;
    if es != [] {
      MoreAllowed(Step(b, es[0]), es[1..], n, c);
    }
  }

  /** A run that breaks the bound: pairs of overlapping logins, or single ones where sixty seconds are left. */
  lemma TooMany(c: nat, took: real) returns (es: seq<Event>)
    requires took >= 0.0 && c > 0 && (c > 1 || took >= 930.0 * ((Windows(took) - 1) as real) + 60.0)
    ensures AtMost(Empty(1.0), es, c) && NoLogin(Log(Empty(1.0), es), 901.0, 901.0 + took)
    ensures CountIn(Log(Empty(1.0), es), 901.0, 901.0 + took) > 9 * Windows(took) && Lossless(es)
  {
    hide Log, AtMost, NoLogin, CountIn, Wrong, Quiet, WorstRun, Windows;
    var k := Windows(took) - 1;
    WindowsFit(took);
    if took >= 930.0 * (k as real) + 60.0 {
      WorstRunCounts(k, 901.0 + took);
      WorstRunLength(k);
      es := VolleyFromOld(WorstRun(901.0, k), 1, c, took);
    } else if k == 0 {
      es := FivePairs(c, took);
    } else {
      var j := k / 2;
      assert 930.0 * (j as real) + 60.0 <= 900.0 * (k as real) by {
        assert 2.0 * (j as real) <= k as real;
        assert j == 0 || k >= 2;
      }
      WorstRunCounts(j, 901.0 + took);
      WorstRunLength(j);
      es := VolleyFromOld(WorstRun(901.0, j), 2, c, took);
    }
  }

  lemma WorstRunLength(k: nat)
    ensures |WorstRun(901.0, k)| == 9 * k + 10
  {
    OnslaughtLength(931.0, k);
  }

  lemma {:induction false} OnslaughtLength(w: real, k: nat)
    ensures |Onslaught(w, k)| == 9 * k + 6
    decreases k
  {
    if k > 0 {
      OnslaughtLength(w + 930.0, k - 1);
    }
  }

  /** Ten checks at one moment: five rounds of two overlapping logins. */
  lemma FivePairs(c: nat, took: real) returns (es: seq<Event>)
    requires c > 1 && took >= 0.0
    ensures AtMost(Empty(1.0), es, c) && NoLogin(Log(Empty(1.0), es), 901.0, 901.0 + took)
    ensures CountIn(Log(Empty(1.0), es), 901.0, 901.0 + took) == 10 && Lossless(es)
  {
    hide Log, AtMost, NoLogin, CountIn, Quiet, Wrong, Volley;
    var attempts := FullWindow(901.0)[..5];
    assert attempts + [] == attempts;
    FiveAtOnce(None, 901.0, [], 901.0, 901.0 + took);
    NoneLeft(901.0, 901.0 + took);
    VolleyLog(None, 1.0, attempts, 2, 901.0, 901.0, 901.0 + took);
    es := Volley(1.0, attempts, 2);
    VolleyLossless(1.0, attempts, 2);
    MoreAllowed(Empty(1.0), es, 2, c);
  }

  lemma NoneLeft(from: real, until: real)
    requires from <= until
    ensures forall row :: Quiet(row, [], from, until) && Wrong(row, []) == 0
  {
  }

  // -------------------------------------------------- when nine failures are most

  predicate AtMostNineFailures(row: Option<Row>) {
    row.Some? ==>
      1 <= row.value.failures <= 9
      && (row.value.failures >= LOGIN_MAX_FAILURES ==> Exponent(row.value.failures) <= 4)
  }

  /** What holds of every row while logins overlap but read the row within lag of the clock. */
  predicate Skewed(row: Option<Row>, clock: real, lag: real) {
    row.Some? ==>
      var r := row.value;
      1 <= r.failures <= 9 && 0.0 < r.windowStarted <= clock && r.updatedAt <= clock
      && r.windowStarted - lag + Lag(r.failures) <= r.updatedAt <= r.windowStarted + LOGIN_WINDOW_SECONDS
      && r.lockedUntil == (if r.failures >= LOGIN_MAX_FAILURES then Some(r.updatedAt + Backoff(r.failures)) else None)
  }

  predicate SkewedLogin(l: Login, clock: real, lag: real) {
    0.0 < l.now <= clock
    && (l.Checking? ==> Skewed(l.row, clock, lag) && !Limited(l.row, l.now)
                        && (l.row.Some? ==> l.row.value.windowStarted - lag <= l.now))
  }

  predicate Overlapping(b: Bucket, lag: real) {
    0.0 < b.clock && Skewed(b.row, b.clock, lag)
    && forall id | id in b.flying :: SkewedLogin(b.flying[id], b.clock, lag)
  }

  /** Each failure is counted from an unlocked row with one less, so the tenth would come after the window. */
  lemma SkewedFailure(row: Option<Row>, now: real, clock: real, lag: real)
    requires 0.0 <= lag < 30.0 && SkewedLogin(Checking(now, row), clock, lag)
    ensures Skewed(Some(AfterFailure(row, now)), clock, lag)
  {
    Backoffs();
    hide Backoff;
  }

  lemma SkewedLater(row: Option<Row>, l: Login, t: real, t': real, lag: real)
    requires t <= t'
    ensures Skewed(row, t, lag) ==> Skewed(row, t', lag)
    ensures SkewedLogin(l, t, lag) ==> SkewedLogin(l, t', lag)
  {
    hide Backoff, Limited;
  }

  lemma OverlappingStep(b: Bucket, e: Event, lag: real)
    requires 0.0 <= lag < 30.0 && Overlapping(b, lag) && Prompt(b, [e], lag)
    ensures Overlapping(Step(b, e), lag)
  {
    hide AfterFailure, Skewed, Limited;
    var b' := Step(b, e);
    match e
    case Arrive(_) =>
    case ReadRow(id) => ReadRowSkewed(b.row, b.clock, lag);
    case Finish(id, _) =>
      if Finishes(b, e) {
        SkewedFailure(b.flying[id].row, b.flying[id].now, b.clock, lag);
      }
      NoRowSkewed(b.clock, lag);
    case Lose(_, _) =>
    case Tick(_) =>
      forall id | id in b.flying
        ensures SkewedLogin(b.flying[id], b'.clock, lag) && Skewed(b.row, b'.clock, lag)
      {
        SkewedLater(b.row, b.flying[id], b.clock, b'.clock, lag);
      }
      SkewedLater(b.row, Arrived(0.0), b.clock, b'.clock, lag);
  }

  lemma ReadRowSkewed(row: Option<Row>, clock: real, lag: real)
    requires Skewed(row, clock, lag)
    ensures row.Some? ==> row.value.windowStarted <= clock
  {
  }

  lemma NoRowSkewed(clock: real, lag: real)
    ensures Skewed(None, clock, lag)
  {
  }

  lemma {:induction false} OverlappingRun(b: Bucket, es: seq<Event>, lag: real)
    requires 0.0 <= lag < 30.0 && Overlapping(b, lag) && Prompt(b, es, lag)
    ensures Overlapping(Play(b, es), lag)
    decreases |es|
  {
    hide Overlapping, Step;
    if es != [] {
      FirstPrompt(b, es, lag);
      OverlappingStep(b, es[0], lag);
      OverlappingRun(Step(b, es[0]), es[1..], lag);
    }
  }

  lemma FirstPrompt(b: Bucket, es: seq<Event>, lag: real)
    requires es != [] && Prompt(b, es, lag)
    ensures Prompt(b, [es[0]], lag)
  {
    hide Step;
    assert [es[0]][1..] == [];
  }

  // ------------------------------------------------------------- a slow reader

  /** A run goes on from another bucket. */
  predicate GoesOn(b: Bucket, es: seq<Event>, b': Bucket, rest: seq<Event>, c: nat, lag: real) {
    Play(b, es) == Play(b', rest)
    && (AtMost(b', rest, c) && Prompt(b', rest, lag) ==> AtMost(b, es, c) && Prompt(b, es, lag))
  }

  lemma OneStep(b: Bucket, e: Event, rest: seq<Event>, c: nat, lag: real)
    requires |b.flying| <= c && Prompt(b, [e], lag)
    ensures GoesOn(b, [e] + rest, Step(b, e), rest, c, lag)
  {
    hide Step;
    assert ([e] + rest)[1..] == rest;
  }

  /** A wrong password tried and recorded at once. */
  function Try(id: nat): seq<Event> { [Arrive(id), ReadRow(id), Finish(id, false)] }

  lemma TryOnce(b: Bucket, id: nat, rest: seq<Event>, c: nat, lag: real)
    requires id !in b.flying && !Limited(b.row, b.clock) && |b.flying| < c && 0.0 <= lag
    ensures GoesOn(b, Try(id) + rest, b.(row := Some(AfterFailure(b.row, b.clock))), rest, c, lag)
  {
    var b1 := b.(flying := b.flying[id := Arrived(b.clock)]);
    var b2 := b.(flying := b.flying[id := Checking(b.clock, b.row)]);
    var b3 := b.(row := Some(AfterFailure(b.row, b.clock)));
    TryStates(b, id, lag);
    hide *;
    OneStep(b, Arrive(id), [ReadRow(id), Finish(id, false)] + rest, c, lag);
    OneStep(b1, ReadRow(id), [Finish(id, false)] + rest, c, lag);
    OneStep(b2, Finish(id, false), rest, c, lag);
    TryEvents(id, rest);
    Onward(b, Try(id) + rest, b1, [ReadRow(id), Finish(id, false)] + rest, b2, [Finish(id, false)] + rest, c, lag);
    Onward(b, Try(id) + rest, b2, [Finish(id, false)] + rest, b3, rest, c, lag);
  }

  lemma TryEvents(id: nat, rest: seq<Event>)
    ensures [Arrive(id)] + ([ReadRow(id), Finish(id, false)] + rest) == Try(id) + rest
    ensures [ReadRow(id)] + ([Finish(id, false)] + rest) == [ReadRow(id), Finish(id, false)] + rest
  {
  }

  /** The buckets a recorded failure passes through. */
  lemma TryStates(b: Bucket, id: nat, lag: real)
    requires id !in b.flying && !Limited(b.row, b.clock) && 0.0 <= lag
    ensures var b1 := b.(flying := b.flying[id := Arrived(b.clock)]);
            var b2 := b.(flying := b.flying[id := Checking(b.clock, b.row)]);
            Step(b, Arrive(id)) == b1 && Step(b1, ReadRow(id)) == b2
            && Step(b2, Finish(id, false)) == b.(row := Some(AfterFailure(b.row, b.clock)))
            && |b1.flying| == |b2.flying| == |b.flying| + 1
            && Prompt(b, [Arrive(id)], lag) && Prompt(b1, [ReadRow(id)], lag) && Prompt(b2, [Finish(id, false)], lag)
  {
    hide AfterFailure, Limited;
    var b1 := b.(flying := b.flying[id := Arrived(b.clock)]);
    var b2 := b.(flying := b.flying[id := Checking(b.clock, b.row)]);
    assert b1.flying.Keys == b.flying.Keys + {id} == b2.flying.Keys;
    assert |b1.flying.Keys| == |b.flying.Keys| + 1 == |b2.flying.Keys|;
    assert b1.flying[id := Checking(b.clock, b.row)] == b2.flying && b2.flying - {id} == b.flying;
  }

  lemma Onward(b: Bucket, es: seq<Event>, b1: Bucket, es1: seq<Event>, b2: Bucket, es2: seq<Event>, c: nat, lag: real)
    requires GoesOn(b, es, b1, es1, c, lag) && GoesOn(b1, es1, b2, es2, c, lag)
    ensures GoesOn(b, es, b2, es2, c, lag)
  {
    hide Play, AtMost, Prompt;
  }

  /** The bucket of the slow reader: one login read the clock at 100 and nothing since. */
  function Slow(f: int, at: real, clock: real): Bucket {
    Bucket(Some(WindowRow(130.0, f, at)), clock, map[0 := Arrived(100.0)])
  }

  /** After the slow login was counted the bucket is empty of logins. */
  function Caught(f: int, at: real, clock: real): Bucket {
    Bucket(Some(WindowRow(130.0, f, at)), clock, map[])
  }

  /** Wait until the lock is over and try again. */
  lemma WaitAndTry(f: int, at: real, clock: real, rest: seq<Event>, c: nat, lag: real)
    requires c > 1 && lag >= 0.0 && 5 <= f <= 9 && clock <= at + Backoff(f) <= 1030.0 && at <= clock
    ensures var now := at + Backoff(f);
            GoesOn(Caught(f, at, clock), [Tick(now - clock)] + (Try(1) + rest), Caught(f + 1, now, now), rest, c, lag)
  {
    var now := at + Backoff(f);
    var (b, b') := (Caught(f, at, clock), Caught(f, at, now));
    assert Step(b, Tick(now - clock)) == b';
    OneStep(b, Tick(now - clock), Try(1) + rest, c, lag);
    assert AfterFailure(b'.row, now) == WindowRow(130.0, f + 1, now);
    TryOnce(b', 1, rest, c, lag);
    hide GoesOn, Backoff;
    Onward(b, [Tick(now - clock)] + (Try(1) + rest), b', Try(1) + rest, Caught(f + 1, now, now), rest, c, lag);
  }

  /** The four failures counted while the slow login has read the clock and not the row. */
  lemma FourMeanwhile(rest: seq<Event>, c: nat, lag: real)
    requires c > 1 && lag >= 0.0
    ensures GoesOn(Bucket(None, 130.0, map[0 := Arrived(100.0)]), Try(1) + (Try(1) + (Try(1) + (Try(1) + rest))),
                   Slow(4, 130.0, 130.0), rest, c, lag)
  {
    var b0 := Bucket(None, 130.0, map[0 := Arrived(100.0)]);
    var (b1, b2, b3) := (Slow(1, 130.0, 130.0), Slow(2, 130.0, 130.0), Slow(3, 130.0, 130.0));
    TryOnce(b0, 1, Try(1) + (Try(1) + (Try(1) + rest)), c, lag);
    TryOnce(b1, 1, Try(1) + (Try(1) + rest), c, lag);
    TryOnce(b2, 1, Try(1) + rest, c, lag);
    TryOnce(b3, 1, rest, c, lag);
    hide GoesOn;
    Onward(b0, Try(1) + (Try(1) + (Try(1) + (Try(1) + rest))), b1, Try(1) + (Try(1) + (Try(1) + rest)), b2,
           Try(1) + (Try(1) + rest), c, lag);
    Onward(b0, Try(1) + (Try(1) + (Try(1) + (Try(1) + rest))), b2, Try(1) + (Try(1) + rest), b3, Try(1) + rest, c, lag);
    Onward(b0, Try(1) + (Try(1) + (Try(1) + (Try(1) + rest))), b3, Try(1) + rest, Slow(4, 130.0, 130.0), rest, c, lag);
  }

  /**
    Where a login may wait thirty seconds between clock and row, and another overlaps it, a
    tenth failure is counted.
   */
  lemma TenFailures(c: nat, lag: real) returns (es: seq<Event>)
    requires c > 1 && lag >= 30.0
    ensures AtMost(Empty(100.0), es, c) && Prompt(Empty(100.0), es, lag)
    ensures Play(Empty(100.0), es).row == Some(WindowRow(130.0, 10, 1030.0))
  {
    Backoffs();
    var last: seq<Event> := [];
    var r10 := [Tick(480.0)] + (Try(1) + last);
    var r9 := [Tick(240.0)] + (Try(1) + r10);
    var r8 := [Tick(120.0)] + (Try(1) + r9);
    var r7 := [Tick(60.0)] + (Try(1) + r8);
    var r6 := [Tick(0.0)] + (Try(1) + r7);
    var r5 := [ReadRow(0)] + ([Finish(0, false)] + r6);
    var r1 := Try(1) + (Try(1) + (Try(1) + (Try(1) + r5)));
    es := [Arrive(0)] + ([Tick(30.0)] + r1);
    Late(r1, c, lag);
    FourMeanwhile(r5, c, lag);
    Overtaken(r6, c, lag);
    WaitAndTry(5, 100.0, 130.0, r7, c, lag);
    WaitAndTry(6, 130.0, 130.0, r8, c, lag);
    WaitAndTry(7, 190.0, 190.0, r9, c, lag);
    WaitAndTry(8, 310.0, 310.0, r10, c, lag);
    WaitAndTry(9, 550.0, 550.0, last, c, lag);
    hide Play, AtMost, Prompt, Backoff, WindowRow, GoesOn;
    var b0 := Empty(100.0);
    Onward(b0, es, Bucket(None, 130.0, map[0 := Arrived(100.0)]), r1, Slow(4, 130.0, 130.0), r5, c, lag);
    Onward(b0, es, Slow(4, 130.0, 130.0), r5, Caught(5, 100.0, 130.0), r6, c, lag);
    Onward(b0, es, Caught(5, 100.0, 130.0), r6, Caught(6, 130.0, 130.0), r7, c, lag);
    Onward(b0, es, Caught(6, 130.0, 130.0), r7, Caught(7, 190.0, 190.0), r8, c, lag);
    Onward(b0, es, Caught(7, 190.0, 190.0), r8, Caught(8, 310.0, 310.0), r9, c, lag);
    Onward(b0, es, Caught(8, 310.0, 310.0), r9, Caught(9, 550.0, 550.0), r10, c, lag);
    Onward(b0, es, Caught(9, 550.0, 550.0), r10, Caught(10, 1030.0, 1030.0), last, c, lag);
    Arrived10(es, c, lag);
  }

  lemma Arrived10(es: seq<Event>, c: nat, lag: real)
    requires c > 1 && GoesOn(Empty(100.0), es, Caught(10, 1030.0, 1030.0), [], c, lag)
    ensures AtMost(Empty(100.0), es, c) && Prompt(Empty(100.0), es, lag)
    ensures Play(Empty(100.0), es).row == Some(WindowRow(130.0, 10, 1030.0))
  {
  }

  lemma Late(rest: seq<Event>, c: nat, lag: real)
    requires c > 1
    ensures GoesOn(Empty(100.0), [Arrive(0)] + ([Tick(30.0)] + rest), Bucket(None, 130.0, map[0 := Arrived(100.0)]),
                   rest, c, lag)
  {
    var b1 := Bucket(None, 100.0, map[0 := Arrived(100.0)]);
    OneStep(Empty(100.0), Arrive(0), [Tick(30.0)] + rest, c, lag);
    OneStep(b1, Tick(30.0), rest, c, lag);
    assert Step(Empty(100.0), Arrive(0)) == b1;
    assert Step(b1, Tick(30.0)) == Bucket(None, 130.0, map[0 := Arrived(100.0)]);
    hide GoesOn;
    Onward(Empty(100.0), [Arrive(0)] + ([Tick(30.0)] + rest), b1, [Tick(30.0)] + rest,
           Bucket(None, 130.0, map[0 := Arrived(100.0)]), rest, c, lag);
  }

  lemma Overtaken(rest: seq<Event>, c: nat, lag: real)
    requires c > 1 && lag >= 30.0
    ensures GoesOn(Slow(4, 130.0, 130.0), [ReadRow(0)] + ([Finish(0, false)] + rest), Caught(5, 100.0, 130.0), rest, c,
                   lag)
  {
    var b := Slow(4, 130.0, 130.0);
    var b1 := b.(flying := map[0 := Checking(100.0, b.row)]);
    assert Step(b, ReadRow(0)) == b1;
    assert Step(b1, Finish(0, false)) == Caught(5, 100.0, 130.0);
    OneStep(b, ReadRow(0), [Finish(0, false)] + rest, c, lag);
    OneStep(b1, Finish(0, false), rest, c, lag);
    hide GoesOn;
    Onward(b, [ReadRow(0)] + ([Finish(0, false)] + rest), b1, [Finish(0, false)] + rest, Caught(5, 100.0, 130.0), rest,
           c, lag);
  }

  /** A run from an empty bucket with at most c logins under way, each reading the row within lag of the clock. */
  predicate Run(clock: real, es: seq<Event>, c: nat, lag: real) {
    0.0 < clock && AtMost(Empty(clock), es, c) && Prompt(Empty(clock), es, lag)
  }

  /**
    No run counts a tenth failure, and so uses no exponent above four, exactly
    when logins never overlap or every login reads the row less than thirty
    seconds after the clock.
   */
  lemma AtMostNineExactly(c: nat, lag: real)
    requires c > 0 && lag >= 0.0
    ensures (forall clock, es :: Run(clock, es, c, lag) ==> AtMostNineFailures(Play(Empty(clock), es).row))
            <==> c == 1 || lag < 30.0
  {
    if c == 1 {
      forall clock, es | Run(clock, es, c, lag)
        ensures AtMostNineFailures(Play(Empty(clock), es).row)
      {
        EmptySerial(clock);
        SerialLog(Empty(clock), es, clock);
      }
    } else if lag < 30.0 {
      forall clock, es | Run(clock, es, c, lag)
        ensures AtMostNineFailures(Play(Empty(clock), es).row)
      {
        OverlappingRun(Empty(clock), es, lag);
      }
    } else {
      var es := TenFailures(c, lag);
      assert Run(100.0, es, c, lag);
    }
  }
}
