/**
  The upstream connection pool as a state machine: any number of goroutines acquire and release
  connections in interleaved atomic steps, while a watcher closes idle connections. The theorems are
  about every reachable state of every interleaving.
 */
module ConnectionPools {
  import opened Results
  import opened Sequences

  type Conn = nat

  /** Where a goroutine is in AcquireConn, in its use of a connection, or in ReleaseConn. */
  datatype Phase =
    | Outside
    | SawNoIdle
    | Connecting
    | Connected(conn: Conn)
    | Waiting
    | Holding(conn: Conn)
    | Returning(conn: Conn)

  /** A pass over the idle list, which holds its mutex: what is still to be looked at, and what is kept. */
  datatype Sweep = Sweep(todo: seq<Conn>, kept: seq<Conn>)

  datatype State = State(
    max: int, nbConns: int, idle: seq<Conn>, sweep: Option<Sweep>,
    threads: map<nat, Phase>, closed: set<Conn>, created: set<Conn>)

  /** The atomic steps. `TakeIdle` and `SeeNoIdle` are the two outcomes of the first critical section. */
  datatype Event =
    | TakeIdle(t: nat)
    | SeeNoIdle(t: nat)
    | LoadCount(t: nat)
    | ConnectFails(t: nat)
    | ConnectSucceeds(t: nat, conn: Conn)
    | CountConnection(t: nat)
    | StopWaiting(t: nat)
    | CloseHeld(t: nat)
    | Hijack(t: nat)
    | ReleaseClosed(t: nat)
    | HandOver(t: nat, waiter: nat)
    | FindNoWaiter(t: nat)
    | AppendIdle(t: nat)
    | StartSweep
    | SweepOne(expired: bool)
    | EndSweep

  predicate At(s: State, t: nat, p: Phase)
  {
    t in s.threads && s.threads[t] == p
  }

  predicate Holds(s: State, t: nat)
  {
    t in s.threads && s.threads[t].Holding?
  }

  predicate Enabled(s: State, e: Event)
  {
    match e
    case TakeIdle(t) => At(s, t, Outside) && s.sweep.None? && s.idle != []
    case SeeNoIdle(t) => At(s, t, Outside) && s.sweep.None? && s.idle == []
    case LoadCount(t) => At(s, t, SawNoIdle)
    case ConnectFails(t) => At(s, t, Connecting)
    case ConnectSucceeds(t, conn) => At(s, t, Connecting) && conn !in s.created
    case CountConnection(t) => t in s.threads && s.threads[t].Connected?
    case StopWaiting(t) => At(s, t, Waiting)
    case CloseHeld(t) => Holds(s, t)
    case Hijack(t) => Holds(s, t)
    case ReleaseClosed(t) => Holds(s, t) && s.threads[t].conn in s.closed
    case HandOver(t, waiter) => Holds(s, t) && s.threads[t].conn !in s.closed && At(s, waiter, Waiting)
    case FindNoWaiter(t) => Holds(s, t) && s.threads[t].conn !in s.closed
    case AppendIdle(t) => t in s.threads && s.threads[t].Returning? && s.sweep.None?
    case StartSweep => s.sweep.None?
    case SweepOne(_) => s.sweep.Some? && s.sweep.value.todo != []
    case EndSweep => s.sweep.Some? && s.sweep.value.todo == []
  }

  function Move(s: State, t: nat, p: Phase): (r: State)
  {
    s.(threads := s.threads[t := p])
  }

  function Next(s: State, e: Event): (r: State)
    requires Enabled(s, e)
  {
    match e
    case TakeIdle(t) => Move(s, t, Holding(s.idle[0])).(idle := s.idle[1..])
    case SeeNoIdle(t) => Move(s, t, SawNoIdle)
    case LoadCount(t) => Move(s, t, if s.nbConns < s.max then Connecting else Waiting)
    case ConnectFails(t) => Move(s, t, Outside)
    case ConnectSucceeds(t, conn) => Move(s, t, Connected(conn)).(created := s.created + {conn})
    case CountConnection(t) => Move(s, t, Holding(s.threads[t].conn)).(nbConns := s.nbConns + 1)
    case StopWaiting(t) => Move(s, t, Outside)
    case CloseHeld(t) => s.(closed := s.closed + {s.threads[t].conn})
    case Hijack(t) => Move(s, t, Outside).(nbConns := s.nbConns - 1)
    case ReleaseClosed(t) => Move(s, t, Outside).(nbConns := s.nbConns - 1)
    case HandOver(t, waiter) => Move(Move(s, t, Outside), waiter, Holding(s.threads[t].conn))
    case FindNoWaiter(t) => Move(s, t, Returning(s.threads[t].conn))
    case AppendIdle(t) => Move(s, t, Outside).(idle := s.idle + [s.threads[t].conn])
    case StartSweep => s.(sweep := Some(Sweep(s.idle, [])))
    case SweepOne(expired) =>
      var sweep := s.sweep.value;
      var conn := sweep.todo[0];
      if expired then
        s.(sweep := Some(Sweep(sweep.todo[1..], sweep.kept)),
           closed := s.closed + {conn}, nbConns := s.nbConns - 1)
      else s.(sweep := Some(Sweep(sweep.todo[1..], sweep.kept + [conn])))
    case EndSweep => s.(idle := s.sweep.value.kept, sweep := None)
  }

  function Initial(max: int, threads: set<nat>): (s: State)
  {
    State(max, 0, [], None, map t | t in threads :: Outside, {}, {})
  }

  /** The connections that are idle: during a sweep, those kept and those not looked at yet. */
  function IdleConns(s: State): (cs: seq<Conn>)
  {
    if s.sweep.Some? then s.sweep.value.kept + s.sweep.value.todo else s.idle
  }

  /** The goroutines that use or give back a connection that has been counted. */
  function Holders(s: State): (ts: set<nat>)
  {
    set t | t in s.threads && (s.threads[t].Holding? || s.threads[t].Returning?)
  }

  /** The goroutines between loading the count and incrementing it. */
  function InFlight(s: State): (ts: set<nat>)
  {
    set t | t in s.threads && (s.threads[t].Connecting? || s.threads[t].Connected?)
  }

  predicate Owns(p: Phase)
  {
    p.Connected? || p.Holding? || p.Returning?
  }

  ghost predicate Distinct(cs: seq<Conn>)
  {
    forall i, j :: 0 <= i < j < |cs| ==> cs[i] != cs[j]
  }

  /** No connection is in two places: in the idle list twice, with two goroutines, or both. */
  ghost predicate OnePlace(s: State)
  {
    && Distinct(IdleConns(s))
    && (forall t, u :: t in s.threads && u in s.threads && t != u && Owns(s.threads[t]) && Owns(s.threads[u]) ==>
                         s.threads[t].conn != s.threads[u].conn)
    && (forall t :: t in s.threads && Owns(s.threads[t]) ==> s.threads[t].conn !in IdleConns(s))
  }

  /** Only connections that were created are anywhere. */
  ghost predicate Created(s: State)
  {
    && (forall c <- IdleConns(s) :: c in s.created)
    && (forall t :: t in s.threads && Owns(s.threads[t]) ==> s.threads[t].conn in s.created)
    && s.closed <= s.created
  }

  /** Idle connections, and those on their way back to the idle list, are open. */
  ghost predicate OpenWhenIdle(s: State)
  {
    && (forall c <- IdleConns(s) :: c !in s.closed)
    && (forall t :: t in s.threads && (s.threads[t].Returning? || s.threads[t].Connected?) ==>
                      s.threads[t].conn !in s.closed)
  }

  /** The count is the number of connections: idle ones, and those that goroutines hold. */
  predicate Conserved(s: State)
  {
    s.nbConns == |IdleConns(s)| + |Holders(s)|
  }

  ghost predicate Consistent(s: State)
  {
    OnePlace(s) && Created(s) && OpenWhenIdle(s) && Conserved(s)
  }

  /** A step of one goroutine changes the holders by that goroutine at most. */
  lemma MoveHolders(s: State, t: nat, p: Phase)
    requires t in s.threads
    ensures Holders(Move(s, t, p)) == if p.Holding? || p.Returning? then Holders(s) + {t} else Holders(s) - {t}
    ensures InFlight(Move(s, t, p)) == if p.Connecting? || p.Connected? then InFlight(s) + {t} else InFlight(s) - {t}
  {
  }

  lemma HoldersDependOnThreads(s: State, r: State)
    requires s.threads == r.threads
    ensures Holders(s) == Holders(r) && InFlight(s) == InFlight(r)
  {
  }

  function One(b: bool): (n: nat)
  {
    if b then 1 else 0
  }

  /** In numbers: the goroutine counts as what it is now instead of what it was. */
  lemma MoveSizes(s: State, t: nat, p: Phase)
    requires t in s.threads
    ensures var was, r := s.threads[t], Move(s, t, p);
            && |Holders(r)| == |Holders(s)| - One(was.Holding? || was.Returning?) + One(p.Holding? || p.Returning?)
            && |InFlight(r)| == |InFlight(s)| - One(was.Connecting? || was.Connected?) + One(p.Connecting? || p.Connected?)
  {
    MoveHolders(s, t, p);
    AddOrRemove(Holders(s), t);
    AddOrRemove(InFlight(s), t);
  }

  lemma AddOrRemove(ts: set<nat>, t: nat)
    ensures |ts + {t}| == |ts| + One(t !in ts) && |ts - {t}| == |ts| - One(t in ts)
  {
    if t in ts {
      assert ts + {t} == ts;
    } else {
      assert ts - {t} == ts;
    }
  }

  /** What every step does to the two numbers. */
  lemma SizesAfter(s: State, e: Event)
    requires Enabled(s, e)
    ensures var r := Next(s, e);
            && |Holders(r)| == |Holders(s)| + One(e.TakeIdle? || e.CountConnection?)
                               - One(e.Hijack? || e.ReleaseClosed? || e.AppendIdle?)
            && |InFlight(r)| == |InFlight(s)| + One(e.LoadCount? && s.nbConns < s.max)
                                - One(e.ConnectFails? || e.CountConnection?)
  {
    var r := Next(s, e);
    if e.HandOver? {
      HandOverSizes(s, e.t, e.waiter);
    } else if e.CloseHeld? || e.StartSweep? || e.SweepOne? || e.EndSweep? {
      HoldersDependOnThreads(s, r);
    } else {
      MoveSizes(s, e.t, r.threads[e.t]);
      HoldersDependOnThreads(r, Move(s, e.t, r.threads[e.t]));
    }
  }

  lemma HandOverSizes(s: State, t: nat, waiter: nat)
    requires Enabled(s, HandOver(t, waiter))
    ensures var r := Next(s, HandOver(t, waiter));
            |Holders(r)| == |Holders(s)| && |InFlight(r)| == |InFlight(s)|
  {
    MoveSizes(s, t, Outside);
    MoveSizes(Move(s, t, Outside), waiter, Holding(s.threads[t].conn));
  }

  lemma StepConserves(s: State, e: Event)
    requires Enabled(s, e) && Conserved(s)
    ensures Conserved(Next(s, e))
  {
    SizesAfter(s, e);
  }

  /** Where no goroutine comes by a connection, and the idle list stays, places stay single. */
  lemma FewerOwners(s: State, r: State)
    requires OnePlace(s) && IdleConns(r) == IdleConns(s)
    requires forall t :: t in r.threads && Owns(r.threads[t]) ==>
               t in s.threads && Owns(s.threads[t]) && r.threads[t].conn == s.threads[t].conn
    ensures OnePlace(r)
  {
  }

  lemma TakeIdlePlaces(s: State, t: nat)
    requires Enabled(s, TakeIdle(t)) && OnePlace(s)
    ensures OnePlace(Next(s, TakeIdle(t)))
  {
    assert s.idle[0] in IdleConns(s) && forall c <- s.idle[1..] :: c in s.idle;
  }

  lemma ConnectPlaces(s: State, t: nat, conn: Conn)
    requires Enabled(s, ConnectSucceeds(t, conn)) && OnePlace(s) && Created(s)
    ensures OnePlace(Next(s, ConnectSucceeds(t, conn)))
  {
    assert conn !in IdleConns(s);
  }

  lemma HandOverPlaces(s: State, t: nat, waiter: nat)
    requires Enabled(s, HandOver(t, waiter)) && OnePlace(s)
    ensures OnePlace(Next(s, HandOver(t, waiter)))
  {
    assert IdleConns(Next(s, HandOver(t, waiter))) == IdleConns(s);
  }

  lemma AppendPlaces(s: State, t: nat)
    requires Enabled(s, AppendIdle(t)) && OnePlace(s)
    ensures OnePlace(Next(s, AppendIdle(t)))
  {
    assert s.threads[t].conn !in IdleConns(s);
  }

  lemma StepKeepsPlaces(s: State, e: Event)
    requires Enabled(s, e) && OnePlace(s) && Created(s)
    ensures OnePlace(Next(s, e))
  {
    match e
    case TakeIdle(t) => TakeIdlePlaces(s, t);
    case ConnectSucceeds(t, conn) => ConnectPlaces(s, t, conn);
    case HandOver(t, waiter) => HandOverPlaces(s, t, waiter);
    case AppendIdle(t) => AppendPlaces(s, t);
    case StartSweep => SweepKeepsPlaces(s, e);
    case SweepOne(_) => SweepKeepsPlaces(s, e);
    case EndSweep => SweepKeepsPlaces(s, e);
    case _ => FewerOwners(s, Next(s, e));
  }

  lemma SweepKeepsPlaces(s: State, e: Event)
    requires Enabled(s, e) && OnePlace(s) && (e.SweepOne? || e.EndSweep? || e.StartSweep?)
    ensures OnePlace(Next(s, e))
  {
    var before, after := IdleConns(s), IdleConns(Next(s, e));
    if e.SweepOne? && e.expired {
      var n := |s.sweep.value.kept|;
      assert after == before[..n] + before[n + 1..];
      WithoutOne(before, n);
    } else {
      assert after == before;
    }
  }

  lemma WithoutOne(cs: seq<Conn>, n: nat)
    requires Distinct(cs) && n < |cs|
    ensures var rest := cs[..n] + cs[n + 1..]; Distinct(rest) && forall c <- rest :: c in cs
  {
  }

  lemma StepKeepsCreated(s: State, e: Event)
    requires Enabled(s, e) && Created(s)
    ensures Created(Next(s, e))
  {
    if e.SweepOne? {
      assert s.sweep.value.todo[0] in IdleConns(s);
    }
  }

  lemma SweepKeepsOpen(s: State, expired: bool)
    requires Enabled(s, SweepOne(expired)) && OnePlace(s) && Created(s) && OpenWhenIdle(s)
    ensures OpenWhenIdle(Next(s, SweepOne(expired)))
  {
    var sweep := s.sweep.value;
    assert IdleConns(s)[|sweep.kept|] == sweep.todo[0];
    assert forall i :: 0 <= i < |sweep.kept| ==> IdleConns(s)[i] == sweep.kept[i];
    assert forall i :: 0 < i < |sweep.todo| ==> IdleConns(s)[|sweep.kept| + i] == sweep.todo[i];
  }

  lemma CloseKeepsOpen(s: State, t: nat)
    requires Enabled(s, CloseHeld(t)) && OnePlace(s) && OpenWhenIdle(s)
    ensures OpenWhenIdle(Next(s, CloseHeld(t)))
  {
  }

  lemma StepKeepsOpen(s: State, e: Event)
    requires Enabled(s, e) && OnePlace(s) && Created(s) && OpenWhenIdle(s)
    ensures OpenWhenIdle(Next(s, e))
  {
    if e.SweepOne? {
      SweepKeepsOpen(s, e.expired);
    } else if e.CloseHeld? {
      CloseKeepsOpen(s, e.t);
    }
  }

  /** A connection is closed by the goroutine that holds it or by the watcher, and by nothing else, and stays closed. */
  lemma {:induction false} ClosedBy(s: State, e: Event, c: Conn)
    requires Enabled(s, e)
    ensures c in Next(s, e).closed
            <==> || c in s.closed
                 || (e.CloseHeld? && At(s, e.t, Holding(c)))
                 || (e == SweepOne(true) && s.sweep.value.todo[0] == c)
  {
  }

  /** One that its holder has closed is neither handed over nor kept: giving it back takes it out of the count. */
  lemma {:induction false} ClosedLeaves(s: State, t: nat, waiter: nat)
    requires Enabled(s, CloseHeld(t))
    ensures var closed := Next(s, CloseHeld(t));
            && !Enabled(closed, HandOver(t, waiter)) && !Enabled(closed, FindNoWaiter(t))
            && Enabled(closed, ReleaseClosed(t)) && Next(closed, ReleaseClosed(t)).nbConns == s.nbConns - 1
  {
  }

  /** Every step of every goroutine and of the watcher keeps the invariant. */
  lemma StepKeepsConsistent(s: State, e: Event)
    requires Enabled(s, e) && Consistent(s)
    ensures Consistent(Next(s, e))
  {
    StepConserves(s, e);
    StepKeepsPlaces(s, e);
    StepKeepsCreated(s, e);
    StepKeepsOpen(s, e);
  }

  ghost predicate IsRun(s: State, es: seq<Event>)
    decreases |es|
  {
    es == [] || (Enabled(s, es[0]) && IsRun(Next(s, es[0]), es[1..]))
  }

  function Final(s: State, es: seq<Event>): (r: State)
    requires IsRun(s, es)
    decreases |es|
  {
    if es == [] then s else Final(Next(s, es[0]), es[1..])
  }

  /**
    Conservation and ownership in every reachable state: the count is exactly the idle and the held
    connections, no connection is in two places, and only open ones are idle.
   */
  lemma {:induction false} RunKeepsConsistent(s: State, es: seq<Event>)
    requires Consistent(s) && IsRun(s, es)
    ensures Consistent(Final(s, es))
    decreases |es|
  {
    if es != [] {
      StepKeepsConsistent(s, es[0]);
      RunKeepsConsistent(Next(s, es[0]), es[1..]);
    }
  }

  lemma InitialConsistent(max: int, threads: set<nat>)
    ensures Consistent(Initial(max, threads))
  {
    assert Holders(Initial(max, threads)) == {};
  }

  /** At most k goroutines are between the load and the increment, in each state of a run. */
  ghost predicate AtMostInFlight(s: State, es: seq<Event>, k: nat)
    requires IsRun(s, es)
    decreases |es|
  {
    |InFlight(s)| <= k && (es == [] || AtMostInFlight(Next(s, es[0]), es[1..], k))
  }

  function Bound(max: int, k: nat): (n: int)
  {
    if max - 1 + k > 0 then max - 1 + k else 0
  }

  lemma StepKeepsBound(s: State, e: Event, k: nat)
    requires Enabled(s, e)
    requires s.nbConns + |InFlight(s)| <= Bound(s.max, k) && |InFlight(Next(s, e))| <= k
    ensures Next(s, e).max == s.max
    ensures Next(s, e).nbConns + |InFlight(Next(s, e))| <= Bound(s.max, k)
  {
    SizesAfter(s, e);
  }

  /**
    The overshoot: if at most k goroutines are ever between the load and the increment, the pool
    never counts more than max - 1 + k connections.
   */
  lemma {:induction false} Overshoot(s: State, es: seq<Event>, k: nat)
    requires IsRun(s, es) && AtMostInFlight(s, es, k)
    requires s.nbConns + |InFlight(s)| <= Bound(s.max, k)
    ensures Final(s, es).nbConns <= Bound(s.max, k)
    decreases |es|
  {
    if es != [] {
      StepKeepsBound(s, es[0], k);
      Overshoot(Next(s, es[0]), es[1..], k);
    }
  }

  lemma OvershootFromStart(max: int, threads: set<nat>, es: seq<Event>, k: nat)
    requires IsRun(Initial(max, threads), es) && AtMostInFlight(Initial(max, threads), es, k)
    ensures Final(Initial(max, threads), es).nbConns <= if max - 1 + k > 0 then max - 1 + k else 0
  {
    assert InFlight(Initial(max, threads)) == {};
    Overshoot(Initial(max, threads), es, k);
  }

  /** A run that reaches a state, with at most k goroutines in flight all along. */
  ghost predicate Reaches(s: State, es: seq<Event>, k: nat, r: State)
  {
    IsRun(s, es) && AtMostInFlight(s, es, k) && Final(s, es) == r
  }

  /** A reached state can be left by a further step. */
  lemma {:induction false} ReachNext(s: State, es: seq<Event>, k: nat, r: State, e: Event)
    requires Reaches(s, es, k, r) && Enabled(r, e) && |InFlight(Next(r, e))| <= k
    ensures Reaches(s, es + [e], k, Next(r, e))
    decreases |es|
  {
    if es == [] {
      assert (es + [e])[1..] == [];
    } else {
      assert (es + [e])[1..] == es[1..] + [e];
      ReachNext(Next(s, es[0]), es[1..], k, r, e);
    }
  }

  predicate Within(t: nat, from: nat, count: nat)
  {
    from <= t < from + count
  }

  function Range(from: nat, count: nat): (r: set<nat>)
  {
    set t: nat | from <= t < from + count && Within(t, from, count)
  }

  lemma {:induction false} RangeSize(from: nat, count: nat)
    ensures |Range(from, count)| == count
    decreases count
  {
    if count == 0 {
      assert Range(from, count) == {};
    } else {
      RangeSize(from, count - 1);
      assert Range(from, count) == Range(from, count - 1) + {from + count - 1};
    }
  }

  function StagedPhase(t: nat, holding: nat, connected: nat): (p: Phase)
  {
    if t < holding then Holding(t) else if t < holding + connected then Connected(t) else Outside
  }

  /** A state of the worst run: some goroutines hold, the next ones are connected, the rest are outside. */
  function Staged(max: int, n: nat, holding: nat, connected: nat): (s: State)
  {
    State(max, holding, [], None, map t | t in Range(0, n) :: StagedPhase(t, holding, connected),
          {}, Range(0, holding + connected))
  }

  lemma StagedInFlight(max: int, n: nat, holding: nat, connected: nat)
    requires holding + connected <= n
    ensures |InFlight(Staged(max, n, holding, connected))| == connected
  {
    assert InFlight(Staged(max, n, holding, connected)) == Range(holding, connected);
    RangeSize(holding, connected);
  }

  lemma StagedPhases(max: int, n: nat, holding: nat, connected: nat, t: nat)
    requires t < n
    ensures At(Staged(max, n, holding, connected), t, StagedPhase(t, holding, connected))
  {
    assert t in Range(0, n);
  }

  /** A goroutine on its way from outside to having connected, before the count reaches the maximum. */
  lemma ConnectSteps(max: int, n: nat, holding: nat, connected: nat)
    requires holding < max && holding + connected < n
    ensures var r, t := Staged(max, n, holding, connected), holding + connected;
            var r1, r2 := Move(r, t, SawNoIdle), Move(Move(r, t, SawNoIdle), t, Connecting);
            && Enabled(r, SeeNoIdle(t)) && Next(r, SeeNoIdle(t)) == r1 && |InFlight(r1)| == connected
            && Enabled(r1, LoadCount(t)) && Next(r1, LoadCount(t)) == r2 && |InFlight(r2)| == connected + 1
            && Enabled(r2, ConnectSucceeds(t, t))
  {
    var r, t := Staged(max, n, holding, connected), holding + connected;
    StagedPhases(max, n, holding, connected, t);
    StagedInFlight(max, n, holding, connected);
    StepsToConnect(r, t);
    assert t !in r.created;
  }

  /** The steps of one goroutine that sees no idle connection and finds the count below the maximum. */
  lemma StepsToConnect(r: State, t: nat)
    requires At(r, t, Outside) && r.sweep.None? && r.idle == [] && r.nbConns < r.max
    ensures var r1, r2 := Move(r, t, SawNoIdle), Move(Move(r, t, SawNoIdle), t, Connecting);
            && Enabled(r, SeeNoIdle(t)) && Next(r, SeeNoIdle(t)) == r1 && |InFlight(r1)| == |InFlight(r)|
            && Enabled(r1, LoadCount(t)) && Next(r1, LoadCount(t)) == r2 && |InFlight(r2)| == |InFlight(r)| + 1
            && At(r2, t, Connecting) && r2.created == r.created
  {
    MoveSizes(r, t, SawNoIdle);
    MoveSizes(Move(r, t, SawNoIdle), t, Connecting);
  }

  lemma ConnectLands(max: int, n: nat, holding: nat, connected: nat)
    requires holding + connected < n
    ensures var r, t := Staged(max, n, holding, connected), holding + connected;
            var r2 := Move(Move(r, t, SawNoIdle), t, Connecting);
            Enabled(r2, ConnectSucceeds(t, t))
            && Next(r2, ConnectSucceeds(t, t)) == Staged(max, n, holding, connected + 1)
  {
    var r, t := Staged(max, n, holding, connected), holding + connected;
    MoveThrice(r, t, SawNoIdle, Connecting, Connected(t));
    StagedNext(max, n, holding, connected);
  }

  lemma StagedNext(max: int, n: nat, holding: nat, connected: nat)
    requires holding + connected < n
    ensures var r, t := Staged(max, n, holding, connected), holding + connected;
            r.(threads := r.threads[t := Connected(t)], created := r.created + {t})
            == Staged(max, n, holding, connected + 1)
  {
    var r, t := Staged(max, n, holding, connected), holding + connected;
    var goal := Staged(max, n, holding, connected + 1);
    assert r.threads[t := Connected(t)] == goal.threads;
    assert r.created + {t} == goal.created;
  }

  lemma MoveThrice(s: State, t: nat, p: Phase, q: Phase, r: Phase)
    ensures Move(Move(Move(s, t, p), t, q), t, r) == Move(s, t, r)
  {
    assert s.threads[t := p][t := q][t := r] == s.threads[t := r];
  }

  lemma CountLands(max: int, n: nat, holding: nat, connected: nat)
    requires holding + connected <= n && connected > 0
    ensures var r := Staged(max, n, holding, connected);
            && Enabled(r, CountConnection(holding))
            && Next(r, CountConnection(holding)) == Staged(max, n, holding + 1, connected - 1)
  {
    var r := Staged(max, n, holding, connected);
    var r1, goal := Next(r, CountConnection(holding)), Staged(max, n, holding + 1, connected - 1);
    assert r1.threads == goal.threads;
    assert r1.created == goal.created;
  }

  /** One more goroutine gets from outside to having connected, while the count is below the maximum. */
  lemma ConnectOne(s: State, es: seq<Event>, k: nat, max: int, n: nat, holding: nat, connected: nat)
    returns (es': seq<Event>)
    requires Reaches(s, es, k, Staged(max, n, holding, connected))
    requires holding < max && holding + connected < n && connected < k
    ensures Reaches(s, es', k, Staged(max, n, holding, connected + 1))
  {
    var r, t := Staged(max, n, holding, connected), holding + connected;
    ConnectSteps(max, n, holding, connected);
    ConnectLands(max, n, holding, connected);
    StagedInFlight(max, n, holding, connected + 1);
    ReachNext(s, es, k, r, SeeNoIdle(t));
    var r1 := Move(r, t, SawNoIdle);
    ReachNext(s, es + [SeeNoIdle(t)], k, r1, LoadCount(t));
    var r2 := Move(r1, t, Connecting);
    ReachNext(s, es + [SeeNoIdle(t)] + [LoadCount(t)], k, r2, ConnectSucceeds(t, t));
    es' := es + [SeeNoIdle(t)] + [LoadCount(t)] + [ConnectSucceeds(t, t)];
  }

  /** The first connected goroutine counts its connection. */
  lemma CountOne(s: State, es: seq<Event>, k: nat, max: int, n: nat, holding: nat, connected: nat)
    returns (es': seq<Event>)
    requires Reaches(s, es, k, Staged(max, n, holding, connected))
    requires holding + connected <= n && 0 < connected <= k
    ensures Reaches(s, es', k, Staged(max, n, holding + 1, connected - 1))
  {
    CountLands(max, n, holding, connected);
    StagedInFlight(max, n, holding + 1, connected - 1);
    ReachNext(s, es, k, Staged(max, n, holding, connected), CountConnection(holding));
    es' := es + [CountConnection(holding)];
  }

  /** The bound is sharp: for every maximum and every k some run reaches it. */
  lemma OvershootIsReached(max: nat, k: nat) returns (threads: set<nat>, es: seq<Event>)
    requires max >= 1 && k >= 1
    ensures IsRun(Initial(max, threads), es) && AtMostInFlight(Initial(max, threads), es, k)
    ensures Final(Initial(max, threads), es).nbConns == max - 1 + k
  {
    var n := max - 1 + k;
    threads := Range(0, n);
    var s := Initial(max, threads);
    assert s.threads == Staged(max, n, 0, 0).threads;
    assert s == Staged(max, n, 0, 0);
    StagedInFlight(max, n, 0, 0);
    es := FillUp(s, [], k, max, n, 0);
    es := Crowd(s, es, k, max, n, 0);
    es := CountAll(s, es, k, max, n, k);
  }

  /** One after the other, goroutines bring the count up to one below the maximum. */
  lemma FillUp(s: State, start: seq<Event>, k: nat, max: nat, n: nat, holding: nat) returns (es: seq<Event>)
    requires holding < max && k >= 1 && n == max - 1 + k
    requires Reaches(s, start, k, Staged(max, n, holding, 0))
    ensures Reaches(s, es, k, Staged(max, n, max - 1, 0))
    decreases max - holding
  {
    es := start;
    if holding < max - 1 {
      es := ConnectOne(s, es, k, max, n, holding, 0);
      es := CountOne(s, es, k, max, n, holding, 1);
      es := FillUp(s, es, k, max, n, holding + 1);
    }
  }

  /** Then k goroutines load the same count and connect. */
  lemma Crowd(s: State, start: seq<Event>, k: nat, max: nat, n: nat, connected: nat) returns (es: seq<Event>)
    requires max >= 1 && connected <= k && n == max - 1 + k
    requires Reaches(s, start, k, Staged(max, n, max - 1, connected))
    ensures Reaches(s, es, k, Staged(max, n, max - 1, k))
    decreases k - connected
  {
    es := start;
    if connected < k {
      es := ConnectOne(s, es, k, max, n, max - 1, connected);
      es := Crowd(s, es, k, max, n, connected + 1);
    }
  }

  /** And all of them count their connections. */
  lemma CountAll(s: State, start: seq<Event>, k: nat, max: nat, n: nat, connected: nat) returns (es: seq<Event>)
    requires max >= 1 && connected <= k && n == max - 1 + k
    requires Reaches(s, start, k, Staged(max, n, n - connected, connected))
    ensures Reaches(s, es, k, Staged(max, n, n, 0))
    decreases connected
  {
    es := start;
    if connected > 0 {
      es := CountOne(s, es, k, max, n, n - connected, connected);
      es := CountAll(s, es, k, max, n, connected - 1);
    }
  }

  /**
    The client object: its fields, and the state machine beside them. Every method is one atomic step
    of a goroutine, except the sweep, which takes the watcher through a whole pass.
   */
  class Client {
    const maxConnections: int
    var nbConns: int
    var idleConns: seq<Conn>
    var closedConns: set<Conn>
    ghost var world: State

    ghost predicate Valid()
      reads this
    {
      && world.max == maxConnections && world.nbConns == nbConns
      && world.idle == idleConns && world.closed == closedConns && world.sweep.None?
      && Consistent(world)
    }

    constructor (maxConnections: int, ghost threads: set<nat>)
      ensures Valid() && world == Initial(if maxConnections == 0 then 10 else maxConnections, threads)
    {
      var max := if maxConnections == 0 then 10 else maxConnections;
      this.maxConnections, nbConns, idleConns, closedConns := max, 0, [], {};
      world := Initial(max, threads);
      InitialConsistent(max, threads);
    }

    /** The first critical section of AcquireConn. */
    method TakeIdleConn(ghost t: nat) returns (conn: Option<Conn>)
      requires Valid() && At(world, t, Outside)
      modifies this
      ensures Valid()
      ensures conn == if old(idleConns) == [] then None else Some(old(idleConns)[0])
      ensures var e := if old(idleConns) == [] then SeeNoIdle(t) else TakeIdle(t);
              Enabled(old(world), e) && world == Next(old(world), e)
    {
      ghost var e := if idleConns == [] then SeeNoIdle(t) else TakeIdle(t);
      StepKeepsConsistent(world, e);
      world := Next(world, e);
      if |idleConns| > 0 {
        conn := Some(idleConns[0]);
        idleConns := idleConns[1..];
      } else {
        conn := None;
      }
    }

    /** The load of the count, which decides between connecting and waiting. */
    method MayConnect(ghost t: nat) returns (ok: bool)
      requires Valid() && At(world, t, SawNoIdle)
      modifies this`world
      ensures Valid() && world == Next(old(world), LoadCount(t))
      ensures ok <==> nbConns < maxConnections
      ensures ok <==> At(world, t, Connecting)
    {
      StepKeepsConsistent(world, LoadCount(t));
      world := Next(world, LoadCount(t));
      ok := nbConns < maxConnections;
    }

    /** The increment after a connection has been made. */
    method CountNewConn(ghost t: nat)
      requires Valid() && t in world.threads && world.threads[t].Connected?
      modifies this`world, this`nbConns
      ensures Valid() && world == Next(old(world), CountConnection(t)) && nbConns == old(nbConns) + 1
    {
      StepKeepsConsistent(world, CountConnection(t));
      world := Next(world, CountConnection(t));
      nbConns := nbConns + 1;
    }

    method HijackConn(ghost t: nat)
      requires Valid() && Holds(world, t)
      modifies this`world, this`nbConns
      ensures Valid() && world == Next(old(world), Event.Hijack(t)) && nbConns == old(nbConns) - 1
    {
      StepKeepsConsistent(world, Event.Hijack(t));
      world := Next(world, Event.Hijack(t));
      nbConns := nbConns - 1;
    }

    /**
      A closed connection goes. An open one is handed over to the goroutine that the select finds
      waiting for one, and becomes idle if it finds none.
     */
    method ReleaseConn(conn: Conn, waiter: Option<nat>, ghost t: nat)
      requires Valid() && At(world, t, Holding(conn))
      requires waiter.Some? ==> At(world, waiter.value, Waiting)
      modifies this
      ensures Valid() && closedConns == old(closedConns)
      ensures if conn in closedConns
              then nbConns == old(nbConns) - 1 && idleConns == old(idleConns)
                   && world == Next(old(world), ReleaseClosed(t))
              else if waiter.Some?
              then nbConns == old(nbConns) && idleConns == old(idleConns)
                   && At(world, t, Outside) && At(world, waiter.value, Holding(conn))
                   && world == Next(old(world), HandOver(t, waiter.value))
              else nbConns == old(nbConns) && idleConns == old(idleConns) + [conn]
                   && world == Next(Next(old(world), FindNoWaiter(t)), AppendIdle(t))
    {
      if conn in closedConns {
        StepKeepsConsistent(world, ReleaseClosed(t));
        world := Next(world, ReleaseClosed(t));
        nbConns := nbConns - 1;
        return;
      }
      if waiter.Some? {
        StepKeepsConsistent(world, HandOver(t, waiter.value));
        world := Next(world, HandOver(t, waiter.value));
        return;
      }
      StepKeepsConsistent(world, FindNoWaiter(t));
      world := Next(world, FindNoWaiter(t));
      StepKeepsConsistent(world, AppendIdle(t));
      world := Next(world, AppendIdle(t));
      idleConns := idleConns + [conn];
    }

    /** The loop of a pass: it closes expired connections, and returns the others and when to come back. */
    method SweepIdle(lastActivity: map<Conn, int>, timeout: int, now: int) returns (kept: seq<Conn>, next: int)
      requires forall c <- idleConns :: c in lastActivity
      modifies this`nbConns, this`closedConns
      ensures kept == Kept(idleConns, lastActivity, timeout, now)
      ensures nbConns == old(nbConns) - (|idleConns| - |kept|)
      ensures closedConns == old(closedConns) + Expired(idleConns, lastActivity, timeout, now)
      ensures next <= now + timeout && forall c <- kept :: next <= lastActivity[c] + timeout
    {
      kept, next := [], now + timeout;
      var i := 0;
      while i < |idleConns|
        invariant 0 <= i <= |idleConns|
        invariant kept == Kept(idleConns[..i], lastActivity, timeout, now)
        invariant nbConns == old(nbConns) - (i - |kept|)
        invariant closedConns == old(closedConns) + Expired(idleConns[..i], lastActivity, timeout, now)
        invariant next <= now + timeout && forall c <- kept :: next <= lastActivity[c] + timeout
      {
        var conn := idleConns[i];
        var connTimeout := lastActivity[conn] + timeout;
        PassNext(idleConns, i, lastActivity, timeout, now);
        if connTimeout < now {
          closedConns := closedConns + {conn};
          nbConns := nbConns - 1;
        } else {
          kept := kept + [conn];
          if connTimeout < next {
            next := connTimeout;
          }
        }
        i := i + 1;
      }
      assert idleConns[..i] == idleConns;
    }

    /** One pass of the watcher, when nothing happens beside it. */
    method CloseIdleConnections(lastActivity: map<Conn, int>, timeout: int, now: int) returns (next: int)
      requires Valid() && forall c <- idleConns :: c in lastActivity
      modifies this
      ensures Valid() && world == AfterPass(old(world), lastActivity, timeout, now)
      ensures next <= now + timeout && forall c <- idleConns :: next <= lastActivity[c] + timeout
    {
      PassKeepsConsistent(world, lastActivity, timeout, now);
      var kept;
      kept, next := SweepIdle(lastActivity, timeout, now);
      idleConns := kept;
      world := AfterPass(world, lastActivity, timeout, now);
    }
  }

  /** One more connection of a pass is kept, or it expires. */
  lemma PassNext(cs: seq<Conn>, i: nat, lastActivity: map<Conn, int>, timeout: int, now: int)
    requires i < |cs| && forall c <- cs :: c in lastActivity
    ensures var expired, kept := lastActivity[cs[i]] + timeout < now, Kept(cs[..i], lastActivity, timeout, now);
            && Kept(cs[..i + 1], lastActivity, timeout, now) == (if expired then kept else kept + [cs[i]])
            && Expired(cs[..i + 1], lastActivity, timeout, now)
               == if expired then Expired(cs[..i], lastActivity, timeout, now) + {cs[i]}
                  else Expired(cs[..i], lastActivity, timeout, now)
  {
    assert cs[..i + 1] == cs[..i] + [cs[i]];
    KeptSnoc(cs[..i], cs[i], lastActivity, timeout, now);
    ExpiredSnoc(cs[..i], cs[i], lastActivity, timeout, now);
  }

  /** The pool after a whole pass over its idle connections. */
  function AfterPass(s: State, lastActivity: map<Conn, int>, timeout: int, now: int): (r: State)
    requires forall c <- s.idle :: c in lastActivity
  {
    var kept := Kept(s.idle, lastActivity, timeout, now);
    s.(idle := kept, nbConns := s.nbConns - (|s.idle| - |kept|),
       closed := s.closed + Expired(s.idle, lastActivity, timeout, now))
  }

  /** A whole pass is a run of the watcher's steps, so it keeps the invariant. */
  lemma PassKeepsConsistent(s: State, lastActivity: map<Conn, int>, timeout: int, now: int)
    requires Consistent(s) && s.sweep.None? && forall c <- s.idle :: c in lastActivity
    ensures exists es :: IsRun(s, es) && Final(s, es) == AfterPass(s, lastActivity, timeout, now)
    ensures Consistent(AfterPass(s, lastActivity, timeout, now))
  {
    var es := PassRun(s, lastActivity, timeout, now);
    RunKeepsConsistent(s, es);
  }

  lemma PassRun(s: State, lastActivity: map<Conn, int>, timeout: int, now: int) returns (es: seq<Event>)
    requires s.sweep.None? && forall c <- s.idle :: c in lastActivity
    ensures IsRun(s, es) && Final(s, es) == AfterPass(s, lastActivity, timeout, now)
  {
    var begun := Next(s, StartSweep);
    var rest := SweepRest(begun, s.idle, [], lastActivity, timeout, now);
    es := [StartSweep] + rest;
    RunFirst(s, StartSweep, rest);
    assert [] + Kept(s.idle, lastActivity, timeout, now) == Kept(s.idle, lastActivity, timeout, now);
  }

  /** A step in front of a run. */
  lemma {:induction false} RunFirst(s: State, e: Event, es: seq<Event>)
    requires Enabled(s, e) && IsRun(Next(s, e), es)
    ensures IsRun(s, [e] + es) && Final(s, [e] + es) == Final(Next(s, e), es)
  {
    assert ([e] + es)[1..] == es;
  }

  /** What is left of a pass, when some connections have been kept and the others are still to be looked at. */
  function SweptFrom(
    s: State, todo: seq<Conn>, kept: seq<Conn>, lastActivity: map<Conn, int>, timeout: int, now: int): (r: State)
    requires forall c <- todo :: c in lastActivity
  {
    var keptHere := Kept(todo, lastActivity, timeout, now);
    s.(sweep := None, idle := kept + keptHere, nbConns := s.nbConns - (|todo| - |keptHere|),
       closed := s.closed + Expired(todo, lastActivity, timeout, now))
  }

  lemma {:induction false} ExpiredFirst(todo: seq<Conn>, lastActivity: map<Conn, int>, timeout: int, now: int)
    requires todo != [] && forall c <- todo :: c in lastActivity
    ensures Expired(todo, lastActivity, timeout, now)
         == (if lastActivity[todo[0]] + timeout < now then {todo[0]} else {})
            + Expired(todo[1..], lastActivity, timeout, now)
  {
    assert todo == [todo[0]] + todo[1..];
  }

  lemma {:induction false} SweptFirst(
    s: State, todo: seq<Conn>, kept: seq<Conn>, lastActivity: map<Conn, int>, timeout: int, now: int)
    requires s.sweep == Some(Sweep(todo, kept)) && todo != [] && forall c <- todo :: c in lastActivity
    ensures var expired := lastActivity[todo[0]] + timeout < now;
            SweptFrom(Next(s, SweepOne(expired)), todo[1..], kept + if expired then [] else [todo[0]],
                      lastActivity, timeout, now)
            == SweptFrom(s, todo, kept, lastActivity, timeout, now)
  {
    var expired := lastActivity[todo[0]] + timeout < now;
    var own := if expired then [] else [todo[0]];
    var rest := todo[1..];
    Associative(kept, own, Kept(rest, lastActivity, timeout, now));
    ExpiredFirst(todo, lastActivity, timeout, now);
    var here := if expired then {todo[0]} else {};
    assert s.closed + (here + Expired(rest, lastActivity, timeout, now))
        == s.closed + here + Expired(rest, lastActivity, timeout, now);
  }

  lemma {:induction false} SweepRest(
    s: State, todo: seq<Conn>, kept: seq<Conn>, lastActivity: map<Conn, int>, timeout: int, now: int)
    returns (es: seq<Event>)
    requires s.sweep == Some(Sweep(todo, kept)) && forall c <- todo :: c in lastActivity
    ensures IsRun(s, es) && Final(s, es) == SweptFrom(s, todo, kept, lastActivity, timeout, now)
    decreases |todo|
  {
    if todo == [] {
      es := [EndSweep] + [];
      RunFirst(s, EndSweep, []);
      assert kept + [] == kept;
      assert s.closed + Expired(todo, lastActivity, timeout, now) == s.closed;
    } else {
      var expired := lastActivity[todo[0]] + timeout < now;
      var own := if expired then [] else [todo[0]];
      var r := Next(s, SweepOne(expired));
      assert kept + [] == kept;
      var rest := SweepRest(r, todo[1..], kept + own, lastActivity, timeout, now);
      es := [SweepOne(expired)] + rest;
      RunFirst(s, SweepOne(expired), rest);
      SweptFirst(s, todo, kept, lastActivity, timeout, now);
    }
  }

  /** The connections that a pass closes. */
  function Expired(cs: seq<Conn>, lastActivity: map<Conn, int>, timeout: int, now: int): (r: set<Conn>)
    requires forall c <- cs :: c in lastActivity
  {
    set c | c in cs && lastActivity[c] + timeout < now
  }

  /** The connections that a pass keeps, in order. */
  function Kept(cs: seq<Conn>, lastActivity: map<Conn, int>, timeout: int, now: int): (r: seq<Conn>)
    requires forall c <- cs :: c in lastActivity
    ensures forall c <- r :: c in cs
  {
    if cs == [] then []
    else (if lastActivity[cs[0]] + timeout < now then [] else [cs[0]]) + Kept(cs[1..], lastActivity, timeout, now)
  }

  lemma {:induction false} KeptSnoc(cs: seq<Conn>, c: Conn, lastActivity: map<Conn, int>, timeout: int, now: int)
    requires (forall d <- cs :: d in lastActivity) && c in lastActivity
    ensures Kept(cs + [c], lastActivity, timeout, now)
         == Kept(cs, lastActivity, timeout, now) + if lastActivity[c] + timeout < now then [] else [c]
    decreases |cs|
  {
    var last := if lastActivity[c] + timeout < now then [] else [c];
    if cs == [] {
      assert cs + [c] == [c] && [c][1..] == [];
      assert last + [] == last && [] + last == last;
    } else {
      assert (cs + [c])[1..] == cs[1..] + [c];
      KeptSnoc(cs[1..], c, lastActivity, timeout, now);
      var own := if lastActivity[cs[0]] + timeout < now then [] else [cs[0]];
      Associative(own, Kept(cs[1..], lastActivity, timeout, now), last);
    }
  }

  lemma ExpiredSnoc(cs: seq<Conn>, c: Conn, lastActivity: map<Conn, int>, timeout: int, now: int)
    requires (forall d <- cs :: d in lastActivity) && c in lastActivity
    ensures Expired(cs + [c], lastActivity, timeout, now)
         == Expired(cs, lastActivity, timeout, now) + if lastActivity[c] + timeout < now then {c} else {}
  {
  }

  /** A pass keeps a connection, as often as it was there, if its timeout is not over, and drops it otherwise. */
  lemma {:induction false} KeptIs(cs: seq<Conn>, lastActivity: map<Conn, int>, timeout: int, now: int, c: Conn)
    requires forall d <- cs :: d in lastActivity
    ensures var kept := Kept(cs, lastActivity, timeout, now);
            multiset(kept)[c] == if c in cs && lastActivity[c] + timeout >= now then multiset(cs)[c] else 0
    ensures c in Expired(cs, lastActivity, timeout, now) <==> c in cs && lastActivity[c] + timeout < now
    decreases |cs|
  {
    if cs != [] {
      KeptIs(cs[1..], lastActivity, timeout, now, c);
      assert cs == [cs[0]] + cs[1..];
      assert multiset(cs) == multiset{cs[0]} + multiset(cs[1..]);
    }
  }
}
