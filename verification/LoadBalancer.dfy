/**
  The round-robin load balancer over servers whose health changes. `Pick` is one call's choice; the
  theorems are about the picks of whole runs, with any health at each call.
 */
module LoadBalancers {
  import opened Results
  import opened HealthProbes

  /** The place after one, in a ring of n. */
  function Succ(i: nat, n: nat): (r: nat)
    requires i < n
    ensures r < n
  {
    (i + 1) % n
  }

  /** How far ahead of a place another one is. */
  function Dist(from: nat, to: nat, n: nat): (d: nat)
    requires from < n && to < n
    ensures d < n
  {
    if from <= to then to - from else to + n - from
  }

  /** The healthy server that a scan from `from` meets first, looking at `left` servers at most. */
  function Scan(health: seq<bool>, from: nat, left: nat): (p: Option<nat>)
    requires from < |health|
    ensures p.Some? ==> p.value < |health| && health[p.value]
    decreases left
  {
    if left == 0 then None
    else if health[from] then Some(from)
    else Scan(health, Succ(from, |health|), left - 1)
  }

  function Pick(health: seq<bool>, next: nat): (p: Option<nat>)
    requires next < |health|
  {
    Scan(health, next, |health|)
  }

  /** Where the following call starts; nothing moves when no server is healthy. */
  function NextIndex(health: seq<bool>, next: nat): (r: nat)
    requires next < |health|
    ensures r < |health|
  {
    match Pick(health, next)
    case None => next
    case Some(p) => Succ(p, |health|)
  }

  class Server {
    const address: string
    const probe: HealthProbe
    var healthy: bool

    /** The flag is the probe's verdict. */
    ghost predicate Coherent()
      reads this, probe
    {
      healthy == Healthy(probe.View())
    }

    constructor (address: string, cfg: ProbeCfg)
      ensures this.address == address && fresh(probe) && probe.cfg == cfg && probe.View() == INITIAL
      ensures healthy && Coherent()
    {
      this.address, healthy := address, true;
      probe := new HealthProbe(cfg);
    }

    /** One tick of the server's health watcher. */
    method Tick(tests: seq<bool>)
      modifies this, probe
      ensures probe.View() == Next(probe.cfg, old(probe.View()), AllPass(tests))
      ensures Coherent()
    {
      var wasHealthy := healthy;
      var isHealthy := probe.Execute(tests);
      if wasHealthy && !isHealthy {
        healthy := false;
      } else if !wasHealthy && isHealthy {
        healthy := true;
      }
    }
  }

  class LoadBalancer {
    var servers: seq<Server>
    var nextServerIndex: nat

    ghost predicate Valid()
      reads this
    {
      nextServerIndex < |servers|
    }

    ghost function Health(): (h: seq<bool>)
      reads this`servers, servers
      ensures |h| == |servers| && forall i :: 0 <= i < |h| ==> h[i] == servers[i].healthy
    {
      var ss := servers;
      seq(|ss|, i requires 0 <= i < |ss| reads ss => ss[i].healthy)
    }

    constructor (servers: seq<Server>)
      requires servers != []
      ensures Valid() && this.servers == servers && nextServerIndex == 0
    {
      this.servers, nextServerIndex := servers, 0;
    }

    /** The address of the next healthy server, or none. */
    method Address() returns (address: Option<string>)
      requires Valid()
      modifies this`nextServerIndex
      ensures Valid()
      ensures nextServerIndex == NextIndex(Health(), old(nextServerIndex))
      ensures match Pick(Health(), old(nextServerIndex))
              case None => address == None
              case Some(p) => address == Some(servers[p].address)
    {
      var firstIndex := nextServerIndex;
      ghost var health := Health();
      ghost var left := |servers|;
      while true
        invariant nextServerIndex < |servers| && 0 < left <= |servers|
        invariant Scan(health, nextServerIndex, left) == Pick(health, firstIndex)
        invariant Dist(firstIndex, nextServerIndex, |servers|) + left == |servers|
        decreases left
      {
        var server := servers[nextServerIndex];
        SuccDist(firstIndex, nextServerIndex, |servers|);
        nextServerIndex := Succ(nextServerIndex, |servers|);
        if server.healthy {
          return Some(server.address);
        }
        left := left - 1;
        if nextServerIndex == firstIndex {
          break;
        }
      }
      return None;
    }
  }

  lemma SuccIs(i: nat, n: nat)
    requires i < n
    ensures Succ(i, n) == if i + 1 == n then 0 else i + 1
  {
    if i + 1 < n {
      assert (i + 1) / n == 0;
    }
  }

  lemma SuccDist(from: nat, i: nat, n: nat)
    requires from < n && i < n
    ensures Dist(from, Succ(i, n), n) == if Succ(i, n) == from then 0 else Dist(from, i, n) + 1
    ensures Succ(i, n) == from <==> Dist(from, i, n) + 1 == n
  {
    SuccIs(i, n);
  }

  /** A scan finds the healthy server that is the least far ahead, among those in reach. */
  lemma {:induction false} ScanFindsNearest(health: seq<bool>, from: nat, left: nat)
    requires from < |health| && left <= |health|
    ensures var p := Scan(health, from, left);
            && (p.Some? ==> Dist(from, p.value, |health|) < left)
            && forall q :: 0 <= q < |health| && health[q] && Dist(from, q, |health|) < left ==>
                 p.Some? && Dist(from, p.value, |health|) <= Dist(from, q, |health|)
    decreases left
  {
    if left > 0 && !health[from] {
      SuccIs(from, |health|);
      ScanFindsNearest(health, Succ(from, |health|), left - 1);
    }
  }

  /** A pick is the only healthy server with no healthy one nearer. */
  lemma PickIsNearest(health: seq<bool>, next: nat)
    requires next < |health|
    ensures Pick(health, next).None? <==> forall q :: 0 <= q < |health| ==> !health[q]
    ensures Pick(health, next).Some? ==>
              forall q :: 0 <= q < |health| && health[q] ==>
                            Dist(next, Pick(health, next).value, |health|) <= Dist(next, q, |health|)
  {
    ScanFindsNearest(health, next, |health|);
  }

  /** The health of all servers at each call of a run. */
  ghost predicate ValidRun(n: nat, hs: seq<seq<bool>>)
  {
    forall h <- hs :: |h| == n
  }

  function After(n: nat, next: nat, hs: seq<seq<bool>>): (r: nat)
    requires next < n && ValidRun(n, hs)
    ensures r < n
    decreases |hs|
  {
    if hs == [] then next else After(n, NextIndex(hs[0], next), hs[1..])
  }

  /** The picks of a run. */
  function Picks(n: nat, next: nat, hs: seq<seq<bool>>): (ps: seq<Option<nat>>)
    requires next < n && ValidRun(n, hs)
    ensures |ps| == |hs|
    decreases |hs|
  {
    if hs == [] then [] else [Pick(hs[0], next)] + Picks(n, NextIndex(hs[0], next), hs[1..])
  }

  function Count(ps: seq<Option<nat>>, s: nat): (c: nat)
  {
    if ps == [] then 0 else (if ps[0] == Some(s) then 1 else 0) + Count(ps[1..], s)
  }

  ghost predicate StaysHealthy(n: nat, hs: seq<seq<bool>>, s: nat)
    requires ValidRun(n, hs)
  {
    s < n && forall i :: 0 <= i < |hs| ==> hs[i][s]
  }

  /** A call moves every server that it does not pass nearer, all by the same distance. */
  lemma CallMoves(h: seq<bool>, next: nat, s: nat)
    requires next < |h| && s < |h| && h[s]
    ensures var n := |h|;
            && Pick(h, next).Some?
            && var p := Pick(h, next).value;
            && Dist(next, p, n) <= Dist(next, s, n)
            && (p != s ==> Dist(next, p, n) < Dist(next, s, n))
            && Dist(NextIndex(h, next), s, n)
               == if p == s then n - 1 else Dist(next, s, n) - Dist(next, p, n) - 1
  {
    PickIsNearest(h, next);
    SuccIs(Pick(h, next).value, |h|);
  }

  /** A healthy server is picked before as many calls as it is far ahead have gone by. */
  lemma {:induction false} PickedInTime(n: nat, next: nat, hs: seq<seq<bool>>, s: nat)
    requires next < n && ValidRun(n, hs) && StaysHealthy(n, hs, s)
    requires |hs| > Dist(next, s, n)
    ensures Some(s) in Picks(n, next, hs)[..Dist(next, s, n) + 1]
    decreases |hs|
  {
    var ps := Picks(n, next, hs);
    CallMoves(hs[0], next, s);
    if ps[0] == Some(s) {
      assert ps[..Dist(next, s, n) + 1][0] == Some(s);
    } else {
      var d := Dist(NextIndex(hs[0], next), s, n) + 1;
      PickedInTime(n, NextIndex(hs[0], next), hs[1..], s);
      var tail := Picks(n, NextIndex(hs[0], next), hs[1..]);
      var k :| 0 <= k < d && tail[..d][k] == Some(s);
      assert ps[..Dist(next, s, n) + 1][k + 1] == Some(s);
    }
  }

  lemma {:induction false} PicksSplit(n: nat, next: nat, a: seq<seq<bool>>, b: seq<seq<bool>>)
    requires next < n && ValidRun(n, a) && ValidRun(n, b)
    ensures ValidRun(n, a + b)
    ensures Picks(n, next, a + b) == Picks(n, next, a) + Picks(n, After(n, next, a), b)
    decreases |a|
  {
    if a == [] {
      assert a + b == b;
    } else {
      assert (a + b)[1..] == a[1..] + b;
      PicksSplit(n, NextIndex(a[0], next), a[1..], b);
    }
  }

  /** The picks within a run are those of a run that starts where the calls before have left off. */
  lemma PicksWithin(n: nat, next: nat, hs: seq<seq<bool>>, i: nat, j: nat)
    requires next < n && ValidRun(n, hs) && i <= j <= |hs|
    ensures Picks(n, next, hs)[i..j] == Picks(n, After(n, next, hs[..i]), hs[i..j])
  {
    PicksUpTo(n, next, hs, j);
    assert hs[..j][..i] == hs[..i] && hs[..j][i..] == hs[i..j];
    PicksFrom(n, next, hs[..j], i);
    assert Picks(n, next, hs)[..j][i..] == Picks(n, next, hs)[i..j];
  }

  lemma PicksUpTo(n: nat, next: nat, hs: seq<seq<bool>>, j: nat)
    requires next < n && ValidRun(n, hs) && j <= |hs|
    ensures ValidRun(n, hs[..j]) && Picks(n, next, hs)[..j] == Picks(n, next, hs[..j])
  {
    assert hs == hs[..j] + hs[j..];
    PicksSplit(n, next, hs[..j], hs[j..]);
  }

  lemma PicksFrom(n: nat, next: nat, hs: seq<seq<bool>>, i: nat)
    requires next < n && ValidRun(n, hs) && i <= |hs|
    ensures Picks(n, next, hs)[i..] == Picks(n, After(n, next, hs[..i]), hs[i..])
  {
    assert hs == hs[..i] + hs[i..];
    PicksSplit(n, next, hs[..i], hs[i..]);
  }

  /**
    No starvation: a server that stays healthy is picked in any n consecutive calls, whatever
    happens to the other servers.
   */
  lemma {:induction false} Fairness(n: nat, next: nat, hs: seq<seq<bool>>, s: nat, i: nat)
    requires next < n && ValidRun(n, hs) && i + n <= |hs|
    requires StaysHealthy(n, hs[i..i + n], s)
    ensures Some(s) in Picks(n, next, hs)[i..i + n]
  {
    var from := After(n, next, hs[..i]);
    PicksWithin(n, next, hs, i, i + n);
    PickedInTime(n, from, hs[i..i + n], s);
    assert Some(s) in Picks(n, from, hs[i..i + n])[..Dist(from, s, n) + 1];
  }

  /**
    Two servers that stay healthy take turns: over any run, whatever the others do, the one that is
    nearer at the start is picked as often as the other one, or once more.
   */
  lemma {:induction false} TakeTurns(n: nat, next: nat, hs: seq<seq<bool>>, s: nat, t: nat)
    requires next < n && ValidRun(n, hs) && StaysHealthy(n, hs, s) && StaysHealthy(n, hs, t)
    requires Dist(next, s, n) < Dist(next, t, n)
    ensures var ps := Picks(n, next, hs); Count(ps, t) <= Count(ps, s) <= Count(ps, t) + 1
    decreases |hs|
  {
    if hs != [] {
      var next' := NextIndex(hs[0], next);
      CallMoves(hs[0], next, s);
      CallMoves(hs[0], next, t);
      assert Picks(n, next, hs)[1..] == Picks(n, next', hs[1..]);
      if Pick(hs[0], next) == Some(s) {
        TakeTurns(n, next', hs[1..], t, s);
      } else {
        TakeTurns(n, next', hs[1..], s, t);
      }
    }
  }

  /** Pick counts of servers that stay healthy differ by at most one over any run. */
  lemma Balance(n: nat, next: nat, hs: seq<seq<bool>>, s: nat, t: nat)
    requires next < n && ValidRun(n, hs) && StaysHealthy(n, hs, s) && StaysHealthy(n, hs, t)
    ensures var ps := Picks(n, next, hs); -1 <= Count(ps, s) - Count(ps, t) <= 1
  {
    if Dist(next, s, n) < Dist(next, t, n) {
      TakeTurns(n, next, hs, s, t);
    } else if Dist(next, t, n) < Dist(next, s, n) {
      TakeTurns(n, next, hs, t, s);
    }
  }

  lemma TurnsWithin(n: nat, next: nat, hs: seq<seq<bool>>, s: nat, t: nat, i: nat, j: nat)
    requires next < n && ValidRun(n, hs) && i <= j <= |hs|
    requires StaysHealthy(n, hs[i..j], s) && StaysHealthy(n, hs[i..j], t)
    requires var from := After(n, next, hs[..i]); Dist(from, s, n) < Dist(from, t, n)
    ensures var ps := Picks(n, next, hs)[i..j]; Count(ps, t) <= Count(ps, s) <= Count(ps, t) + 1
  {
    PicksWithin(n, next, hs, i, j);
    TakeTurns(n, After(n, next, hs[..i]), hs[i..j], s, t);
  }

  /** After a pick, the picked server is the farthest one ahead. */
  lemma PickedIsLast(n: nat, next: nat, hs: seq<seq<bool>>, s: nat, t: nat, i: nat)
    requires next < n && ValidRun(n, hs) && i < |hs| && s < n && t < n && s != t && hs[i][s] && hs[i][t]
    requires Picks(n, next, hs)[i] == Some(s)
    ensures var at := After(n, next, hs[..i + 1]); Dist(at, t, n) < Dist(at, s, n)
  {
    var from := After(n, next, hs[..i]);
    PicksWithin(n, next, hs, i, i + 1);
    assert Picks(n, next, hs)[i..i + 1][0] == Some(s);
    AfterSnoc(n, next, hs, i);
    CallMoves(hs[i], from, s);
    CallMoves(hs[i], from, t);
  }

  lemma {:induction false} CountSplit(a: seq<Option<nat>>, b: seq<Option<nat>>, s: nat)
    ensures Count(a + b, s) == Count(a, s) + Count(b, s)
    decreases |a|
  {
    if a == [] {
      assert a + b == b;
    } else {
      assert (a + b)[1..] == a[1..] + b;
      CountSplit(a[1..], b, s);
    }
  }

  lemma {:induction false} NotCounted(ps: seq<Option<nat>>, s: nat)
    requires Some(s) !in ps
    ensures Count(ps, s) == 0
    decreases |ps|
  {
    if ps != [] {
      NotCounted(ps[1..], s);
    }
  }

  /**
    Between two consecutive picks of a server that stays healthy, every other server that stays
    healthy is picked exactly once.
   */
  lemma OnceBetween(n: nat, next: nat, hs: seq<seq<bool>>, s: nat, t: nat, i: nat, j: nat)
    requires next < n && ValidRun(n, hs) && i < j < |hs| && s != t
    requires StaysHealthy(n, hs[i..j + 1], s) && StaysHealthy(n, hs[i..j + 1], t)
    requires var ps := Picks(n, next, hs);
             ps[i] == Some(s) && ps[j] == Some(s) && Some(s) !in ps[i + 1..j]
    ensures Count(Picks(n, next, hs)[i + 1..j], t) == 1
  {
    var ps := Picks(n, next, hs);
    StaysWithin(n, hs, s, i, j);
    StaysWithin(n, hs, t, i, j);
    PickedIsLast(n, next, hs, s, t, i);
    TurnsWithin(n, next, hs, t, s, i + 1, j);
    TurnsWithin(n, next, hs, t, s, i + 1, j + 1);
    NotCounted(ps[i + 1..j], s);
    assert ps[i + 1..j + 1] == ps[i + 1..j] + [ps[j]];
    CountSplit(ps[i + 1..j], [ps[j]], s);
    CountSplit(ps[i + 1..j], [ps[j]], t);
  }

  lemma {:induction false} AfterSnoc(n: nat, next: nat, hs: seq<seq<bool>>, i: nat)
    requires next < n && ValidRun(n, hs) && i < |hs|
    ensures After(n, next, hs[..i + 1]) == NextIndex(hs[i], After(n, next, hs[..i]))
    decreases i
  {
    if i > 0 {
      assert hs[..i + 1][1..] == hs[1..][..i] && hs[..i][1..] == hs[1..][..i - 1];
      AfterSnoc(n, NextIndex(hs[0], next), hs[1..], i - 1);
    }
  }

  lemma StaysWithin(n: nat, hs: seq<seq<bool>>, s: nat, i: nat, j: nat)
    requires ValidRun(n, hs) && i < j < |hs| && StaysHealthy(n, hs[i..j + 1], s)
    ensures StaysHealthy(n, hs[i + 1..j], s) && StaysHealthy(n, hs[i + 1..j + 1], s) && hs[i][s]
  {
    assert forall k :: i <= k <= j ==> hs[i..j + 1][k - i] == hs[k];
  }

  /** What happens to a balancer: a watcher's tick for one server, with its outcome, or a call. */
  datatype Event =
    | Tick(server: nat, ok: bool)
    | Call

  /** The outcomes of one server's ticks. */
  function Outcomes(es: seq<Event>, s: nat): (outcomes: seq<bool>)
  {
    if es == [] then []
    else
      var e := es[|es| - 1];
      Outcomes(es[..|es| - 1], s) + if e.Tick? && e.server == s then [e.ok] else []
  }

  /** The servers' flags, each the verdict of its own probe. */
  function HealthAfter(cfg: ProbeCfg, n: nat, es: seq<Event>): (health: seq<bool>)
  {
    seq(n, s requires 0 <= s < n => Healthy(RunProbe(cfg, Outcomes(es, s))))
  }

  /** The events in order: those of one history and then of another, a tick of the server for one outcome. */
  lemma {:induction false} OutcomesAre(es: seq<Event>, more: seq<Event>, e: Event, s: nat)
    ensures Outcomes(es + more, s) == Outcomes(es, s) + Outcomes(more, s)
    ensures Outcomes([e], s) == match e
                                case Tick(server, ok) => if server == s then [ok] else []
                                case Call => []
    decreases |more|
  {
    assert [e][..0] == [];
    if more == [] {
      assert es + more == es && Outcomes(es, s) + [] == Outcomes(es, s);
    } else {
      var before, last := more[..|more| - 1], more[|more| - 1];
      assert (es + more)[..|es + more| - 1] == es + before;
      OutcomesAre(es, before, e, s);
      var one := if last.Tick? && last.server == s then [last.ok] else [];
      assert Outcomes(es, s) + Outcomes(before, s) + one == Outcomes(es, s) + (Outcomes(before, s) + one);
    }
  }

  lemma {:induction false} OutcomesBehind(es: seq<Event>, e: Event, s: nat)
    ensures Outcomes(es + [e], s) == if e.Tick? && e.server == s then Outcomes(es, s) + [e.ok] else Outcomes(es, s)
  {
    assert (es + [e])[..|es|] == es;
    assert Outcomes(es, s) + [] == Outcomes(es, s);
  }

  lemma {:induction false} ProbeBehind(cfg: ProbeCfg, outcomes: seq<bool>, ok: bool)
    ensures RunProbe(cfg, outcomes + [ok]) == Next(cfg, RunProbe(cfg, outcomes), ok)
  {
    assert (outcomes + [ok])[..|outcomes|] == outcomes;
  }

  /** A tick moves one probe by one step, and so at most that server's flag; a call moves none. */
  lemma {:induction false} TickMovesOne(cfg: ProbeCfg, n: nat, es: seq<Event>, e: Event, s: nat)
    requires s < n
    ensures HealthAfter(cfg, n, es + [e])[s]
         == if e.Tick? && e.server == s then Healthy(Next(cfg, RunProbe(cfg, Outcomes(es, s)), e.ok))
            else HealthAfter(cfg, n, es)[s]
  {
    OutcomesBehind(es, e, s);
    if e.Tick? {
      ProbeBehind(cfg, Outcomes(es, s), e.ok);
    }
  }

  /** The flags that each call sees, whatever ticks come in between. */
  function CallHealths(cfg: ProbeCfg, n: nat, es: seq<Event>): (hs: seq<seq<bool>>)
    ensures forall h <- hs :: |h| == n
  {
    if es == [] then []
    else
      var before := es[..|es| - 1];
      CallHealths(cfg, n, before) + if es[|es| - 1].Call? then [HealthAfter(cfg, n, before)] else []
  }

  /** From event `m` on, a server has recovered, or never failed, and its trailing failures stay below the threshold. */
  ghost predicate SteadyFrom(cfg: ProbeCfg, es: seq<Event>, s: nat, m: nat)
  {
    && m <= |es| && (m == 0 || Trailing(Outcomes(es[..m], s), true) >= UpAfter(cfg))
    && forall k :: m <= k <= |es| ==> Trailing(Outcomes(es[..k], s), false) < DownAfter(cfg)
  }

  lemma {:induction false} SteadyIsHealthy(cfg: ProbeCfg, es: seq<Event>, s: nat, m: nat, k: nat)
    requires SteadyFrom(cfg, es, s, m) && m <= k <= |es|
    ensures Healthy(RunProbe(cfg, Outcomes(es[..k], s)))
    decreases k
  {
    var now := Outcomes(es[..k], s);
    if k == m {
      StateIs(cfg, now);
    } else {
      SteadyIsHealthy(cfg, es, s, m, k - 1);
      assert es[..k][..k - 1] == es[..k - 1];
      var before, e := Outcomes(es[..k - 1], s), es[k - 1];
      assert Trailing(now, false) < DownAfter(cfg);
      if e.Tick? && e.server == s {
        VerdictStep(cfg, before, e.ok);
      } else {
        assert before + [] == before;
      }
    }
  }

  lemma {:induction false} CallsSnoc(cfg: ProbeCfg, n: nat, es: seq<Event>, k: nat)
    requires 0 < k <= |es|
    ensures CallHealths(cfg, n, es[..k])
         == CallHealths(cfg, n, es[..k - 1]) + if es[k - 1].Call? then [HealthAfter(cfg, n, es[..k - 1])] else []
  {
    assert es[..k][..k - 1] == es[..k - 1];
  }

  /** All vectors from some place on have a flag set. */
  ghost predicate SetFrom(hs: seq<seq<bool>>, s: nat, from: nat)
  {
    from <= |hs| && forall j :: from <= j < |hs| ==> s < |hs[j]| && hs[j][s]
  }

  lemma {:induction false} SteadyInCalls(cfg: ProbeCfg, n: nat, es: seq<Event>, s: nat, m: nat, k: nat)
    requires SteadyFrom(cfg, es, s, m) && m <= k <= |es| && s < n
    ensures SetFrom(CallHealths(cfg, n, es[..k]), s, |CallHealths(cfg, n, es[..m])|)
    decreases k
  {
    if k > m {
      SteadyInCalls(cfg, n, es, s, m, k - 1);
      SteadyIsHealthy(cfg, es, s, m, k - 1);
      CallsSnoc(cfg, n, es, k);
      SetFromSnoc(CallHealths(cfg, n, es[..k - 1]), HealthAfter(cfg, n, es[..k - 1]), s, |CallHealths(cfg, n, es[..m])|);
    }
  }

  lemma {:induction false} SetFromSnoc(hs: seq<seq<bool>>, h: seq<bool>, s: nat, from: nat)
    requires SetFrom(hs, s, from) && s < |h| && h[s]
    ensures SetFrom(hs + [h], s, from) && SetFrom(hs + [], s, from)
  {
  }

  lemma {:induction false} FairFrom(n: nat, next: nat, hs: seq<seq<bool>>, s: nat, from: nat, i: nat)
    requires next < n && s < n && ValidRun(n, hs) && SetFrom(hs, s, from) && from <= i && i + n <= |hs|
    ensures Some(s) in Picks(n, next, hs)[i..i + n]
  {
    var window := hs[i..i + n];
    forall j | 0 <= j < |window|
      ensures window[j][s]
    {
      assert window[j] == hs[i + j];
    }
    Fairness(n, next, hs, s, i);
  }

  /**
    Probes and balancer together: over any interleaving of ticks and calls, a server whose trailing
    failures stay below the threshold, from the start or since it recovered, is picked in any n
    consecutive calls from then on, whatever the other servers do.
   */
  lemma {:induction false} SteadyServerIsPicked(
    cfg: ProbeCfg, n: nat, next: nat, es: seq<Event>, s: nat, m: nat, i: nat)
    requires next < n && s < n && SteadyFrom(cfg, es, s, m)
    requires |CallHealths(cfg, n, es[..m])| <= i && i + n <= |CallHealths(cfg, n, es)|
    ensures Some(s) in Picks(n, next, CallHealths(cfg, n, es))[i..i + n]
  {
    assert es[..|es|] == es;
    SteadyInCalls(cfg, n, es, s, m, |es|);
    FairFrom(n, next, CallHealths(cfg, n, es), s, |CallHealths(cfg, n, es[..m])|, i);
  }
}
