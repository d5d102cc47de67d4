/**
  The health probe: a hysteresis state machine over test outcomes. Its verdict over any run is
  characterised by the runs of failures and successes at the end of what it has seen.
 */
module HealthProbes {
  import opened Numbers

  datatype ProbeState = Successful | Failing | Failed | Recovering

  datatype ProbeCfg = ProbeCfg(successThreshold: int, failureThreshold: int)

  /** The machine's fields: the state, and how many outcomes have counted towards leaving it. */
  datatype Probe = Probe(state: ProbeState, count: int)

  const INITIAL := Probe(Successful, 0)

  function Next(cfg: ProbeCfg, p: Probe, successful: bool): (q: Probe)
  {
    match p.state
    case Successful => if !successful then Probe(Failing, 1) else p
    case Failing =>
      if successful then Probe(Successful, 0)
      else Probe(if p.count + 1 >= cfg.failureThreshold then Failed else Failing, p.count + 1)
    case Failed => if successful then Probe(Recovering, 1) else p
    case Recovering =>
      if successful then Probe(if p.count + 1 >= cfg.successThreshold then Successful else Recovering, p.count + 1)
      else Probe(Failed, 0)
  }

  predicate Healthy(p: Probe)
  {
    p.state.Successful? || p.state.Failing?
  }

  /** The tests of one tick all pass; running stops at the first that fails. */
  predicate AllPass(tests: seq<bool>)
  {
    forall i :: 0 <= i < |tests| ==> tests[i]
  }

  class HealthProbe {
    const cfg: ProbeCfg
    var state: ProbeState
    var count: int

    constructor (cfg: ProbeCfg)
      ensures this.cfg == cfg && View() == INITIAL
    {
      this.cfg, state, count := cfg, Successful, 0;
    }

    ghost function View(): (p: Probe)
      reads this
    {
      Probe(state, count)
    }

    /** One execution, with the outcomes that the configured tests would have. */
    method Execute(tests: seq<bool>) returns (ok: bool)
      modifies this
      ensures View() == Next(cfg, old(View()), AllPass(tests))
      ensures ok == Healthy(View())
    {
      var successful := true;
      var i := 0;
      while i < |tests|
        invariant 0 <= i <= |tests|
        invariant successful && forall j :: 0 <= j < i ==> tests[j]
      {
        if !tests[i] {
          successful := false;
          break;
        }
        i := i + 1;
      }
      assert successful == AllPass(tests);

      match state {
      case Successful =>
        if !successful {
          state, count := Failing, 1;
        }
      case Failing =>
        if successful {
          state, count := Successful, 0;
        } else {
          count := count + 1;
          if count >= cfg.failureThreshold {
            state := Failed;
          }
        }
      case Failed =>
        if successful {
          state, count := Recovering, 1;
        }
      case Recovering =>
        if successful {
          count := count + 1;
          if count >= cfg.successThreshold {
            state := Successful;
          }
        } else {
          state, count := Failed, 0;
        }
      }
      return state == Successful || state == Failing;
    }
  }

  /** The probe after a run of outcomes. */
  function RunProbe(cfg: ProbeCfg, outcomes: seq<bool>): (p: Probe)
  {
    if outcomes == [] then INITIAL
    else Next(cfg, RunProbe(cfg, outcomes[..|outcomes| - 1]), outcomes[|outcomes| - 1])
  }

  /** The length of the run of equal outcomes at the end. */
  function Trailing(outcomes: seq<bool>, outcome: bool): (n: nat)
    ensures n <= |outcomes|
  {
    if outcomes == [] || outcomes[|outcomes| - 1] != outcome then 0
    else 1 + Trailing(outcomes[..|outcomes| - 1], outcome)
  }

  /** A transition takes two ticks at least, whatever the threshold. */
  function DownAfter(cfg: ProbeCfg): (n: int)
  {
    Max(2, cfg.failureThreshold)
  }

  function UpAfter(cfg: ProbeCfg): (n: int)
  {
    Max(2, cfg.successThreshold)
  }

  lemma TrailingIs(outcomes: seq<bool>, outcome: bool)
    ensures Trailing(outcomes, outcome) > 0 <==> outcomes != [] && outcomes[|outcomes| - 1] == outcome
  {
  }

  /** The machine counts exactly the trailing run that its state is about. */
  lemma {:induction false} StateIs(cfg: ProbeCfg, outcomes: seq<bool>)
    ensures var p, failures, successes := RunProbe(cfg, outcomes), Trailing(outcomes, false), Trailing(outcomes, true);
            match p.state
            case Successful => failures == 0
            case Failing => p.count == failures && 1 <= failures < DownAfter(cfg)
            case Failed => successes == 0
            case Recovering => p.count == successes && 1 <= successes < UpAfter(cfg)
  {
    if outcomes != [] {
      StateIs(cfg, outcomes[..|outcomes| - 1]);
      TrailingIs(outcomes[..|outcomes| - 1], true);
      TrailingIs(outcomes[..|outcomes| - 1], false);
    }
  }

  /** The verdict changes exactly when the trailing run reaches its threshold. */
  lemma VerdictStep(cfg: ProbeCfg, outcomes: seq<bool>, outcome: bool)
    ensures var before, now := Healthy(RunProbe(cfg, outcomes)), Healthy(RunProbe(cfg, outcomes + [outcome]));
            && (before ==> (!now <==> Trailing(outcomes + [outcome], false) >= DownAfter(cfg)))
            && (!before ==> (now <==> Trailing(outcomes + [outcome], true) >= UpAfter(cfg)))
  {
    assert (outcomes + [outcome])[..|outcomes|] == outcomes;
    StateIs(cfg, outcomes);
  }

  /** A point after which the server has been down: a full run of failures, and no full run of successes since. */
  ghost predicate DownSince(cfg: ProbeCfg, outcomes: seq<bool>, i: nat)
  {
    && i <= |outcomes|
    && Trailing(outcomes[..i], false) >= DownAfter(cfg)
    && forall j :: i <= j <= |outcomes| ==> Trailing(outcomes[..j], true) < UpAfter(cfg)
  }

  /** One outcome later, a point remains such a point unless a full run of successes has just ended. */
  lemma {:induction false} DownStays(cfg: ProbeCfg, before: seq<bool>, last: bool, i: nat)
    requires i <= |before|
    ensures DownSince(cfg, before + [last], i)
            <==> DownSince(cfg, before, i) && Trailing(before + [last], true) < UpAfter(cfg)
  {
    var outcomes := before + [last];
    assert outcomes[..|outcomes|] == outcomes;
    assert forall j: nat | j <= |before| :: outcomes[..j] == before[..j];
    if DownSince(cfg, outcomes, i) {
      assert Trailing(outcomes[..|outcomes|], true) < UpAfter(cfg);
      forall j | i <= j <= |before|
        ensures Trailing(before[..j], true) < UpAfter(cfg)
      {
        assert Trailing(outcomes[..j], true) < UpAfter(cfg);
      }
    }
  }

  /** The end is such a point exactly when a full run of failures has just ended. */
  lemma {:induction false} DownNow(cfg: ProbeCfg, outcomes: seq<bool>)
    requires outcomes != []
    ensures DownSince(cfg, outcomes, |outcomes|) <==> Trailing(outcomes, false) >= DownAfter(cfg)
    ensures Trailing(outcomes, false) >= DownAfter(cfg) ==> Trailing(outcomes, true) == 0
  {
    assert outcomes[..|outcomes|] == outcomes;
  }

  /**
    Over every run, the probe reports the server down exactly when a full run of failures has
    happened that no full run of successes has followed.
   */
  lemma {:induction false} Hysteresis(cfg: ProbeCfg, outcomes: seq<bool>)
    ensures !Healthy(RunProbe(cfg, outcomes)) <==> exists i :: DownSince(cfg, outcomes, i)
    decreases |outcomes|
  {
    if outcomes == [] {
      assert forall i: nat | i <= 0 :: Trailing(outcomes[..i], false) == 0;
    } else {
      var before, last := outcomes[..|outcomes| - 1], outcomes[|outcomes| - 1];
      assert outcomes == before + [last];
      Hysteresis(cfg, before);
      DownStep(cfg, before, last);
    }
  }

  /** One outcome keeps the verdict and the points in step. */
  lemma {:induction false} DownStep(cfg: ProbeCfg, before: seq<bool>, last: bool)
    requires !Healthy(RunProbe(cfg, before)) <==> exists i :: DownSince(cfg, before, i)
    ensures var outcomes := before + [last];
            !Healthy(RunProbe(cfg, outcomes)) <==> exists i :: DownSince(cfg, outcomes, i)
  {
    var outcomes := before + [last];
    VerdictStep(cfg, before, last);
    DownNow(cfg, outcomes);
    if i: nat :| DownSince(cfg, before, i) {
      DownStays(cfg, before, last, i);
    }
    if i: nat :| DownSince(cfg, outcomes, i) && i <= |before| {
      DownStays(cfg, before, last, i);
    }
  }

  /** One failed test is enough for a failed outcome, wherever it is. */
  lemma {:induction false} OutcomeIs(tests: seq<bool>)
    ensures AllPass(tests) <==> false !in tests
  {
  }
}
