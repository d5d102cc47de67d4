/**
  The fixed-window rate counter, and how many units it can accept in any sliding window over a
  whole history of updates, in which the limiter may drop the counter and create it again.
 */
module RateCounters {
  import opened Numbers
  import opened Results

  /** Go's remainder, whose sign is that of the dividend. */
  function Rem(a: int, b: int): (r: int)
    requires b != 0
  {
    if a >= 0 then a % b else -((-a) % b)
  }

  datatype CounterCfg = CounterCfg(limit: int, period: int)

  /** A counter's fields; `start` and `period` are in milliseconds. */
  datatype Counter = Counter(start: int, limit: int, period: int, count: int)

  /** The start of the window that a time falls into. */
  function Align(t: int, period: int): (start: int)
    requires period != 0
  {
    t - Rem(t, period)
  }

  function NewCounter(cfg: CounterCfg, clock: int): (c: Counter)
  {
    Counter(if cfg.period > 0 then Align(clock, cfg.period) else 0, cfg.limit, cfg.period, 0)
  }

  /** The counter once an update at `now` has left an expired window. */
  function Rolled(c: Counter, now: int): (r: Counter)
    requires c.period != 0
  {
    if now - c.start > c.period then c.(start := Align(now, c.period), count := 0) else c
  }

  function UpdateCounter(c: Counter, n: int, now: int): (r: (Counter, bool))
  {
    if c.period == 0 then (c, true)
    else if now < c.start then (c, false)
    else
      var rolled := Rolled(c, now);
      if rolled.count + n > rolled.limit then (rolled, false)
      else (rolled.(count := rolled.count + n), true)
  }

  class RateCounter {
    var start: int
    var limit: int
    var period: int
    var count: int

    constructor (cfg: CounterCfg, clock: int)
      ensures View() == NewCounter(cfg, clock)
    {
      limit, period := cfg.limit, cfg.period;
      start, count := 0, 0;
      if cfg.period > 0 {
        start := Align(clock, cfg.period);
      }
    }

    ghost function View(): (c: Counter)
      reads this
    {
      Counter(start, limit, period, count)
    }

    method Update(n: int, now: int) returns (pass: bool)
      modifies this
      ensures (View(), pass) == UpdateCounter(old(View()), n, now)
    {
      if period == 0 {
        return true;
      }
      if now < start {
        return false;
      }
      if now - start > period {
        start := Align(now, period);
        count := 0;
      }
      if count + n > limit {
        return false;
      }
      count := count + n;
      return true;
    }
  }

  /** An accepted update: when, how many units, and the start of the window that took them. */
  datatype Accepted = Accepted(time: int, units: nat, start: int)

  /** What happens to one counter of a limiter. A touch creates the counter if it does not exist. */
  datatype KeyEvent =
    | Create(clock: int)
    | Touch(n: nat, now: int, clock: int)
    | Drop

  datatype KeyState = KeyState(counter: Option<Counter>, log: seq<Accepted>)

  function KeyStep(cfg: CounterCfg, s: KeyState, e: KeyEvent): (r: KeyState)
  {
    match e
    case Create(clock) => if s.counter.None? then s.(counter := Some(NewCounter(cfg, clock))) else s
    case Touch(n, now, clock) =>
      var c := if s.counter.Some? then s.counter.value else NewCounter(cfg, clock);
      var (updated, pass) := UpdateCounter(c, n, now);
      KeyState(Some(updated), if pass then s.log + [Accepted(now, n, updated.start)] else s.log)
    case Drop => if s.counter.Some? && s.counter.value.count == 0 then s.(counter := None) else s
  }

  function KeyRun(cfg: CounterCfg, events: seq<KeyEvent>): (s: KeyState)
  {
    if events == [] then KeyState(None, [])
    else KeyStep(cfg, KeyRun(cfg, events[..|events| - 1]), events[|events| - 1])
  }

  /** The start of the newest window so far, whether or not its counter still exists. */
  function Newest(cfg: CounterCfg, events: seq<KeyEvent>): (start: Option<int>)
  {
    var counter := KeyRun(cfg, events).counter;
    if counter.Some? then Some(counter.value.start)
    else if events == [] then None
    else Newest(cfg, events[..|events| - 1])
  }

  /** Whether an event creates the counter, which is when the clock is read. */
  predicate CreatesAt(cfg: CounterCfg, events: seq<KeyEvent>, i: nat)
    requires i < |events|
  {
    !events[i].Drop? && KeyRun(cfg, events[..i]).counter.None?
  }

  /** A creation does not go back behind the newest window. */
  predicate ForwardAt(cfg: CounterCfg, events: seq<KeyEvent>, i: nat)
    requires cfg.period != 0 && i < |events|
  {
    CreatesAt(cfg, events, i) && Newest(cfg, events[..i]).Some? ==>
      Newest(cfg, events[..i]).value <= Align(events[i].clock, cfg.period)
  }

  /** No creation goes back. Timestamps may come in any order, before or after the clock. */
  ghost predicate Forward(cfg: CounterCfg, events: seq<KeyEvent>)
    requires cfg.period != 0
  {
    forall i :: 0 <= i < |events| ==> ForwardAt(cfg, events, i)
  }

  /** The units that the window starting at `start` has accepted. */
  function EpochUnits(log: seq<Accepted>, start: int): (n: nat)
  {
    if log == [] then 0
    else EpochUnits(log[..|log| - 1], start)
         + if log[|log| - 1].start == start then log[|log| - 1].units else 0
  }

  /** The units accepted with timestamps in [from, to). */
  function UnitsIn(log: seq<Accepted>, from: int, to: int): (n: nat)
  {
    if log == [] then 0
    else UnitsIn(log[..|log| - 1], from, to)
         + if from <= log[|log| - 1].time < to then log[|log| - 1].units else 0
  }

  function Times(k: int, period: int): (t: int)
  {
    k * period
  }

  ghost predicate Multiple(a: int, period: int)
  {
    exists k :: Times(k, period) == a
  }

  lemma AlignProperties(t: int, period: int)
    requires period > 0
    ensures Multiple(Align(t, period), period)
    ensures t >= 0 ==> Align(t, period) <= t < Align(t, period) + period
    ensures t < 0 ==> t <= Align(t, period) < t + period
  {
    var k := if t >= 0 then t / period else -((-t) / period);
    assert Times(k, period) == Align(t, period);
  }

  lemma TimesApart(j: int, k: int, period: int)
    requires period > 0 && j < k
    ensures Times(j, period) + period <= Times(k, period)
  {
    assert (k - j - 1) * period >= 0;
  }

  /** Distinct multiples of the period are at least one period apart. */
  lemma MultiplesApart(a: int, b: int, period: int)
    requires period > 0 && Multiple(a, period) && Multiple(b, period) && a < b
    ensures a + period <= b
  {
    var j :| Times(j, period) == a;
    var k :| Times(k, period) == b;
    if j < k {
      TimesApart(j, k, period);
    } else if k < j {
      TimesApart(k, j, period);
    }
  }

  lemma AlignMonotone(t: int, u: int, period: int)
    requires period > 0 && t <= u
    ensures Align(t, period) <= Align(u, period)
  {
    AlignProperties(t, period);
    AlignProperties(u, period);
    StartsMonotone(Align(t, period), Align(u, period), t, u, period);
  }

  lemma StartsMonotone(a: int, b: int, t: int, u: int, period: int)
    requires period > 0 && Multiple(a, period) && Multiple(b, period) && t <= u
    requires if t >= 0 then a <= t < a + period else t <= a < t + period
    requires if u >= 0 then b <= u < b + period else u <= b < u + period
    ensures a <= b
  {
    if b < a {
      MultiplesApart(b, a, period);
      if t < 0 <= u {
        assert Times(0, period) == 0;
        if b < 0 {
          MultiplesApart(b, 0, period);
        } else {
          MultiplesApart(0, a, period);
        }
      }
    }
  }

  /** The invariant of a history whose newest window starts at `last`. */
  ghost predicate Consistent(cfg: CounterCfg, s: KeyState, last: int)
  {
    && Multiple(last, cfg.period)
    && (forall i :: 0 <= i < |s.log| ==>
          && Multiple(s.log[i].start, cfg.period) && s.log[i].start <= last
          && s.log[i].time <= s.log[i].start + cfg.period)
    && (forall i, j :: 0 <= i < j < |s.log| ==> s.log[i].start <= s.log[j].start)
    && (forall i, j :: 0 <= i < j < |s.log| && s.log[i].start < s.log[j].start ==>
                         s.log[i].start + cfg.period <= s.log[j].time)
    && (forall start :: EpochUnits(s.log, start) <= Max(0, cfg.limit))
    && (if s.counter.None? then EpochUnits(s.log, last) == 0
        else s.counter.value == Counter(last, cfg.limit, cfg.period, EpochUnits(s.log, last)))
  }

  /** No units are logged for a window later than all logged ones. */
  lemma {:induction false} FutureEpochEmpty(log: seq<Accepted>, last: int, start: int)
    requires forall i :: 0 <= i < |log| ==> log[i].start <= last
    requires last < start
    ensures EpochUnits(log, start) == 0
  {
    if log != [] {
      FutureEpochEmpty(log[..|log| - 1], last, start);
    }
  }

  /** The window moves on to a later start, or the counter is created; it has no units yet. */
  lemma MoveOn(cfg: CounterCfg, s: KeyState, last: int, start: int)
    requires Consistent(cfg, s, last)
    requires Multiple(start, cfg.period) && last <= start
    requires s.counter.None? || last < start
    ensures Consistent(cfg, KeyState(Some(Counter(start, cfg.limit, cfg.period, 0)), s.log), start)
  {
    if last < start {
      FutureEpochEmpty(s.log, last, start);
    }
  }

  /** Charging the current window at a time it covers, when it has room. */
  lemma Charge(cfg: CounterCfg, s: KeyState, last: int, n: nat, now: int)
    requires Consistent(cfg, s, last)
    requires s.counter.Some? && s.counter.value.count + n <= cfg.limit
    requires now <= last + cfg.period
    requires forall i :: 0 <= i < |s.log| && s.log[i].start < last ==> s.log[i].start + cfg.period <= now
    ensures var c := s.counter.value;
            Consistent(cfg, KeyState(Some(c.(count := c.count + n)), s.log + [Accepted(now, n, last)]), last)
  {
    var log := s.log + [Accepted(now, n, last)];
    assert log[..|log| - 1] == s.log;
    assert forall start :: EpochUnits(log, start) == EpochUnits(s.log, start) + if start == last then n else 0;
  }

  /** Earlier windows have ended when the newest one starts. */
  lemma EarlierHaveEnded(cfg: CounterCfg, s: KeyState, last: int)
    requires cfg.period > 0 && Consistent(cfg, s, last)
    ensures forall i :: 0 <= i < |s.log| && s.log[i].start < last ==> s.log[i].start + cfg.period <= last
  {
    forall i | 0 <= i < |s.log| && s.log[i].start < last
      ensures s.log[i].start + cfg.period <= last
    {
      MultiplesApart(s.log[i].start, last, cfg.period);
    }
  }

  /** What an update in the newest window leaves: it charges the window if there is room. */
  function Charged(cfg: CounterCfg, s: KeyState, n: nat, now: int): (r: KeyState)
    requires s.counter.Some?
  {
    var c := s.counter.value;
    if c.count + n <= cfg.limit
    then KeyState(Some(c.(count := c.count + n)), s.log + [Accepted(now, n, c.start)]) else s
  }

  lemma ChargeIfRoom(cfg: CounterCfg, s: KeyState, last: int, n: nat, now: int)
    requires cfg.period > 0 && Consistent(cfg, s, last) && s.counter.Some?
    requires now <= last + cfg.period
    requires forall i :: 0 <= i < |s.log| && s.log[i].start < last ==> s.log[i].start + cfg.period <= now
    ensures Consistent(cfg, Charged(cfg, s, n, now), last)
  {
    if s.counter.value.count + n <= cfg.limit {
      Charge(cfg, s, last, n, now);
    }
  }

  /** A counter in its own window, in terms of `Charged`. */
  lemma UpdateIsCharged(cfg: CounterCfg, s: KeyState, n: nat, now: int)
    requires cfg.period > 0 && s.counter.Some?
    requires s.counter.value.limit == cfg.limit && s.counter.value.period == cfg.period
    ensures var c := s.counter.value;
            var (updated, pass) := UpdateCounter(c, n, now);
            KeyState(Some(updated), if pass then s.log + [Accepted(now, n, updated.start)] else s.log)
            == if now < c.start then s else Charged(cfg, KeyState(Some(Rolled(c, now)), s.log), n, now)
  {
  }

  /** An update keeps the invariant, in the window that it leaves behind. */
  lemma UpdateKeepsConsistent(cfg: CounterCfg, s: KeyState, last: int, n: nat, now: int)
    requires cfg.period > 0 && Consistent(cfg, s, last) && s.counter.Some?
    ensures var (updated, pass) := UpdateCounter(s.counter.value, n, now);
            Consistent(cfg, KeyState(Some(updated), if pass then s.log + [Accepted(now, n, updated.start)] else s.log),
                       updated.start)
  {
    UpdateIsCharged(cfg, s, n, now);
    assert KeyState(Some(s.counter.value), s.log) == s;
    if last <= now <= last + cfg.period {
      EarlierHaveEnded(cfg, s, last);
      ChargeIfRoom(cfg, s, last, n, now);
    } else if last <= now {
      var start := Align(now, cfg.period);
      AlignProperties(now, cfg.period);
      MoveOn(cfg, s, last, start);
      ChargeIfRoom(cfg, KeyState(Some(Counter(start, cfg.limit, cfg.period, 0)), s.log), start, n, now);
    }
  }

  /** What holds after a history: nothing before the first window, then the invariant. */
  ghost predicate Sound(cfg: CounterCfg, s: KeyState, newest: Option<int>)
  {
    if newest.None? then s == KeyState(None, []) else Consistent(cfg, s, newest.value)
  }

  /** The counter that an event works on is created in no earlier window than the newest. */
  lemma CreationKeepsSound(cfg: CounterCfg, s: KeyState, newest: Option<int>, clock: int)
    requires cfg.period > 0 && Sound(cfg, s, newest) && s.counter.None?
    requires newest.Some? ==> newest.value <= Align(clock, cfg.period)
    ensures Consistent(cfg, KeyState(Some(NewCounter(cfg, clock)), s.log), Align(clock, cfg.period))
  {
    AlignProperties(clock, cfg.period);
    if newest.Some? {
      MoveOn(cfg, s, newest.value, Align(clock, cfg.period));
    }
  }

  lemma StepKeepsSound(cfg: CounterCfg, s: KeyState, newest: Option<int>, e: KeyEvent)
    requires cfg.period > 0 && Sound(cfg, s, newest)
    requires !e.Drop? && s.counter.None? && newest.Some? ==> newest.value <= Align(e.clock, cfg.period)
    ensures var t := KeyStep(cfg, s, e);
            Sound(cfg, t, if t.counter.Some? then Some(t.counter.value.start) else newest)
  {
    var t := s;
    if s.counter.None? && !e.Drop? {
      CreationKeepsSound(cfg, s, newest, e.clock);
      t := KeyState(Some(NewCounter(cfg, e.clock)), s.log);
    }
    if e.Touch? {
      UpdateKeepsConsistent(cfg, t, t.counter.value.start, e.n, e.now);
    }
  }

  /** Every history whose creations go forward keeps the invariant. */
  lemma {:induction false} RunConsistent(cfg: CounterCfg, events: seq<KeyEvent>)
    requires cfg.period > 0 && Forward(cfg, events)
    ensures Sound(cfg, KeyRun(cfg, events), Newest(cfg, events))
  {
    if events != [] {
      var last := |events| - 1;
      var before := events[..last];
      ForwardPrefix(cfg, events, last);
      RunConsistent(cfg, before);
      assert ForwardAt(cfg, events, last);
      StepKeepsSound(cfg, KeyRun(cfg, before), Newest(cfg, before), events[last]);
    }
  }

  lemma ForwardPrefix(cfg: CounterCfg, events: seq<KeyEvent>, n: nat)
    requires cfg.period != 0 && n <= |events| && Forward(cfg, events)
    ensures Forward(cfg, events[..n])
  {
    forall i | 0 <= i < n
      ensures ForwardAt(cfg, events[..n], i)
    {
      assert ForwardAt(cfg, events, i);
      assert events[..n][..i] == events[..i];
    }
  }

  /** The counter that a touch updates. */
  function Touched(cfg: CounterCfg, s: KeyState, clock: int): (c: Counter)
  {
    if s.counter.Some? then s.counter.value else NewCounter(cfg, clock)
  }

  /** The window that a timestamp is counted in holds exactly what has been accepted for it. */
  lemma CountsItsWindow(cfg: CounterCfg, s: KeyState, last: int, clock: int, now: int)
    requires cfg.period > 0 && Consistent(cfg, s, last) && (s.counter.None? ==> last <= Align(clock, cfg.period))
    ensures var c := Touched(cfg, s, clock);
            c.period == cfg.period && c.limit == cfg.limit
            && (now >= c.start ==> Rolled(c, now).count == EpochUnits(s.log, Rolled(c, now).start))
  {
    var c := Touched(cfg, s, clock);
    AlignProperties(now, cfg.period);
    if s.counter.None? && last < c.start {
      FutureEpochEmpty(s.log, last, c.start);
    }
    if now - c.start > cfg.period {
      FutureEpochEmpty(s.log, last, Align(now, cfg.period));
    }
  }

  /**
    No room is wasted: after every history, an update is accepted exactly when its timestamp is not
    before the current window, and what its window has accepted leaves room for it.
   */
  lemma RoomIsUsed(cfg: CounterCfg, events: seq<KeyEvent>, n: nat, now: int, clock: int)
    requires cfg.period > 0 && Forward(cfg, events + [Touch(n, now, clock)])
    ensures var s := KeyRun(cfg, events);
            var c := Touched(cfg, s, clock);
            c.period == cfg.period
            && (UpdateCounter(c, n, now).1
                <==> now >= c.start && EpochUnits(s.log, Rolled(c, now).start) + n <= cfg.limit)
  {
    var all := events + [Touch(n, now, clock)];
    assert all[..|events|] == events;
    ForwardPrefix(cfg, all, |events|);
    RunConsistent(cfg, events);
    assert ForwardAt(cfg, all, |events|);
    if Newest(cfg, events).Some? {
      CountsItsWindow(cfg, KeyRun(cfg, events), Newest(cfg, events).value, clock, now);
    }
  }

  /** The units of two windows bound those of any time range that only meets these two. */
  lemma {:induction false} TwoEpochs(log: seq<Accepted>, from: int, to: int, first: int, second: int)
    requires forall i :: 0 <= i < |log| && from <= log[i].time < to ==> log[i].start == first || log[i].start == second
    ensures UnitsIn(log, from, to) <= EpochUnits(log, first) + EpochUnits(log, second)
  {
    if log != [] {
      TwoEpochs(log[..|log| - 1], from, to, first, second);
    }
  }

  /** Accepted times in a range of one period belong to at most two windows. */
  lemma AtMostTwoEpochs(cfg: CounterCfg, s: KeyState, last: int, from: int)
    returns (first: int, second: int)
    requires cfg.period > 0 && Consistent(cfg, s, last)
    ensures forall i :: 0 <= i < |s.log| && from <= s.log[i].time < from + cfg.period ==>
                          s.log[i].start == first || s.log[i].start == second
  {
    var log := s.log;
    first, second := last, last;
    var i := 0;
    while i < |log| && !(from <= log[i].time < from + cfg.period)
      invariant 0 <= i <= |log|
      invariant forall k :: 0 <= k < i ==> !(from <= log[k].time < from + cfg.period)
    {
      i := i + 1;
    }
    if i < |log| {
      var j := |log| - 1;
      while !(from <= log[j].time < from + cfg.period)
        invariant i <= j < |log|
        invariant forall k :: j < k < |log| ==> !(from <= log[k].time < from + cfg.period)
        decreases j
      {
        j := j - 1;
      }
      first, second := log[i].start, log[j].start;
      forall k | i <= k <= j && from <= log[k].time < from + cfg.period
        ensures log[k].start == first || log[k].start == second
      {
        if log[i].start < log[k].start < log[j].start {
          MultiplesApart(log[i].start, log[k].start, cfg.period);
        }
      }
    }
  }

  /**
    The sliding-window bound: in any history, with updates in any order of timestamps and drops of
    idle counters in between, the units accepted in any `period` consecutive milliseconds never
    exceed twice the limit, as long as no counter is created behind the newest window.
   */
  lemma SlidingWindow(cfg: CounterCfg, events: seq<KeyEvent>, from: int)
    requires cfg.period > 0 && Forward(cfg, events)
    ensures UnitsIn(KeyRun(cfg, events).log, from, from + cfg.period) <= 2 * Max(0, cfg.limit)
  {
    var s, newest := KeyRun(cfg, events), Newest(cfg, events);
    RunConsistent(cfg, events);
    if newest.Some? {
      var first, second := AtMostTwoEpochs(cfg, s, newest.value, from);
      TwoEpochs(s.log, from, from + cfg.period, first, second);
    }
  }

  ghost predicate Bounded(cfg: CounterCfg, events: seq<KeyEvent>)
  {
    forall from, to :: to == from + cfg.period ==> UnitsIn(KeyRun(cfg, events).log, from, to) <= 2 * Max(0, cfg.limit)
  }

  lemma ForwardBounded(cfg: CounterCfg, events: seq<KeyEvent>)
    requires cfg.period > 0 && Forward(cfg, events)
    ensures Bounded(cfg, events)
  {
    forall from, to | to == from + cfg.period
      ensures UnitsIn(KeyRun(cfg, events).log, from, to) <= 2 * Max(0, cfg.limit)
    {
      SlidingWindow(cfg, events, from);
    }
  }

  /**
    A clock that never goes back behind an earlier reading or timestamp. It is more than the bound
    needs, since most touches read no clock.
   */
  ghost predicate Causal(events: seq<KeyEvent>)
  {
    forall i, j :: 0 <= i < j < |events| && !events[i].Drop? && !events[j].Drop? ==>
      events[i].clock <= events[j].clock && (events[i].Touch? ==> events[i].now <= events[j].clock)
  }

  /** The newest window does not start after what has been read and stamped so far. */
  lemma {:induction false} NewestBelow(cfg: CounterCfg, events: seq<KeyEvent>, clock: int)
    requires cfg.period > 0
    requires forall e <- events :: !e.Drop? ==> e.clock <= clock && (e.Touch? ==> e.now <= clock)
    ensures Newest(cfg, events).Some? ==> Newest(cfg, events).value <= Align(clock, cfg.period)
    ensures var c := KeyRun(cfg, events).counter; c.Some? ==> c.value.period == cfg.period
  {
    if events != [] {
      var before, e := events[..|events| - 1], events[|events| - 1];
      assert events == before + [e];
      NewestBelow(cfg, before, clock);
      if !e.Drop? {
        AlignMonotone(e.clock, clock, cfg.period);
        if e.Touch? {
          AlignMonotone(e.now, clock, cfg.period);
        }
        StepStart(cfg, KeyRun(cfg, before), e);
      }
    }
  }

  /** Where an event can put the current window: it stays, or it is aligned to the clock or the timestamp. */
  lemma StepStart(cfg: CounterCfg, s: KeyState, e: KeyEvent)
    requires cfg.period > 0 && !e.Drop? && (s.counter.Some? ==> s.counter.value.period == cfg.period)
    ensures var c := KeyStep(cfg, s, e).counter;
            && c.Some? && c.value.period == cfg.period
            && (|| (s.counter.Some? && c.value.start == s.counter.value.start)
                || c.value.start == Align(e.clock, cfg.period)
                || (e.Touch? && c.value.start == Align(e.now, cfg.period)))
  {
  }

  lemma CausalIsForward(cfg: CounterCfg, events: seq<KeyEvent>)
    requires cfg.period > 0 && Causal(events)
    ensures Forward(cfg, events)
  {
    forall i | 0 <= i < |events|
      ensures ForwardAt(cfg, events, i)
    {
      if !events[i].Drop? {
        NewestBelow(cfg, events[..i], events[i].clock);
      }
    }
  }

  /** A counter that is never dropped is created once, so nothing is asked of the clock. */
  lemma NeverDropped(cfg: CounterCfg, events: seq<KeyEvent>)
    requires cfg.period != 0 && forall e <- events :: !e.Drop?
    ensures Forward(cfg, events)
  {
    forall i | 0 <= i < |events|
      ensures ForwardAt(cfg, events, i)
    {
      if i > 0 {
        assert events[..i][i - 1] == events[i - 1] && events[i - 1] in events;
      }
    }
  }

  /** A time less than a period behind a multiple is aligned to it; a multiple is its own alignment. */
  lemma AlignIs(start: int, r: nat, period: int)
    requires period > 0 && Multiple(start, period) && r < period && (start >= 0 || r == 0)
    ensures Align(start + r, period) == start
  {
    AlignProperties(start + r, period);
    if start >= 0 {
      SameStart(Align(start + r, period), start, start + r, period);
    } else if start < Align(start, period) {
      MultiplesApart(start, Align(start, period), period);
    }
  }

  lemma SameStart(a: int, b: int, t: int, period: int)
    requires period > 0 && Multiple(a, period) && Multiple(b, period)
    requires a <= t < a + period && b <= t < b + period
    ensures a == b
  {
    if a < b {
      MultiplesApart(a, b, period);
    } else if b < a {
      MultiplesApart(b, a, period);
    }
  }

  lemma RunSnoc(cfg: CounterCfg, events: seq<KeyEvent>, e: KeyEvent)
    ensures KeyRun(cfg, events + [e]) == KeyStep(cfg, KeyRun(cfg, events), e)
  {
    assert (events + [e])[..|events|] == events;
  }

  lemma UnitsSnoc(log: seq<Accepted>, a: Accepted, from: int, to: int)
    ensures UnitsIn(log + [a], from, to) == UnitsIn(log, from, to) + if from <= a.time < to then a.units else 0
  {
    assert (log + [a])[..|log|] == log;
  }

  lemma WindowsAround(b: int, period: int)
    requires period > 1 && b >= 0 && Multiple(b, period)
    ensures Align(b - period, period) == b - period && Align(b + 1, period) == b
  {
    var k :| Times(k, period) == b;
    assert Times(k - 1, period) == b - period;
    AlignIs(b - period, 0, period);
    AlignIs(b, 1, period);
  }

  /** Two fills of a limit around the window start `b`, all within two milliseconds. */
  lemma FillTwice(cfg: CounterCfg, b: int, to: int) returns (events: seq<KeyEvent>)
    requires cfg.period > 1 && cfg.limit >= 0 && b >= 0 && Multiple(b, cfg.period) && to >= b + 2
    ensures |events| == 3 && Causal(events) && forall e <- events :: !e.Drop?
    ensures KeyRun(cfg, events).counter == Some(Counter(b, cfg.limit, cfg.period, cfg.limit))
    ensures UnitsIn(KeyRun(cfg, events).log, b, to) == 2 * cfg.limit
  {
    var p, l := cfg.period, cfg.limit;
    WindowsAround(b, p);
    var create, fill, refill := Create(b - p), Touch(l, b, b), Touch(l, b + 1, b + 1);
    events := [] + [create] + [fill] + [refill];
    RunSnoc(cfg, [], create);
    assert KeyRun(cfg, [] + [create]) == KeyState(Some(Counter(b - p, l, p, 0)), []);
    RunSnoc(cfg, [] + [create], fill);
    assert KeyRun(cfg, [] + [create] + [fill])
        == KeyState(Some(Counter(b - p, l, p, l)), [] + [Accepted(b, l, b - p)]);
    RunSnoc(cfg, [] + [create] + [fill], refill);
    assert KeyRun(cfg, events)
        == KeyState(Some(Counter(b, l, p, l)), [] + [Accepted(b, l, b - p)] + [Accepted(b + 1, l, b)]);
    UnitsSnoc([], Accepted(b, l, b - p), b, to);
    UnitsSnoc([] + [Accepted(b, l, b - p)], Accepted(b + 1, l, b), b, to);
  }

  /** The bound is reached, within two milliseconds, for every limit. */
  lemma SlidingWindowTight(cfg: CounterCfg) returns (events: seq<KeyEvent>, from: int)
    requires cfg.period > 1 && cfg.limit >= 0
    ensures Forward(cfg, events)
    ensures UnitsIn(KeyRun(cfg, events).log, from, from + 2) == 2 * cfg.limit
  {
    from := cfg.period;
    assert Times(1, cfg.period) == from;
    events := FillTwice(cfg, from, from + 2);
    CausalIsForward(cfg, events);
  }

  /** A history that goes forward, but for event `i`: it creates the counter at `b` behind the newest window `a`. */
  ghost predicate SetBack(cfg: CounterCfg, events: seq<KeyEvent>, i: nat, a: int, b: int)
    requires cfg.period != 0
  {
    && i < |events| && CreatesAt(cfg, events, i)
    && Newest(cfg, events[..i]) == Some(a) && Align(events[i].clock, cfg.period) == b
    && forall j :: 0 <= j < |events| && j != i ==> ForwardAt(cfg, events, j)
  }

  /**
    Going forward is exactly what the bound needs: a creation in window `b` while the newest window is
    `a` keeps the bound in every history around it if and only if `b` is not behind `a`, for every
    limit that lets something pass and every period above one millisecond.
   */
  lemma ForwardIsExact(cfg: CounterCfg, a: int, b: int)
    requires cfg.period > 1 && cfg.limit >= 1 && b >= 0 && Multiple(a, cfg.period) && Multiple(b, cfg.period)
    ensures (forall events, i: nat :: SetBack(cfg, events, i, a, b) ==> Bounded(cfg, events)) <==> a <= b
  {
    if a <= b {
      forall events, i: nat | SetBack(cfg, events, i, a, b)
        ensures Bounded(cfg, events)
      {
        assert ForwardAt(cfg, events, i);
        ForwardBounded(cfg, events);
      }
    } else {
      var events := ClockMustNotGoBack(cfg, a, b);
      assert UnitsIn(KeyRun(cfg, events).log, b, b + cfg.period) > 2 * cfg.limit;
      assert !Bounded(cfg, events);
    }
  }

  /**
    Behind the newest window the bound fails: a refused update rolls the window, the idle counter is
    dropped, and an earlier clock creates it in a window that was already used up.
   */
  lemma ClockMustNotGoBack(cfg: CounterCfg, a: int, b: int) returns (events: seq<KeyEvent>)
    requires cfg.period > 1 && cfg.limit >= 1 && 0 <= b < a && Multiple(a, cfg.period) && Multiple(b, cfg.period)
    ensures SetBack(cfg, events, 5, a, b)
    ensures UnitsIn(KeyRun(cfg, events).log, b, b + cfg.period) == 3 * cfg.limit
  {
    var p, l := cfg.period, cfg.limit;
    var filled := FillTwice(cfg, b, b + p);
    var refused, again := Touch(l + 1, a + 1, a + 1), Touch(l, b + 1, b);
    var rolled := filled + [refused];
    var dropped := rolled + [Drop];
    MultiplesApart(b, a, p);
    AlignIs(a, 1, p);
    RunSnoc(cfg, filled, refused);
    RunSnoc(cfg, rolled, Drop);
    assert KeyRun(cfg, dropped) == KeyState(None, KeyRun(cfg, filled).log);
    events := dropped + [again];
    RunSnoc(cfg, dropped, again);
    AlignIs(b, 0, p);
    UnitsSnoc(KeyRun(cfg, filled).log, Accepted(b + 1, l, b), b, b + p);
    assert events[..5] == dropped && dropped[..4] == rolled;
    NeverDropped(cfg, rolled);
    forall j | 0 <= j < 5
      ensures ForwardAt(cfg, events, j)
    {
      if j < 4 {
        assert ForwardAt(cfg, rolled, j) && events[..j] == rolled[..j];
      }
    }
  }

  /** Every touch of a history, as an accepted update. */
  function AllTouches(events: seq<KeyEvent>): (log: seq<Accepted>)
  {
    if events == [] then []
    else
      var e := events[|events| - 1];
      AllTouches(events[..|events| - 1]) + if e.Touch? then [Accepted(e.now, e.n, 0)] else []
  }

  /** A counter without a period is no limit: over every history it accepts every update, and counts none. */
  lemma {:induction false} Unlimited(cfg: CounterCfg, events: seq<KeyEvent>)
    requires cfg.period == 0
    ensures var s := KeyRun(cfg, events);
            s.log == AllTouches(events) && (s.counter.Some? ==> s.counter.value == Counter(0, cfg.limit, 0, 0))
    decreases |events|
  {
    if events != [] {
      Unlimited(cfg, events[..|events| - 1]);
    }
  }
}
