/** The circuit breaker used by one caller at a time (src/handler/reverse_proxy/circuit_breaker.rs). */
module CircuitBreaker {
  import opened Common

  datatype Phase = Closed | Open | HalfOpen

  datatype Config = Config(maxFailures: nat, windowSecs: nat, failTimeout: nat)

  /** The four atomic fields; times are whole Unix seconds. */
  datatype Breaker = Breaker(phase: Phase, failures: nat, windowStart: nat, openSince: nat)

  /** `saturating_sub`. */
  function Since(start: nat, now: nat): nat {
    if now >= start then now - start else 0
  }

  function NewBreaker(now: nat): Breaker {
    Breaker(Closed, 0, now, 0)
  }

  predicate TimedOut(b: Breaker, cfg: Config, now: nat) {
    Since(b.openSince, now) >= cfg.failTimeout
  }

  predicate Allows(b: Breaker, cfg: Config, now: nat) {
    b.phase == Closed || (b.phase == Open && TimedOut(b, cfg, now))
  }

  /** Asking is not free: an open breaker past its timeout becomes half-open. */
  function AfterAllow(b: Breaker, cfg: Config, now: nat): Breaker {
    if b.phase == Open && TimedOut(b, cfg, now) then b.(phase := HalfOpen) else b
  }

  function WithWindow(b: Breaker, cfg: Config, now: nat): Breaker {
    if Since(b.windowStart, now) >= cfg.windowSecs then b.(failures := 0, windowStart := now) else b
  }

  function AfterSuccess(b: Breaker, cfg: Config, now: nat): Breaker {
    match b.phase
    case HalfOpen => Breaker(Closed, 0, now, b.openSince)
    case Closed => WithWindow(b, cfg, now)
    case Open => b
  }

  function AfterFailure(b: Breaker, cfg: Config, now: nat): Breaker {
    match b.phase
    case HalfOpen => b.(phase := Open, openSince := now)
    case Closed =>
      var w := WithWindow(b, cfg, now);
      var counted := w.(failures := w.failures + 1);
      if counted.failures >= cfg.maxFailures then counted.(phase := Open, openSince := now) else counted
    case Open => b
  }

  class SharedBreaker {
    const cfg: Config
    var phase: Phase
    var failureCount: nat
    var windowStart: nat
    var openSince: nat

    function View(): Breaker
      reads this
    {
      Breaker(phase, failureCount, windowStart, openSince)
    }

    constructor (cfg: Config, now: nat)
      ensures this.cfg == cfg && View() == NewBreaker(now)
    {
      this.cfg := cfg;
      phase, failureCount, windowStart, openSince := Closed, 0, now, 0;
    }

    method Allow(now: nat) returns (ok: bool)
      modifies this
      ensures ok == Allows(old(View()), cfg, now)
      ensures View() == AfterAllow(old(View()), cfg, now)
    {
      match phase
      case Closed => ok := true;
      case Open =>
        if Since(openSince, now) >= cfg.failTimeout {
          phase := HalfOpen;
          ok := true;
        } else {
          ok := false;
        }
      case HalfOpen => ok := false;
    }

    method MaybeResetWindow(now: nat)
      modifies this
      ensures View() == WithWindow(old(View()), cfg, now)
    {
      if Since(windowStart, now) >= cfg.windowSecs {
        failureCount := 0;
        windowStart := now;
      }
    }

    method RecordSuccess(now: nat)
      modifies this
      ensures View() == AfterSuccess(old(View()), cfg, now)
    {
      match phase
      case HalfOpen =>
        failureCount := 0;
        windowStart := now;
        phase := Closed;
      case Closed => MaybeResetWindow(now);
      case Open =>
    }

    method RecordFailure(now: nat)
      modifies this
      ensures View() == AfterFailure(old(View()), cfg, now)
    {
      match phase
      case HalfOpen =>
        openSince := now;
        phase := Open;
      case Closed =>
        MaybeResetWindow(now);
        failureCount := failureCount + 1;
        if failureCount >= cfg.maxFailures {
          openSince := now;
          phase := Open;
        }
      case Open =>
    }
  }

  // ----- whole runs

  datatype Event = Ask(now: nat) | Success(now: nat) | Failure(now: nat)

  function Step(b: Breaker, cfg: Config, e: Event): Breaker {
    match e
    case Ask(now) => AfterAllow(b, cfg, now)
    case Success(now) => AfterSuccess(b, cfg, now)
    case Failure(now) => AfterFailure(b, cfg, now)
  }

  function Run(b: Breaker, cfg: Config, es: seq<Event>): Breaker {
    if es == [] then b else Step(Run(b, cfg, es[..|es| - 1]), cfg, es[|es| - 1])
  }

  /** The clock never runs backwards during the run. */
  ghost predicate Timed(start: nat, es: seq<Event>) {
    && (forall i :: 0 <= i < |es| ==> start <= es[i].now)
    && (forall i, j :: 0 <= i < j < |es| ==> es[i].now <= es[j].now)
  }

  /** Failures recorded while the breaker was closed, at `from` or later. */
  function ClosedFailures(b: Breaker, cfg: Config, es: seq<Event>, from: nat): nat {
    if es == [] then 0
    else
      var before := es[..|es| - 1];
      var e := es[|es| - 1];
      ClosedFailures(b, cfg, before, from)
      + if e.Failure? && Run(b, cfg, before).phase == Closed && e.now >= from then 1 else 0
  }

  /** The event starts a new window: a closed breaker finds the old one over, or a probe has succeeded. */
  predicate Restarts(b: Breaker, cfg: Config, e: Event) {
    match e
    case Ask(_) => false
    case Success(now) => b.phase == HalfOpen || (b.phase == Closed && Since(b.windowStart, now) >= cfg.windowSecs)
    case Failure(now) => b.phase == Closed && Since(b.windowStart, now) >= cfg.windowSecs
  }

  /** The last event that started a window, if any did. */
  function LastRestart(b: Breaker, cfg: Config, es: seq<Event>): (k: Option<nat>)
    ensures k.Some? ==> k.value < |es|
  {
    if es == [] then None
    else
      var n := |es| - 1;
      if Restarts(Run(b, cfg, es[..n]), cfg, es[n]) then Some(n) else LastRestart(b, cfg, es[..n])
  }

  /** The position from which the failures of the current window count. */
  function WindowFrom(b: Breaker, cfg: Config, es: seq<Event>): (k: nat)
    ensures k <= |es|
  {
    var k := LastRestart(b, cfg, es);
    if k.Some? then k.value else 0
  }

  predicate Counts(b: Breaker, cfg: Config, es: seq<Event>, i: nat)
    requires i < |es|
  {
    es[i].Failure? && Run(b, cfg, es[..i]).phase == Closed
  }

  /** The failures recorded while closed, from position `k` on. */
  function FailuresFrom(b: Breaker, cfg: Config, es: seq<Event>, k: nat): nat {
    if |es| <= k then 0
    else
      var n := |es| - 1;
      FailuresFrom(b, cfg, es[..n], k) + if Counts(b, cfg, es, n) then 1 else 0
  }

  lemma NothingFrom(b: Breaker, cfg: Config, es: seq<Event>)
    ensures FailuresFrom(b, cfg, es, |es|) == 0
  {
  }

  /** After every run the count is exactly the failures recorded while closed since the current window started. */
  lemma {:induction false} CountIsExact(start: nat, cfg: Config, es: seq<Event>)
    ensures var b := NewBreaker(start);
            Run(b, cfg, es).failures == FailuresFrom(b, cfg, es, WindowFrom(b, cfg, es))
    decreases |es|
  {
    if es != [] {
      var n := |es| - 1;
      CountIsExact(start, cfg, es[..n]);
      NothingFrom(NewBreaker(start), cfg, es[..n]);
    }
  }

  /** The window starts at the time of the event that started it, or when the breaker was made if none did. */
  lemma {:induction false} WindowIsExact(start: nat, cfg: Config, es: seq<Event>)
    requires Timed(start, es)
    ensures var k, w := WindowFrom(NewBreaker(start), cfg, es), Run(NewBreaker(start), cfg, es).windowStart;
            && w == (if LastRestart(NewBreaker(start), cfg, es).Some? then es[k].now else start)
            && (forall i :: k <= i < |es| ==> w <= es[i].now)
            && w <= if es == [] then start else es[|es| - 1].now
    decreases |es|
  {
    if es != [] {
      var n := |es| - 1;
      WindowIsExact(start, cfg, es[..n]);
      assert n > 0 ==> es[n - 1].now <= es[n].now;
      WindowStep(Run(NewBreaker(start), cfg, es[..n]), cfg, es[n]);
    }
  }

  lemma WindowStep(b: Breaker, cfg: Config, e: Event)
    ensures Step(b, cfg, e).windowStart == if Restarts(b, cfg, e) then e.now else b.windowStart
  {
  }

  /** The failures of the current window, with one more recorded now. */
  function CountWith(start: nat, cfg: Config, es: seq<Event>, now: nat): nat {
    var b, all := NewBreaker(start), es + [Failure(now)];
    FailuresFrom(b, cfg, all, WindowFrom(b, cfg, all))
  }

  /** A failure recorded while closed opens the breaker if and only if it makes the limit of failures in its window. */
  lemma TripsExactly(start: nat, cfg: Config, es: seq<Event>, now: nat)
    requires Run(NewBreaker(start), cfg, es).phase == Closed
    ensures Run(NewBreaker(start), cfg, es + [Failure(now)]).phase == Open
       <==> CountWith(start, cfg, es, now) >= cfg.maxFailures
  {
    var all := es + [Failure(now)];
    assert all[..|es|] == es;
    CountIsExact(start, cfg, all);
  }

  /** While closed the count is below the limit. */
  lemma {:induction false} ClosedIsBelow(start: nat, cfg: Config, es: seq<Event>)
    requires cfg.maxFailures >= 1
    ensures var r := Run(NewBreaker(start), cfg, es); r.phase == Closed ==> r.failures < cfg.maxFailures
    decreases |es|
  {
    if es != [] {
      ClosedIsBelow(start, cfg, es[..|es| - 1]);
    }
  }

  /** Every failure from position `k` on happens at or after its time, so counting by time finds them all. */
  lemma {:induction false} FailuresByTime(start: nat, cfg: Config, es: seq<Event>, k: nat, from: nat)
    requires forall i :: k <= i < |es| ==> from <= es[i].now
    ensures FailuresFrom(NewBreaker(start), cfg, es, k) <= ClosedFailures(NewBreaker(start), cfg, es, from)
    decreases |es|
  {
    if |es| > k {
      FailuresByTime(start, cfg, es[..|es| - 1], k, from);
    }
  }

  /** Every trip is backed: at least the limit of failures were recorded while closed, all within the last window. */
  lemma TripIsBacked(start: nat, cfg: Config, es: seq<Event>, now: nat)
    requires Timed(start, es + [Failure(now)])
    requires Run(NewBreaker(start), cfg, es).phase == Closed
    requires Run(NewBreaker(start), cfg, es + [Failure(now)]).phase == Open
    ensures var ws := Run(NewBreaker(start), cfg, es + [Failure(now)]).windowStart;
            && ws <= now && (ws == now || now - ws < cfg.windowSecs)
            && ClosedFailures(NewBreaker(start), cfg, es + [Failure(now)], ws) >= cfg.maxFailures
  {
    var b, all := NewBreaker(start), es + [Failure(now)];
    assert all[..|es|] == es && all[|es|].now == now;
    TripsExactly(start, cfg, es, now);
    WindowIsExact(start, cfg, all);
    var k := WindowFrom(b, cfg, all);
    FailuresByTime(start, cfg, all, k, Run(b, cfg, all).windowStart);
  }

  // ----- the window is fixed, not sliding

  /** Failures at the given times and nothing else. */
  function Burst(ts: seq<nat>): (es: seq<Event>)
    ensures |es| == |ts| && forall i :: 0 <= i < |ts| ==> es[i] == Failure(ts[i])
  {
    seq(|ts|, i requires 0 <= i < |ts| => Failure(ts[i]))
  }

  /** How many of the times fall into the window that was running before. */
  function Inside(b: Breaker, cfg: Config, ts: seq<nat>): (k: nat)
    ensures k <= |ts|
    ensures forall i :: 0 <= i < k ==> Since(b.windowStart, ts[i]) < cfg.windowSecs
    ensures k < |ts| ==> Since(b.windowStart, ts[k]) >= cfg.windowSecs
  {
    if ts == [] || Since(b.windowStart, ts[0]) >= cfg.windowSecs then 0 else 1 + Inside(b, cfg, ts[1..])
  }

  /** As many failures as the limit, all within one window length, on a closed breaker. */
  ghost predicate IsBurst(b: Breaker, cfg: Config, ts: seq<nat>) {
    && b.phase == Closed && b.failures < cfg.maxFailures && |ts| == cfg.maxFailures
    && (forall i, j :: 0 <= i < j < |ts| ==> ts[i] <= ts[j])
    && b.windowStart <= ts[0] && ts[|ts| - 1] - ts[0] < cfg.windowSecs
  }

  /** The state after the first `i` failures of a burst of which `k` fall into the running window. */
  ghost predicate MidBurst(b: Breaker, cfg: Config, ts: seq<nat>, k: nat, i: nat, r: Breaker)
    requires k <= |ts| && i <= |ts|
  {
    if i <= k then
      if b.failures + i < cfg.maxFailures then r == b.(failures := b.failures + i) else r.phase == Open
    else if k > 0 && b.failures + k >= cfg.maxFailures then r.phase == Open
    else
      && r.failures == i - k && r.windowStart == ts[k]
      && r.phase == if i - k >= cfg.maxFailures then Open else Closed
  }

  lemma InsideStep(b: Breaker, cfg: Config, ts: seq<nat>, i: nat, r: Breaker)
    requires IsBurst(b, cfg, ts) && i < Inside(b, cfg, ts) && MidBurst(b, cfg, ts, Inside(b, cfg, ts), i, r)
    ensures MidBurst(b, cfg, ts, Inside(b, cfg, ts), i + 1, AfterFailure(r, cfg, ts[i]))
  {
  }

  lemma OutsideStep(b: Breaker, cfg: Config, ts: seq<nat>, i: nat, r: Breaker)
    requires IsBurst(b, cfg, ts) && Inside(b, cfg, ts) <= i < |ts|
    requires MidBurst(b, cfg, ts, Inside(b, cfg, ts), i, r)
    ensures MidBurst(b, cfg, ts, Inside(b, cfg, ts), i + 1, AfterFailure(r, cfg, ts[i]))
  {
    var k := Inside(b, cfg, ts);
    assert i > k ==> ts[k] <= ts[i] && ts[0] <= ts[k];
    assert ts[i] <= ts[|ts| - 1];
    assert i > k ==> Since(ts[k], ts[i]) < cfg.windowSecs;
  }

  lemma MidBurstStep(b: Breaker, cfg: Config, ts: seq<nat>, i: nat, r: Breaker)
    requires IsBurst(b, cfg, ts) && i < |ts| && MidBurst(b, cfg, ts, Inside(b, cfg, ts), i, r)
    ensures MidBurst(b, cfg, ts, Inside(b, cfg, ts), i + 1, AfterFailure(r, cfg, ts[i]))
  {
    if i < Inside(b, cfg, ts) {
      InsideStep(b, cfg, ts, i, r);
    } else {
      OutsideStep(b, cfg, ts, i, r);
    }
  }

  lemma BurstPrefix(b: Breaker, cfg: Config, ts: seq<nat>, i: nat)
    requires i < |ts|
    ensures Run(b, cfg, Burst(ts)[..i + 1]) == AfterFailure(Run(b, cfg, Burst(ts)[..i]), cfg, ts[i])
  {
    var es := Burst(ts);
    assert es[..i + 1][..i] == es[..i] && es[..i + 1][i] == Failure(ts[i]);
  }

  lemma {:induction false} BurstStep(b: Breaker, cfg: Config, ts: seq<nat>, i: nat)
    requires IsBurst(b, cfg, ts) && i <= |ts|
    ensures MidBurst(b, cfg, ts, Inside(b, cfg, ts), i, Run(b, cfg, Burst(ts)[..i]))
  {
    if i == 0 {
      assert Burst(ts)[..0] == [];
    } else {
      var j := i - 1;
      BurstStep(b, cfg, ts, j);
      BurstPrefix(b, cfg, ts, j);
      MidBurstStep(b, cfg, ts, j, Run(b, cfg, Burst(ts)[..j]));
      assert j + 1 == i;
    }
  }

  /**
   * As many failures as the limit within one window length trip the breaker if and only if none of them falls into the
   * running window, or those that do, with the ones counted before, already make the limit. When they straddle the end
   * of the running window, the count starts again in the middle and the breaker stays closed.
   */
  lemma BurstTrips(b: Breaker, cfg: Config, ts: seq<nat>)
    requires IsBurst(b, cfg, ts)
    ensures Run(b, cfg, Burst(ts)).phase == Open
       <==> Inside(b, cfg, ts) == 0 || b.failures + Inside(b, cfg, ts) >= cfg.maxFailures
  {
    BurstStep(b, cfg, ts, |ts|);
    assert Burst(ts)[..|ts|] == Burst(ts);
  }

  /** When the breaker last went from closed or half-open to open. */
  function OpenedAt(b: Breaker, cfg: Config, es: seq<Event>): nat {
    if es == [] then 0
    else
      var n := |es| - 1;
      if Run(b, cfg, es[..n]).phase != Open && Run(b, cfg, es).phase == Open then es[n].now
      else OpenedAt(b, cfg, es[..n])
  }

  /** After every run that ends open, requests are refused exactly until the timeout has passed since it opened. */
  lemma {:induction false} RefusesUntilTimeout(start: nat, cfg: Config, es: seq<Event>)
    requires Run(NewBreaker(start), cfg, es).phase == Open
    ensures var b := NewBreaker(start);
            forall now :: Allows(Run(b, cfg, es), cfg, now) <==> Since(OpenedAt(b, cfg, es), now) >= cfg.failTimeout
    decreases |es|
  {
    var n := |es| - 1;
    if Run(NewBreaker(start), cfg, es[..n]).phase == Open {
      RefusesUntilTimeout(start, cfg, es[..n]);
    }
  }

  /** Seconds since the breaker last opened, zero if the clock is behind. */
  function SinceOpened(start: nat, cfg: Config, es: seq<Event>, now: nat): nat {
    var o := OpenedAt(NewBreaker(start), cfg, es);
    if now >= o then now - o else 0
  }

  /** After every run, a request is admitted while closed, while open once the timeout has passed, never half-open. */
  lemma AllowExactly(start: nat, cfg: Config, es: seq<Event>, now: nat)
    ensures var r := Run(NewBreaker(start), cfg, es);
            Allows(r, cfg, now) <==>
            r.phase == Closed || (r.phase == Open && SinceOpened(start, cfg, es, now) >= cfg.failTimeout)
  {
    if Run(NewBreaker(start), cfg, es).phase == Open {
      RefusesUntilTimeout(start, cfg, es);
    }
  }

  /**
   * The phase after every run and one more event. Closed opens on the failure that makes the limit of its window; open
   * becomes half-open on the first request after the timeout; half-open closes on a success and opens on a failure.
   */
  lemma PhaseExactly(start: nat, cfg: Config, es: seq<Event>, e: Event)
    ensures Run(NewBreaker(start), cfg, []).phase == Closed
    ensures Run(NewBreaker(start), cfg, es + [e]).phase ==
            match Run(NewBreaker(start), cfg, es).phase
            case Closed => (if e.Failure? && CountWith(start, cfg, es, e.now) >= cfg.maxFailures then Open else Closed)
            case Open => (if e.Ask? && SinceOpened(start, cfg, es, e.now) >= cfg.failTimeout then HalfOpen else Open)
            case HalfOpen => (if e.Success? then Closed else if e.Failure? then Open else HalfOpen)
  {
    assert (es + [e])[..|es|] == es;
    var r := Run(NewBreaker(start), cfg, es);
    if r.phase == Closed && e.Failure? {
      TripsExactly(start, cfg, es, e.now);
    } else if r.phase == Open {
      AllowExactly(start, cfg, es, e.now);
    }
  }

  /**
   * An open breaker refuses everything and stays as it is until its timeout has passed; the first request after that
   * is admitted.
   */
  lemma {:induction false} OpenHolds(b: Breaker, cfg: Config, es: seq<Event>)
    requires b.phase == Open
    requires forall i :: 0 <= i < |es| ==> !TimedOut(b, cfg, es[i].now)
    ensures Run(b, cfg, es) == b
    ensures forall now :: Allows(Run(b, cfg, es), cfg, now) <==> Since(b.openSince, now) >= cfg.failTimeout
    decreases |es|
  {
    if es != [] {
      OpenHolds(b, cfg, es[..|es| - 1]);
    }
  }

  /** A half-open breaker refuses every request until an outcome is recorded, however much time passes. */
  lemma {:induction false} HalfOpenWaits(b: Breaker, cfg: Config, es: seq<Event>)
    requires b.phase == HalfOpen
    requires forall i :: 0 <= i < |es| ==> es[i].Ask?
    ensures Run(b, cfg, es) == b
    ensures forall now :: !Allows(Run(b, cfg, es), cfg, now)
    decreases |es|
  {
    if es != [] {
      HalfOpenWaits(b, cfg, es[..|es| - 1]);
    }
  }

  /** Two failures one second apart, with a limit of two in ten seconds: the window ends between them. */
  lemma WindowIsFixed()
    ensures Run(NewBreaker(0), Config(2, 10, 30), [Failure(9), Failure(10)]).phase == Closed
    ensures Run(NewBreaker(0), Config(2, 10, 30), [Failure(8), Failure(9)]).phase == Open
  {
    var b, cfg := NewBreaker(0), Config(2, 10, 30);
    assert Inside(b, cfg, [9, 10]) == 1 by {
      assert [9, 10][1..] == [10];
    }
    assert Inside(b, cfg, [8, 9]) == 2 by {
      assert [8, 9][1..] == [9] && [9][1..] == [];
    }
    BurstTrips(b, cfg, [8, 9]);
    BurstStep(b, cfg, [9, 10], 2);
    assert Burst([8, 9]) == [Failure(8), Failure(9)];
    assert Burst([9, 10])[..2] == [Failure(9), Failure(10)];
  }
}
