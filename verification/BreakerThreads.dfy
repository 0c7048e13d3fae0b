/**
 * The same breaker shared by any number of threads, one atomic access at a time
 * (src/handler/reverse_proxy/circuit_breaker.rs).
 */
module BreakerThreads {
  import opened CircuitBreaker

  /** What a thread does once the window check is over. */
  datatype Then = Finish | Count

  /** The next atomic access of a thread, with the values it has loaded so far. */
  datatype Pc =
    | Idle
    // allow
    | LoadForAllow
    | LoadOpenSince
    | CompareClock(openSince: nat)
    | Exchange(openSince: nat)
    // record_success and record_failure
    | LoadForSuccess
    | LoadForFailure
    // probe succeeded
    | ClearFailures
    | ReadClockForWindow
    | StoreWindow(now: nat)
    | StoreClosed
    // maybe_reset_window
    | LoadWindow(next: Then)
    | CheckWindow(start: nat, next: Then)
    | ResetFailures(next: Then)
    | ReadClockForReset(next: Then)
    | StoreReset(now: nat, next: Then)
    // count a failure, open the breaker
    | FetchAdd
    | ReadClockForOpen
    | StoreOpenSince(now: nat)
    | StoreOpen

  /** What the shared state word goes through. */
  datatype Mark = Opened | Probe | ClosedAgain

  datatype World = World(cfg: Config, clock: nat, shared: Breaker, threads: seq<Pc>, log: seq<Mark>)

  /**
   * One choice of the scheduler: the clock moves on, an idle thread starts a call, or a thread makes its next access.
   */
  datatype Move = Tick | Call(thread: nat, pc: Pc) | Access(thread: nat)

  function After(next: Then): Pc {
    if next == Finish then Idle else FetchAdd
  }

  function Continue(w: World, i: nat, pc: Pc): World
    requires i < |w.threads|
  {
    w.(threads := w.threads[i := pc])
  }

  /** The effect of one atomic access. */
  function AccessBy(w: World, i: nat): World
    requires i < |w.threads|
  {
    var b := w.shared;
    match w.threads[i]
    case Idle => w
    case LoadForAllow => Continue(w, i, if b.phase == Open then LoadOpenSince else Idle)
    case LoadOpenSince => Continue(w, i, CompareClock(b.openSince))
    case CompareClock(since) =>
      Continue(w, i, if Since(since, w.clock) >= w.cfg.failTimeout then Exchange(since) else Idle)
    case Exchange(_) =>
      if b.phase == Open then Continue(w, i, Idle).(shared := b.(phase := HalfOpen), log := w.log + [Probe])
      else Continue(w, i, Idle)
    case LoadForSuccess =>
      Continue(w, i,
               if b.phase == HalfOpen then ClearFailures
               else if b.phase == Closed then LoadWindow(Finish)
               else Idle)
    case LoadForFailure =>
      Continue(w, i,
               if b.phase == HalfOpen then ReadClockForOpen
               else if b.phase == Closed then LoadWindow(Count)
               else Idle)
    case ClearFailures => Continue(w, i, ReadClockForWindow).(shared := b.(failures := 0))
    case ReadClockForWindow => Continue(w, i, StoreWindow(w.clock))
    case StoreWindow(now) => Continue(w, i, StoreClosed).(shared := b.(windowStart := now))
    case StoreClosed => Continue(w, i, Idle).(shared := b.(phase := Closed), log := w.log + [ClosedAgain])
    case LoadWindow(next) => Continue(w, i, CheckWindow(b.windowStart, next))
    case CheckWindow(start, next) =>
      Continue(w, i, if Since(start, w.clock) >= w.cfg.windowSecs then ResetFailures(next) else After(next))
    case ResetFailures(next) => Continue(w, i, ReadClockForReset(next)).(shared := b.(failures := 0))
    case ReadClockForReset(next) => Continue(w, i, StoreReset(w.clock, next))
    case StoreReset(now, next) => Continue(w, i, After(next)).(shared := b.(windowStart := now))
    case FetchAdd =>
      Continue(w, i, if b.failures + 1 >= w.cfg.maxFailures then ReadClockForOpen else Idle)
        .(shared := b.(failures := b.failures + 1))
    case ReadClockForOpen => Continue(w, i, StoreOpenSince(w.clock))
    case StoreOpenSince(now) => Continue(w, i, StoreOpen).(shared := b.(openSince := now))
    case StoreOpen =>
      Continue(w, i, Idle).(shared := b.(phase := Open), log := if b.phase == Open then w.log else w.log + [Opened])
  }

  predicate IsCall(pc: Pc) {
    pc == LoadForAllow || pc == LoadForSuccess || pc == LoadForFailure
  }

  function Next(w: World, m: Move): World {
    match m
    case Tick => w.(clock := w.clock + 1)
    case Call(i, pc) => if i < |w.threads| && w.threads[i] == Idle && IsCall(pc) then Continue(w, i, pc) else w
    case Access(i) => if i < |w.threads| then AccessBy(w, i) else w
  }

  function Run(w: World, ms: seq<Move>): World {
    if ms == [] then w else Next(Run(w, ms[..|ms| - 1]), ms[|ms| - 1])
  }

  /** A new breaker and idle threads, as many as you like. */
  predicate Initial(w: World) {
    w.shared.phase == Closed && w.log == [] && forall i :: 0 <= i < |w.threads| ==> w.threads[i] == Idle
  }

  /** An opening not yet used by a probe. */
  ghost predicate Armed(log: seq<Mark>) {
    exists k :: 0 <= k < |log| && log[k] == Opened && forall j :: k < j < |log| ==> log[j] != Probe
  }

  /** Every probe has an opening of its own: one before it, and one between it and the probe before. */
  ghost predicate OneProbePerOpening(log: seq<Mark>) {
    forall j :: 0 <= j < |log| && log[j] == Probe ==> Armed(log[..j])
  }

  function CountMarks(log: seq<Mark>, m: Mark): nat {
    if log == [] then 0 else CountMarks(log[..|log| - 1], m) + if log[|log| - 1] == m then 1 else 0
  }

  lemma LogGrows(log: seq<Mark>, m: Mark)
    requires OneProbePerOpening(log)
    requires m == Probe ==> Armed(log)
    ensures OneProbePerOpening(log + [m])
    ensures m != Probe && (m == Opened || Armed(log)) ==> Armed(log + [m])
  {
    var grown := log + [m];
    forall j | 0 <= j < |grown| && grown[j] == Probe
      ensures Armed(grown[..j])
    {
      assert j < |log| ==> grown[..j] == log[..j];
      assert j == |log| ==> grown[..j] == log;
    }
    if m == Opened {
      assert grown[|log|] == Opened;
    } else if m != Probe && Armed(log) {
      var k :| 0 <= k < |log| && log[k] == Opened && forall j :: k < j < |log| ==> log[j] != Probe;
      assert grown[k] == Opened;
    }
  }

  ghost predicate Safe(w: World) {
    OneProbePerOpening(w.log) && (w.shared.phase == Open ==> Armed(w.log))
  }

  lemma MoveIsSafe(w: World, m: Move)
    requires Safe(w)
    ensures Safe(Next(w, m))
  {
    if m.Access? && m.thread < |w.threads| {
      var pc := w.threads[m.thread];
      if pc.Exchange? && w.shared.phase == Open {
        LogGrows(w.log, Probe);
      } else if pc == StoreClosed {
        LogGrows(w.log, ClosedAgain);
      } else if pc == StoreOpen && w.shared.phase != Open {
        LogGrows(w.log, Opened);
      }
    }
  }

  /**
   * Under every interleaving of the atomic accesses of any number of threads, each opening admits at most one probe.
   */
  lemma {:induction false} EveryInterleavingIsSafe(w: World, ms: seq<Move>)
    requires Initial(w)
    ensures Safe(Run(w, ms))
    decreases |ms|
  {
    if ms != [] {
      EveryInterleavingIsSafe(w, ms[..|ms| - 1]);
      MoveIsSafe(Run(w, ms[..|ms| - 1]), ms[|ms| - 1]);
    }
  }

  /** Two probes in a log always have an opening strictly between them. */
  lemma OpeningBetweenProbes(log: seq<Mark>, i: nat, j: nat)
    requires OneProbePerOpening(log) && i < j < |log| && log[i] == Probe && log[j] == Probe
    ensures exists k :: i < k < j && log[k] == Opened
  {
    var k :| 0 <= k < j && log[..j][k] == Opened && forall l :: k < l < j ==> log[..j][l] != Probe;
    assert log[..j][i] == Probe && log[k] == Opened;
  }

  lemma {:induction false} ProbesAreCounted(log: seq<Mark>)
    requires OneProbePerOpening(log)
    ensures CountMarks(log, Probe) + (if Armed(log) then 1 else 0) <= CountMarks(log, Opened)
    decreases |log|
  {
    if log != [] {
      var n := |log| - 1;
      var init := log[..n];
      forall j | 0 <= j < n && init[j] == Probe
        ensures Armed(init[..j])
      {
        assert init[..j] == log[..j];
      }
      ProbesAreCounted(init);
      if log[n] != Opened && Armed(log) {
        var k :| 0 <= k < |log| && log[k] == Opened && forall j :: k < j < |log| ==> log[j] != Probe;
        assert init[k] == Opened;
        assert Armed(init);
      }
    }
  }

  /** Successful probe admissions never outnumber transitions into Open. */
  lemma ProbesNeverOutnumberOpenings(w: World, ms: seq<Move>)
    requires Initial(w)
    ensures CountMarks(Run(w, ms).log, Probe) <= CountMarks(Run(w, ms).log, Opened)
  {
    EveryInterleavingIsSafe(w, ms);
    ProbesAreCounted(Run(w, ms).log);
  }

  // ----- when a probe is admitted

  /** A thread about to exchange has found the timeout over since the time it loaded. */
  ghost predicate AllWaited(w: World) {
    forall i :: 0 <= i < |w.threads| && w.threads[i].Exchange? ==>
                  Since(w.threads[i].openSince, w.clock) >= w.cfg.failTimeout
  }

  /** What one access leaves alone, and how a thread gets to its comparison and its exchange. */
  lemma AccessFrame(w: World, i: nat)
    requires i < |w.threads|
    ensures var v := AccessBy(w, i);
            && |v.threads| == |w.threads| && v.clock == w.clock && v.cfg == w.cfg
            && (forall j :: 0 <= j < |w.threads| && j != i ==> v.threads[j] == w.threads[j])
            && (!w.threads[i].StoreOpenSince? ==> v.shared.openSince == w.shared.openSince)
            && (v.threads[i].CompareClock? ==> v.threads[i].openSince == w.shared.openSince)
            && (v.threads[i].Exchange? ==>
                  w.threads[i] == CompareClock(v.threads[i].openSince)
                  && Since(v.threads[i].openSince, w.clock) >= w.cfg.failTimeout)
  {
  }

  lemma MoveKeepsWaited(w: World, m: Move)
    requires AllWaited(w)
    ensures AllWaited(Next(w, m))
  {
    if m.Access? && m.thread < |w.threads| {
      AccessFrame(w, m.thread);
    }
  }

  lemma {:induction false} EveryExchangeWaited(w: World, ms: seq<Move>)
    requires Initial(w)
    ensures AllWaited(Run(w, ms))
    decreases |ms|
  {
    if ms != [] {
      EveryExchangeWaited(w, ms[..|ms| - 1]);
      MoveKeepsWaited(Run(w, ms[..|ms| - 1]), ms[|ms| - 1]);
    }
  }

  /** What the thread has loaded of `open_since`, if it is on its way to an exchange, is still there. */
  predicate UpToDate(w: World, i: nat)
    requires i < |w.threads|
  {
    match w.threads[i]
    case CompareClock(since) => since == w.shared.openSince
    case Exchange(since) => since == w.shared.openSince
    case _ => true
  }

  /** The move stores `open_since`. */
  predicate Stores(w: World, m: Move) {
    m.Access? && m.thread < |w.threads| && w.threads[m.thread].StoreOpenSince?
  }

  /** No move of the run stores `open_since`. */
  ghost predicate NoStore(w: World, ms: seq<Move>) {
    forall k :: 0 <= k < |ms| ==> !Stores(Run(w, ms[..k]), ms[k])
  }

  lemma MoveKeepsLoad(w: World, m: Move, i: nat)
    requires i < |w.threads| && UpToDate(w, i) && !Stores(w, m)
    ensures i < |Next(w, m).threads| && UpToDate(Next(w, m), i)
  {
    if m.Access? && m.thread < |w.threads| {
      AccessFrame(w, m.thread);
    }
  }

  lemma {:induction false} LoadStaysUpToDate(w: World, ms: seq<Move>, i: nat)
    requires i < |w.threads| && UpToDate(w, i) && NoStore(w, ms)
    ensures i < |Run(w, ms).threads| && UpToDate(Run(w, ms), i)
    decreases |ms|
  {
    if ms != [] {
      var n := |ms| - 1;
      forall k | 0 <= k < n
        ensures !Stores(Run(w, ms[..n][..k]), ms[..n][k])
      {
        assert ms[..n][..k] == ms[..k] && ms[..n][k] == ms[k];
      }
      LoadStaysUpToDate(w, ms[..n], i);
      MoveKeepsLoad(Run(w, ms[..n]), ms[n], i);
    }
  }

  lemma {:induction false} RunAppend(w: World, a: seq<Move>, b: seq<Move>)
    ensures Run(w, a + b) == Run(Run(w, a), b)
    decreases |b|
  {
    if b == [] {
      assert a + b == a;
    } else {
      assert (a + b)[..|a + b| - 1] == a + b[..|b| - 1];
      RunAppend(w, a, b[..|b| - 1]);
    }
  }

  /**
   * A probe comes at least the timeout after the recorded opening time, unless some thread has stored another one
   * between the prober's load and its exchange.
   */
  lemma ProbeIsTimely(w: World, before: seq<Move>, ms: seq<Move>, i: nat)
    requires Initial(w) && i < |Run(w, before).threads|
    requires UpToDate(Run(w, before), i) && NoStore(Run(w, before), ms)
    requires i < |Run(w, before + ms).threads| && Run(w, before + ms).threads[i].Exchange?
    ensures var v := Run(w, before + ms); Since(v.shared.openSince, v.clock) >= v.cfg.failTimeout
  {
    RunAppend(w, before, ms);
    EveryExchangeWaited(w, before + ms);
    LoadStaysUpToDate(Run(w, before), ms, i);
  }

  ghost predicate Reaches(w: World, v: World) {
    exists ms :: Run(w, ms) == v
  }

  lemma Go(w: World, v: World, m: Move) returns (next: World)
    requires Reaches(w, v)
    ensures next == Next(v, m) && Reaches(w, next)
  {
    var ms :| Run(w, ms) == v;
    next := Next(v, m);
    assert (ms + [m])[..|ms|] == ms;
    assert Run(w, ms + [m]) == next;
  }

  /** The last three accesses of a thread that opens the breaker. */
  lemma OpenNow(w: World, v: World, i: nat) returns (next: World)
    requires Reaches(w, v) && i < |v.threads| && v.threads[i] == ReadClockForOpen && v.shared.phase != Open
    ensures Reaches(w, next)
    ensures next == Continue(v, i, Idle).(shared := v.shared.(phase := Open, openSince := v.clock),
                                          log := v.log + [Opened])
  {
    next := Go(w, v, Access(i));
    next := Go(w, next, Access(i));
    next := Go(w, next, Access(i));
    assert next.threads == v.threads[i := Idle];
  }

  /** A thread records a failure up to the window check. */
  lemma CheckedFailure(w: World, v: World, i: nat) returns (next: World)
    requires Reaches(w, v) && i < |v.threads| && v.threads[i] == Idle && v.shared.phase == Closed
    requires Since(v.shared.windowStart, v.clock) < v.cfg.windowSecs
    ensures Reaches(w, next) && next == Continue(v, i, FetchAdd)
  {
    next := Go(w, v, Call(i, LoadForFailure));
    next := Go(w, next, Access(i));
    next := Go(w, next, Access(i));
    next := Go(w, next, Access(i));
    assert next.threads == v.threads[i := FetchAdd];
  }

  /** A failure that opens the breaker. */
  lemma Trip(w: World, v: World, i: nat) returns (next: World)
    requires Reaches(w, v) && i < |v.threads| && v.threads[i] == Idle && v.shared.phase == Closed
    requires v.cfg.maxFailures == 1 && Since(v.shared.windowStart, v.clock) < v.cfg.windowSecs
    ensures Reaches(w, next)
    ensures next == v.(shared := v.shared.(phase := Open, openSince := v.clock, failures := v.shared.failures + 1),
                       log := v.log + [Opened])
  {
    next := CheckedFailure(w, v, i);
    next := Go(w, next, Access(i));
    assert next.threads[i] == ReadClockForOpen;
    next := OpenNow(w, next, i);
    assert next.threads == v.threads;
  }

  /** A thread goes through `allow` up to its exchange. */
  lemma Approach(w: World, v: World, i: nat) returns (next: World)
    requires Reaches(w, v) && i < |v.threads| && v.threads[i] == Idle && v.shared.phase == Open
    requires Since(v.shared.openSince, v.clock) >= v.cfg.failTimeout
    ensures Reaches(w, next) && next == Continue(v, i, Exchange(v.shared.openSince))
  {
    next := Go(w, v, Call(i, LoadForAllow));
    next := Go(w, next, Access(i));
    next := Go(w, next, Access(i));
    next := Go(w, next, Access(i));
    assert next.threads == v.threads[i := Exchange(v.shared.openSince)];
  }

  /** A thread whose probe has failed opens the breaker again. */
  lemma Reopen(w: World, v: World, i: nat) returns (next: World)
    requires Reaches(w, v) && i < |v.threads| && v.threads[i] == Idle && v.shared.phase == HalfOpen
    ensures Reaches(w, next)
    ensures next == v.(shared := v.shared.(phase := Open, openSince := v.clock), log := v.log + [Opened])
  {
    next := Go(w, v, Call(i, LoadForFailure));
    next := Go(w, next, Access(i));
    assert next.threads[i] == ReadClockForOpen;
    next := OpenNow(w, next, i);
    assert next.threads == v.threads;
  }

  /**
   * With such a store in between, a probe can come at the very moment of the opening: two threads pass the clock test,
   * one probes, fails and opens the breaker again, and the other's exchange succeeds on that new opening.
   */
  lemma EarlyProbe(w: World) returns (v: World)
    requires w == World(Config(1, 60, 10), 0, NewBreaker(0), [Idle, Idle], [])
    ensures Initial(w) && Reaches(w, v)
    ensures v.log == [Opened, Probe, Opened, Probe] && v.shared.phase == HalfOpen
    ensures v.clock == 10 && v.shared.openSince == 10
  {
    v := TwoAtTheDoor(w);
    v := Go(w, v, Access(1));
    assert v.threads == [Exchange(0), Idle];
    v := Reopen(w, v, 1);
    v := Go(w, v, Access(0));
  }

  lemma TwoAtTheDoor(w: World) returns (v: World)
    requires w == World(Config(1, 60, 10), 0, NewBreaker(0), [Idle, Idle], [])
    ensures Reaches(w, v)
    ensures v == World(w.cfg, 10, Breaker(Open, 1, 0, 0), [Exchange(0), Exchange(0)], [Opened])
  {
    assert Run(w, []) == w;
    v := Trip(w, w, 0);
    v := TenTicks(w, v);
    v := Approach(w, v, 0);
    v := Approach(w, v, 1);
    assert v.threads == [Exchange(0), Exchange(0)];
  }

  lemma TenTicks(w: World, v: World) returns (next: World)
    requires Reaches(w, v)
    ensures Reaches(w, next) && next == v.(clock := v.clock + 10)
  {
    next := v;
    for k := 0 to 10
      invariant Reaches(w, next) && next == v.(clock := v.clock + k)
    {
      next := Go(w, next, Tick);
    }
  }

  // ----- a call that nobody interrupts

  /** How many accesses a call has left at most. */
  function Left(pc: Pc): nat {
    match pc
    case Idle => 0
    case LoadForAllow => 4
    case LoadOpenSince => 3
    case CompareClock(_) => 2
    case Exchange(_) => 1
    case LoadForSuccess => 10
    case LoadForFailure => 10
    case ClearFailures => 4
    case ReadClockForWindow => 3
    case StoreWindow(_) => 2
    case StoreClosed => 1
    case LoadWindow(_) => 9
    case CheckWindow(_, _) => 8
    case ResetFailures(_) => 7
    case ReadClockForReset(_) => 6
    case StoreReset(_, _) => 5
    case FetchAdd => 4
    case ReadClockForOpen => 3
    case StoreOpenSince(_) => 2
    case StoreOpen => 1
  }

  /** The thread makes all its accesses in a row. */
  function Complete(w: World, i: nat): World
    requires i < |w.threads|
    decreases Left(w.threads[i])
  {
    if w.threads[i] == Idle then w else Complete(AccessBy(w, i), i)
  }

  lemma CompleteOpening(w: World, i: nat)
    requires i < |w.threads| && w.threads[i] == ReadClockForOpen
    ensures Complete(w, i).shared == w.shared.(phase := Open, openSince := w.clock)
  {
    var w1 := AccessBy(w, i);
    var w2 := AccessBy(w1, i);
    var w3 := AccessBy(w2, i);
    assert Complete(w, i) == Complete(w1, i) == Complete(w2, i) == Complete(w3, i) == w3;
  }

  lemma CompleteCounting(w: World, i: nat)
    requires i < |w.threads| && w.threads[i] == FetchAdd
    ensures var counted := w.shared.(failures := w.shared.failures + 1);
            Complete(w, i).shared ==
            if counted.failures >= w.cfg.maxFailures then counted.(phase := Open, openSince := w.clock) else counted
  {
    var w1 := AccessBy(w, i);
    if w1.threads[i] == ReadClockForOpen {
      CompleteOpening(w1, i);
    }
  }

  lemma CompleteReset(w: World, i: nat, next: Then)
    requires i < |w.threads| && w.threads[i] == ResetFailures(next)
    ensures Complete(w, i) ==
            Complete(Continue(w, i, After(next)).(shared := w.shared.(failures := 0, windowStart := w.clock)), i)
  {
    var w3 := AccessBy(w, i);
    var w4 := AccessBy(w3, i);
    var w5 := AccessBy(w4, i);
    assert Complete(w, i) == Complete(w3, i) == Complete(w4, i) == Complete(w5, i);
    assert w5.threads == w.threads[i := After(next)];
  }

  /** The window check leaves what `WithWindow` says and goes on with what comes next. */
  lemma CompleteWindow(w: World, i: nat, next: Then)
    requires i < |w.threads| && w.threads[i] == LoadWindow(next)
    ensures Complete(w, i) == Complete(Continue(w, i, After(next)).(shared := WithWindow(w.shared, w.cfg, w.clock)), i)
  {
    var w1 := AccessBy(w, i);
    var w2 := AccessBy(w1, i);
    assert Complete(w, i) == Complete(w1, i) == Complete(w2, i);
    var end := Continue(w, i, After(next)).(shared := WithWindow(w.shared, w.cfg, w.clock));
    if w2.threads[i] == ResetFailures(next) {
      CompleteReset(w2, i, next);
      assert Continue(w2, i, After(next)).threads == end.threads;
    } else {
      assert w2 == end;
    }
  }

  lemma CompleteProbeSuccess(w: World, i: nat)
    requires i < |w.threads| && w.threads[i] == ClearFailures
    ensures Complete(w, i).shared == Breaker(Closed, 0, w.clock, w.shared.openSince)
  {
    var w1 := AccessBy(w, i);
    var w2 := AccessBy(w1, i);
    var w3 := AccessBy(w2, i);
    var w4 := AccessBy(w3, i);
    assert Complete(w, i) == Complete(w1, i) == Complete(w2, i) == Complete(w3, i) == Complete(w4, i) == w4;
  }

  /**
   * Alone, each call has exactly the effect the sequential model gives it; interleaving is all that can change that.
   */
  lemma AloneIsSequential(w: World, i: nat)
    requires i < |w.threads| && w.threads[i] == Idle
    ensures Complete(Continue(w, i, LoadForAllow), i).shared == AfterAllow(w.shared, w.cfg, w.clock)
    ensures Complete(Continue(w, i, LoadForSuccess), i).shared == AfterSuccess(w.shared, w.cfg, w.clock)
    ensures Complete(Continue(w, i, LoadForFailure), i).shared == AfterFailure(w.shared, w.cfg, w.clock)
  {
    AllowAlone(w, i);
    SuccessAlone(w, i);
    FailureAlone(w, i);
  }

  lemma AllowAlone(w: World, i: nat)
    requires i < |w.threads| && w.threads[i] == Idle
    ensures Complete(Continue(w, i, LoadForAllow), i).shared == AfterAllow(w.shared, w.cfg, w.clock)
  {
    var w0 := Continue(w, i, LoadForAllow);
    var w1 := AccessBy(w0, i);
    if w.shared.phase == Open {
      var w2 := AccessBy(w1, i);
      var w3 := AccessBy(w2, i);
      assert Complete(w0, i) == Complete(w1, i) == Complete(w2, i) == Complete(w3, i);
      if w3.threads[i].Exchange? {
        assert Complete(w3, i) == AccessBy(w3, i);
      }
    }
  }

  lemma SuccessAlone(w: World, i: nat)
    requires i < |w.threads| && w.threads[i] == Idle
    ensures Complete(Continue(w, i, LoadForSuccess), i).shared == AfterSuccess(w.shared, w.cfg, w.clock)
  {
    var w1 := AccessBy(Continue(w, i, LoadForSuccess), i);
    if w.shared.phase == HalfOpen {
      CompleteProbeSuccess(w1, i);
    } else if w.shared.phase == Closed {
      CompleteWindow(w1, i, Finish);
    }
  }

  lemma FailureAlone(w: World, i: nat)
    requires i < |w.threads| && w.threads[i] == Idle
    ensures Complete(Continue(w, i, LoadForFailure), i).shared == AfterFailure(w.shared, w.cfg, w.clock)
  {
    var w1 := AccessBy(Continue(w, i, LoadForFailure), i);
    if w.shared.phase == HalfOpen {
      CompleteOpening(w1, i);
    } else if w.shared.phase == Closed {
      CompleteWindow(w1, i, Count);
      CompleteCounting(Continue(w1, i, FetchAdd).(shared := WithWindow(w1.shared, w1.cfg, w1.clock)), i);
    }
  }
}
