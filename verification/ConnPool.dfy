/**
 * Keep-alive connections to one upstream key, across the pool and the request loop
 * (src/handler/reverse_proxy/pool.rs, conn.rs).
 */
module ConnPool {
  import opened Common

  /** Times and durations are in one unit. `idleLimit` is the per-upstream limit when set, else the pool's own. */
  datatype Settings =
    Settings(maxIdle: nat, idleOverride: nat, idleTimeout: nat, keepaliveRequests: nat, keepaliveTime: nat)

  function IdleLimit(s: Settings): nat {
    if s.idleOverride > 0 then s.idleOverride else s.maxIdle
  }

  datatype IdleConn = IdleConn(id: nat, returnedAt: nat, createdAt: nat, requestCount: nat)

  function Age(since: nat, now: nat): nat {
    if now >= since then now - since else 0
  }

  predicate Fresh(c: IdleConn, s: Settings, now: nat) {
    Age(c.returnedAt, now) < s.idleTimeout
  }

  // ----- the idle queue

  /** `retain` of the fresh connections. */
  function Sweep(q: seq<IdleConn>, s: Settings, now: nat): seq<IdleConn> {
    if q == [] then []
    else if Fresh(q[0], s, now) then [q[0]] + Sweep(q[1..], s, now)
    else Sweep(q[1..], s, now)
  }

  datatype Popped = Popped(conn: Option<IdleConn>, rest: seq<IdleConn>)

  /** `pop_front` until a fresh connection turns up. */
  function PopFresh(q: seq<IdleConn>, s: Settings, now: nat): (r: Popped)
    ensures r.conn.Some? ==> Fresh(r.conn.value, s, now)
  {
    if q == [] then Popped(None, [])
    else if Fresh(q[0], s, now) then Popped(Some(q[0]), q[1..])
    else PopFresh(q[1..], s, now)
  }

  /** Whether the release rules let a connection back into the queue. */
  predicate Returnable(createdAt: nat, requestCount: nat, s: Settings, now: nat) {
    !(s.keepaliveRequests > 0 && requestCount >= s.keepaliveRequests)
    && !(s.keepaliveTime > 0 && Age(createdAt, now) >= s.keepaliveTime)
  }

  function Pushed(q: seq<IdleConn>, c: IdleConn, s: Settings): seq<IdleConn> {
    if Returnable(c.createdAt, c.requestCount, s, c.returnedAt) && |q| < IdleLimit(s) then q + [c] else q
  }

  class Pool {
    const settings: Settings
    var idle: seq<IdleConn>

    constructor (settings: Settings)
      ensures this.settings == settings && idle == []
    {
      this.settings := settings;
      idle := [];
    }

    /** `acquire`, with the sweep it makes first when more than one connection is idle. */
    method Acquire(now: nat) returns (conn: Option<IdleConn>)
      modifies this
      ensures var swept := if |old(idle)| > 1 then Sweep(old(idle), settings, now) else old(idle);
              Popped(conn, idle) == PopFresh(swept, settings, now)
    {
      if |idle| > 1 {
        var kept := [];
        ghost var was := idle;
        for i := 0 to |idle|
          invariant kept + Sweep(was[i..], settings, now) == Sweep(was, settings, now)
          invariant idle == was
        {
          assert was[i..][0] == was[i] && was[i..][1..] == was[i + 1..];
          if Fresh(idle[i], settings, now) {
            Assoc(kept, [idle[i]], Sweep(was[i + 1..], settings, now));
            kept := kept + [idle[i]];
          }
        }
        assert was[|was|..] == [] && kept + [] == kept;
        idle := kept;
      }
      ghost var start := idle;
      while idle != []
        invariant PopFresh(idle, settings, now) == PopFresh(start, settings, now)
        decreases |idle|
      {
        var c := idle[0];
        idle := idle[1..];
        if Fresh(c, settings, now) {
          return Some(c);
        }
      }
      conn := None;
    }

    method Release(id: nat, createdAt: nat, requestCount: nat, now: nat)
      modifies this
      ensures idle == Pushed(old(idle), IdleConn(id, now, createdAt, requestCount), settings)
    {
      if settings.keepaliveRequests > 0 && requestCount >= settings.keepaliveRequests {
        return;
      }
      if settings.keepaliveTime > 0 && Age(createdAt, now) >= settings.keepaliveTime {
        return;
      }
      var limit := if settings.idleOverride > 0 then settings.idleOverride else settings.maxIdle;
      if |idle| >= limit {
        return;
      }
      idle := idle + [IdleConn(id, now, createdAt, requestCount)];
    }
  }

  // ----- the sweep is only an optimisation

  ghost predicate Ordered(q: seq<IdleConn>) {
    forall i, j :: 0 <= i < j < |q| ==> q[i].returnedAt <= q[j].returnedAt
  }

  lemma {:induction false} SweepOfFresh(q: seq<IdleConn>, s: Settings, now: nat)
    requires Ordered(q) && (q == [] || Fresh(q[0], s, now))
    ensures Sweep(q, s, now) == q
  {
    if q != [] {
      SweepOfFresh(q[1..], s, now);
    }
  }

  /** On a queue in order of return, sweeping first changes neither the connection chosen nor what is left. */
  lemma {:induction false} SweepChangesNothing(q: seq<IdleConn>, s: Settings, now: nat)
    requires Ordered(q)
    ensures PopFresh(Sweep(q, s, now), s, now) == PopFresh(q, s, now)
  {
    if q != [] {
      if Fresh(q[0], s, now) {
        SweepOfFresh(q, s, now);
      } else {
        SweepChangesNothing(q[1..], s, now);
      }
    }
  }

  // ----- request cycles

  /** A connection in use: when it was made and how many requests it had served before this one. */
  datatype Lease = Lease(createdAt: nat, requestCount: nat)

  /** `uses` counts the requests put on each connection ever made. */
  datatype World = World(idle: seq<IdleConn>, busy: map<nat, Lease>, nextId: nat, uses: map<nat, nat>, now: nat)

  datatype Event =
    | Begin(now: nat, up: bool)    // a request acquires, or connects if the upstream is up
    | Reconnect(id: nat, now: nat) // the first attempt failed before the body: drop, connect anew
    | Discard(id: nat, now: nat)   // error, or the upstream asked to close
    | Finish(id: nat, now: nat)    // response complete: release

  function Connect(w: World): World {
    w.(busy := w.busy[w.nextId := Lease(w.now, 0)], uses := w.uses[w.nextId := 1], nextId := w.nextId + 1)
  }

  function Reuse(w: World, c: IdleConn, rest: seq<IdleConn>): World {
    w.(idle := rest, busy := w.busy[c.id := Lease(c.createdAt, c.requestCount)],
       uses := w.uses[c.id := (if c.id in w.uses then w.uses[c.id] else 0) + 1])
  }

  function Step(w0: World, s: Settings, e: Event): World {
    var w := w0.(now := e.now);
    match e
    case Begin(now, up) =>
      var p := PopFresh(if |w.idle| > 1 then Sweep(w.idle, s, now) else w.idle, s, now);
      if p.conn.Some? then Reuse(w, p.conn.value, p.rest)
      else if up then Connect(w.(idle := p.rest))
      else w.(idle := p.rest)
    case Reconnect(id, _) => if id in w.busy then Connect(w.(busy := w.busy - {id})) else w
    case Discard(id, _) => w.(busy := w.busy - {id})
    case Finish(id, now) =>
      if id !in w.busy then w
      else
        var l := w.busy[id];
        w.(busy := w.busy - {id}, idle := Pushed(w.idle, IdleConn(id, now, l.createdAt, l.requestCount + 1), s))
  }

  function Run(w: World, s: Settings, es: seq<Event>): World {
    if es == [] then w else Step(Run(w, s, es[..|es| - 1]), s, es[|es| - 1])
  }

  const EMPTY := World([], map[], 0, map[], 0)

  ghost predicate Timed(es: seq<Event>) {
    forall i, j :: 0 <= i < j < |es| ==> es[i].now <= es[j].now
  }

  /** The limits that hold between any two events. */
  ghost predicate IdleSound(w: World, s: Settings) {
    && |w.idle| <= IdleLimit(s)
    && Ordered(w.idle)
    && (forall i :: 0 <= i < |w.idle| ==> w.idle[i].returnedAt <= w.now)
    && (forall i, j :: 0 <= i < j < |w.idle| ==> w.idle[i].id != w.idle[j].id)
    && (forall i :: 0 <= i < |w.idle| ==> w.idle[i].id !in w.busy && w.idle[i].id < w.nextId)
  }

  /** The counts carried along with a connection are the requests it was used for, and stay within the limit. */
  ghost predicate CountsSound(w: World, s: Settings) {
    && (forall i :: 0 <= i < |w.idle| ==>
          w.idle[i].id in w.uses && w.uses[w.idle[i].id] == w.idle[i].requestCount
          && (s.keepaliveRequests > 0 ==> w.idle[i].requestCount < s.keepaliveRequests))
    && (forall id :: id in w.busy ==>
          id < w.nextId && id in w.uses && w.uses[id] == w.busy[id].requestCount + 1
          && (s.keepaliveRequests > 0 ==> w.busy[id].requestCount < s.keepaliveRequests))
    && (forall id :: id in w.uses ==> id < w.nextId && (s.keepaliveRequests > 0 ==> w.uses[id] <= s.keepaliveRequests))
  }

  ghost predicate Sound(w: World, s: Settings) {
    IdleSound(w, s) && CountsSound(w, s)
  }

  /** What is popped and what is left are in order, a suffix of the queue with the chosen one in front. */
  lemma {:induction false} PopIsSuffix(q: seq<IdleConn>, s: Settings, now: nat) returns (k: nat)
    ensures k <= |q|
    ensures var p := PopFresh(q, s, now);
            if p.conn.Some? then k < |q| && p.conn.value == q[k] && p.rest == q[k + 1..] else p.rest == []
  {
    if q == [] || Fresh(q[0], s, now) {
      k := 0;
    } else {
      k := PopIsSuffix(q[1..], s, now);
      k := k + 1;
    }
  }

  lemma ConnectKeeps(w: World, s: Settings)
    requires Sound(w, s)
    ensures Sound(Connect(w), s)
  {
  }

  /** Taking the k-th idle connection: the ones behind it stay. */
  lemma ReuseKeepsIdle(w: World, s: Settings, k: nat)
    requires Sound(w, s) && k < |w.idle|
    ensures IdleSound(Reuse(w, w.idle[k], w.idle[k + 1..]), s)
  {
    var rest := w.idle[k + 1..];
    forall i | 0 <= i < |rest|
      ensures rest[i].id != w.idle[k].id
    {
      assert rest[i] == w.idle[k + 1 + i];
    }
  }

  lemma ReuseKeepsCounts(w: World, s: Settings, k: nat)
    requires Sound(w, s) && k < |w.idle|
    ensures CountsSound(Reuse(w, w.idle[k], w.idle[k + 1..]), s)
  {
    var rest := w.idle[k + 1..];
    forall i | 0 <= i < |rest|
      ensures rest[i].id != w.idle[k].id
    {
      assert rest[i] == w.idle[k + 1 + i];
    }
  }

  lemma BeginKeeps(w0: World, s: Settings, now: nat, up: bool)
    requires Sound(w0, s) && w0.now <= now
    ensures Sound(Step(w0, s, Begin(now, up)), s)
  {
    var w := w0.(now := now);
    assert Sound(w, s);
    SweepChangesNothing(w.idle, s, now);
    var p := PopFresh(w.idle, s, now);
    var k := PopIsSuffix(w.idle, s, now);
    if p.conn.None? {
      assert Sound(w.(idle := []), s);
      ConnectKeeps(w.(idle := []), s);
    } else {
      ReuseKeepsIdle(w, s, k);
      ReuseKeepsCounts(w, s, k);
    }
  }

  /** A connection no longer in use joins the end of the queue. */
  lemma PushKeepsIdle(w: World, s: Settings, c: IdleConn)
    requires IdleSound(w, s) && c.returnedAt == w.now && c.id !in w.busy && c.id < w.nextId
    requires forall i :: 0 <= i < |w.idle| ==> w.idle[i].id != c.id
    ensures IdleSound(w.(idle := Pushed(w.idle, c, s)), s)
  {
  }

  lemma PushKeepsCounts(w: World, s: Settings, c: IdleConn)
    requires CountsSound(w, s) && c.id in w.uses && w.uses[c.id] == c.requestCount
    ensures CountsSound(w.(idle := Pushed(w.idle, c, s)), s)
  {
  }

  lemma DropLease(w: World, s: Settings, id: nat, now: nat)
    requires Sound(w, s) && w.now <= now
    ensures Sound(w.(now := now, busy := w.busy - {id}), s)
  {
  }

  lemma FinishKeeps(w0: World, s: Settings, id: nat, now: nat)
    requires Sound(w0, s) && w0.now <= now
    ensures Sound(Step(w0, s, Finish(id, now)), s)
  {
    if id in w0.busy {
      var w := w0.(now := now, busy := w0.busy - {id});
      var c := IdleConn(id, now, w0.busy[id].createdAt, w0.busy[id].requestCount + 1);
      DropLease(w0, s, id, now);
      PushKeepsIdle(w, s, c);
      PushKeepsCounts(w, s, c);
    }
  }

  lemma StepKeeps(w: World, s: Settings, e: Event)
    requires Sound(w, s) && w.now <= e.now
    ensures Sound(Step(w, s, e), s)
  {
    match e
    case Begin(now, up) => BeginKeeps(w, s, now, up);
    case Reconnect(id, now) =>
      if id in w.busy {
        ConnectKeeps(w.(now := now, busy := w.busy - {id}), s);
      }
    case Discard(_, _) =>
    case Finish(id, now) => FinishKeeps(w, s, id, now);
  }

  /** Events in order of time, none before `start`. */
  ghost predicate TimedFrom(start: nat, es: seq<Event>) {
    Timed(es) && forall i :: 0 <= i < |es| ==> start <= es[i].now
  }

  lemma {:induction false} RunKeeps(w: World, s: Settings, es: seq<Event>)
    requires Sound(w, s) && TimedFrom(w.now, es)
    ensures Sound(Run(w, s, es), s)
    ensures Run(w, s, es).now == if es == [] then w.now else es[|es| - 1].now
    decreases |es|
  {
    if es != [] {
      var n := |es| - 1;
      RunKeeps(w, s, es[..n]);
      assert n > 0 ==> es[..n][n - 1].now <= es[n].now;
      StepKeeps(Run(w, s, es[..n]), s, es[n]);
    }
  }

  /**
   * Over any run of overlapping request cycles: the idle queue stays within its limit and in order, no connection is
   * idle twice or idle while in use, and none is used for more requests than the keep-alive limit allows.
   */
  lemma RunIsSound(s: Settings, es: seq<Event>)
    requires Timed(es)
    ensures Sound(Run(EMPTY, s, es), s)
  {
    RunKeeps(EMPTY, s, es);
  }

  /**
   * In any reachable state, a request is handed the longest-returned fresh connection, or a new one exactly when none
   * is fresh.
   */
  lemma HandedOutFresh(s: Settings, es: seq<Event>, now: nat)
    requires Timed(es + [Begin(now, true)])
    ensures var w := Run(EMPTY, s, es);
            var p := PopFresh(w.idle, s, now);
            && (p.conn.Some? ==> Step(w, s, Begin(now, true)) == Reuse(w.(now := now), p.conn.value, p.rest))
            && (p.conn.None? ==> Step(w, s, Begin(now, true)) == Connect(w.(now := now, idle := p.rest)))
            && (p.conn.Some? ==> Age(p.conn.value.returnedAt, now) < s.idleTimeout)
            && (p.conn.None? <==> forall i :: 0 <= i < |w.idle| ==> !Fresh(w.idle[i], s, now))
  {
    var all := es + [Begin(now, true)];
    forall i, j | 0 <= i < j < |es|
      ensures es[i].now <= es[j].now
    {
      assert all[i] == es[i] && all[j] == es[j];
    }
    RunIsSound(s, es);
    var w := Run(EMPTY, s, es);
    SweepChangesNothing(w.idle, s, now);
    NoneFresh(w.idle, s, now);
  }

  lemma {:induction false} NoneFresh(q: seq<IdleConn>, s: Settings, now: nat)
    ensures PopFresh(q, s, now).conn.None? <==> forall i :: 0 <= i < |q| ==> !Fresh(q[i], s, now)
  {
    if q != [] {
      NoneFresh(q[1..], s, now);
    }
  }

  // ----- how old a connection can get

  /** Every idle connection was returned before its lifetime was over. */
  ghost predicate ReturnedInTime(q: seq<IdleConn>, s: Settings) {
    forall i :: 0 <= i < |q| ==> s.keepaliveTime > 0 ==> Age(q[i].createdAt, q[i].returnedAt) < s.keepaliveTime
  }

  lemma PopKeepsTimes(q: seq<IdleConn>, s: Settings, now: nat)
    requires ReturnedInTime(q, s)
    ensures var p := PopFresh(q, s, now); ReturnedInTime(p.rest, s) && (p.conn.Some? ==> p.conn.value in q)
  {
    var k := PopIsSuffix(q, s, now);
  }

  lemma {:induction false} RunReturnsInTime(s: Settings, es: seq<Event>)
    requires Timed(es)
    ensures ReturnedInTime(Run(EMPTY, s, es).idle, s)
    decreases |es|
  {
    if es != [] {
      var n := |es| - 1;
      RunReturnsInTime(s, es[..n]);
      RunIsSound(s, es[..n]);
      var w := Run(EMPTY, s, es[..n]);
      if es[n].Begin? {
        SweepChangesNothing(w.idle, s, es[n].now);
        PopKeepsTimes(w.idle, s, es[n].now);
      }
    }
  }

  /** Handing out does not look at the lifetime: it is exceeded by less than the idle timeout. */
  lemma LifetimeBound(s: Settings, es: seq<Event>, now: nat)
    requires Timed(es) && s.keepaliveTime > 0
    ensures var c := PopFresh(Run(EMPTY, s, es).idle, s, now).conn;
            c.Some? ==> Age(c.value.createdAt, now) < s.keepaliveTime + s.idleTimeout
  {
    RunReturnsInTime(s, es);
    var k := PopIsSuffix(Run(EMPTY, s, es).idle, s, now);
  }

  /** And it is exceeded: made at 0, returned at 9, handed out at 18 with a lifetime of 10. */
  lemma LifetimeExceeded()
    ensures var s, es := Settings(1, 0, 10, 0, 10), [Begin(0, true), Finish(0, 9)];
            PopFresh(Run(EMPTY, s, es).idle, s, 18).conn == Some(IdleConn(0, 9, 0, 1))
  {
    var s := Settings(1, 0, 10, 0, 10);
    RunTwo(EMPTY, s, Begin(0, true), Finish(0, 9));
  }

  // ----- one forwarded request

  /** How one attempt to send and receive ends; `up` says whether a new connection could be made for it. */
  datatype Attempt = Done(up: bool, keep: bool) | Fail(up: bool, bodyConsumed: bool)

  /** A second attempt is made only when the first failed before its body was sent. */
  predicate Retries(a: Attempt) {
    a.Fail? && !a.bodyConsumed
  }

  /** How the attempt on connection `id` leaves it. */
  function Closing(id: nat, now: nat, a: Attempt): Event {
    if a.Done? && a.keep then Finish(id, now) else Discard(id, now)
  }

  /** The connection the first attempt gets, if any: a fresh idle one, else a new one. */
  function FirstConn(w: World, s: Settings, now: nat, first: Attempt): Option<nat> {
    var p := PopFresh(w.idle, s, now);
    if p.conn.Some? then Some(p.conn.value.id) else if first.up then Some(w.nextId) else None
  }

  /** One request in the terms of the run: begin, perhaps reconnect once, then finish or discard. */
  function Cycle(w: World, s: Settings, now: nat, first: Attempt, second: Attempt): seq<Event> {
    var begin := Begin(now, first.up);
    var c := FirstConn(w, s, now, first);
    if c.None? then [begin]
    else if !Retries(first) then [begin, Closing(c.value, now, first)]
    else if !second.up then [begin, Discard(c.value, now)]
    else [begin, Reconnect(c.value, now), Closing(Step(w, s, begin).nextId, now, second)]
  }

  lemma RunOne(w: World, s: Settings, a: Event)
    ensures Run(w, s, [a]) == Step(w, s, a)
  {
    assert [a][..0] == [];
  }

  lemma RunTwo(w: World, s: Settings, a: Event, b: Event)
    ensures Run(w, s, [a, b]) == Step(Step(w, s, a), s, b)
  {
    assert [a, b][..1] == [a];
    RunOne(w, s, a);
  }

  lemma RunThree(w: World, s: Settings, a: Event, b: Event, c: Event)
    ensures Run(w, s, [a, b, c]) == Step(Step(Step(w, s, a), s, b), s, c)
  {
    assert [a, b, c][..2] == [a, b];
    RunTwo(w, s, a, b);
  }

  /**
   * The queue after a cycle: what was popped is gone, and only the connection that completed a response may come
   * back, counted.
   */
  function QueueAfter(w: World, s: Settings, now: nat, first: Attempt, second: Attempt): seq<IdleConn> {
    var p := PopFresh(w.idle, s, now);
    var lease := FirstLease(p.conn, now);
    if FirstConn(w, s, now, first).None? then p.rest
    else if first.Done? && first.keep then
      Pushed(p.rest, IdleConn(FirstConn(w, s, now, first).value, now, lease.createdAt, lease.requestCount + 1), s)
    else if Retries(first) && second.up && second.Done? && second.keep then
      Pushed(p.rest, IdleConn(w.nextId + (if p.conn.Some? then 0 else 1), now, now, 1), s)
    else p.rest
  }

  function FirstLease(conn: Option<IdleConn>, now: nat): Lease {
    if conn.Some? then Lease(conn.value.createdAt, conn.value.requestCount) else Lease(now, 0)
  }

  /** After the first event of a cycle: the queue without what was popped, and the connection leased. */
  lemma CycleBegins(w: World, s: Settings, now: nat, first: Attempt)
    requires Ordered(w.idle)
    ensures var p, w1 := PopFresh(w.idle, s, now), Step(w, s, Begin(now, first.up));
            var c := FirstConn(w, s, now, first);
            && w1.idle == p.rest && w1.now == now
            && w1.nextId == w.nextId + (if p.conn.None? && first.up then 1 else 0)
            && (c.Some? ==> c.value in w1.busy && w1.busy[c.value] == FirstLease(p.conn, now))
  {
    SweepChangesNothing(w.idle, s, now);
  }

  /** The queue after a connection in use is given up, replaced or finished. */
  lemma CloseQueue(w: World, s: Settings, id: nat, a: Attempt)
    requires id in w.busy
    ensures Step(w, s, Closing(id, w.now, a)).idle ==
            if a.Done? && a.keep then
              Pushed(w.idle, IdleConn(id, w.now, w.busy[id].createdAt, w.busy[id].requestCount + 1), s)
            else w.idle
    ensures var r := Step(w, s, Reconnect(id, w.now));
            r.idle == w.idle && r.now == w.now && w.nextId in r.busy && r.busy[w.nextId] == Lease(w.now, 0)
  {
  }

  lemma CycleFails(w: World, s: Settings, now: nat, first: Attempt, second: Attempt)
    requires Ordered(w.idle) && FirstConn(w, s, now, first).None?
    ensures Run(w, s, Cycle(w, s, now, first, second)).idle == QueueAfter(w, s, now, first, second)
  {
    CycleBegins(w, s, now, first);
    RunOne(w, s, Begin(now, first.up));
  }

  lemma CycleOnce(w: World, s: Settings, now: nat, first: Attempt, second: Attempt)
    requires Ordered(w.idle) && FirstConn(w, s, now, first).Some? && !(Retries(first) && second.up)
    ensures Run(w, s, Cycle(w, s, now, first, second)).idle == QueueAfter(w, s, now, first, second)
  {
    CycleBegins(w, s, now, first);
    var begin, id := Begin(now, first.up), FirstConn(w, s, now, first).value;
    CloseQueue(Step(w, s, begin), s, id, first);
    RunTwo(w, s, begin, Closing(id, now, first));
  }

  lemma CycleTwice(w: World, s: Settings, now: nat, first: Attempt, second: Attempt)
    requires Ordered(w.idle) && FirstConn(w, s, now, first).Some? && Retries(first) && second.up
    ensures Run(w, s, Cycle(w, s, now, first, second)).idle == QueueAfter(w, s, now, first, second)
  {
    CycleBegins(w, s, now, first);
    var begin, id := Begin(now, first.up), FirstConn(w, s, now, first).value;
    var w1 := Step(w, s, begin);
    CloseQueue(w1, s, id, first);
    CloseQueue(Step(w1, s, Reconnect(id, now)), s, w1.nextId, second);
    RunThree(w, s, begin, Reconnect(id, now), Closing(w1.nextId, now, second));
  }

  lemma CycleQueue(w: World, s: Settings, now: nat, first: Attempt, second: Attempt)
    requires Ordered(w.idle)
    ensures Run(w, s, Cycle(w, s, now, first, second)).idle == QueueAfter(w, s, now, first, second)
  {
    if FirstConn(w, s, now, first).None? {
      CycleFails(w, s, now, first, second);
    } else if Retries(first) && second.up {
      CycleTwice(w, s, now, first, second);
    } else {
      CycleOnce(w, s, now, first, second);
    }
  }

  /** A cycle in the middle of any run keeps what every run keeps. */
  lemma CycleKeeps(w: World, s: Settings, now: nat, first: Attempt, second: Attempt)
    requires Sound(w, s) && w.now <= now
    ensures Sound(Run(w, s, Cycle(w, s, now, first, second)), s)
  {
    RunKeeps(w, s, Cycle(w, s, now, first, second));
  }

  /** The attempt loop of `forward_request`. */
  method ForwardOn(pool: Pool, ghost w: World, nextId: nat, now: nat, body: seq<byte>, first: Attempt, second: Attempt)
    returns (ok: bool, bodies: seq<seq<byte>>)
    requires Ordered(w.idle) && w.idle == pool.idle && w.nextId == nextId
    modifies pool
    ensures var connected := FirstConn(w, pool.settings, now, first).Some?;
            && bodies == (if !connected then [] else if Retries(first) && second.up then [body, []] else [body])
            && (ok <==> connected && (first.Done? || (Retries(first) && second.up && second.Done?)))
    ensures pool.idle == QueueAfter(w, pool.settings, now, first, second)
  {
    SweepChangesNothing(w.idle, pool.settings, now);
    ghost var p := PopFresh(w.idle, pool.settings, now);
    var slot := Some(body);
    bodies := [];
    var made := 0;
    for attempt := 0 to 2
      invariant attempt <= 1
      invariant attempt == 0 ==> slot == Some(body) && bodies == [] && made == 0 && pool.idle == w.idle
      invariant attempt == 1 ==>
                  && slot == None && bodies == [body] && pool.idle == p.rest && Retries(first)
                  && FirstConn(w, pool.settings, now, first).Some? && made == (if p.conn.Some? then 0 else 1)
    {
      var id, createdAt, count := nextId + made, now, 0;
      var reused := false;
      if attempt == 0 {
        var c := pool.Acquire(now);
        if c.Some? {
          reused := true;
          id, createdAt, count := c.value.id, c.value.createdAt, c.value.requestCount;
        }
      }
      var outcome := if attempt == 0 then first else second;
      if !reused {
        if !outcome.up {
          return false, bodies;
        }
        made := made + 1;
      }
      var sent := if slot.Some? then slot.value else [];
      slot := None;
      bodies := bodies + [sent];
      match outcome
      case Done(_, keep) =>
        if keep {
          pool.Release(id, createdAt, count + 1, now);
        }
        return true, bodies;
      case Fail(_, consumed) =>
        if !(attempt == 0 && !consumed) {
          return false, bodies;
        }
    }
    ok := false;
  }

  /**
   * In `forward_request` the first attempt may reuse a connection, a second is made only when the
   * first failed before its body was sent, and always on a new connection. The body goes to the first attempt alone.
   * On the queue the request is one cycle of the run, so whatever holds of every run holds across it.
   */
  method Forward(pool: Pool, ghost w: World, nextId: nat, now: nat, body: seq<byte>, first: Attempt, second: Attempt)
    returns (ok: bool, bodies: seq<seq<byte>>)
    requires Ordered(w.idle) && w.idle == pool.idle && w.nextId == nextId
    modifies pool
    ensures var connected := FirstConn(w, pool.settings, now, first).Some?;
            && bodies == (if !connected then [] else if Retries(first) && second.up then [body, []] else [body])
            && (ok <==> connected && (first.Done? || (Retries(first) && second.up && second.Done?)))
    ensures pool.idle == Run(w, pool.settings, Cycle(w, pool.settings, now, first, second)).idle
  {
    CycleQueue(w, pool.settings, now, first, second);
    ok, bodies := ForwardOn(pool, w, nextId, now, body, first, second);
  }

  // ----- the limits written out

  /**
   * A finished connection is idle afterwards exactly when it has served fewer than `keepaliveRequests` requests and is
   * younger than `keepaliveTime`, where these are set, and the queue has room; nothing else about the queue changes.
   */
  lemma FinishedIsIdle(w: World, s: Settings, id: nat, now: nat)
    requires id in w.busy && w.busy[id].createdAt <= now
    ensures var l, limit := w.busy[id], if s.idleOverride > 0 then s.idleOverride else s.maxIdle;
            var keep := && (s.keepaliveRequests == 0 || l.requestCount + 1 < s.keepaliveRequests)
                        && (s.keepaliveTime == 0 || now - l.createdAt < s.keepaliveTime)
                        && |w.idle| < limit;
            Step(w, s, Finish(id, now)).idle ==
            if keep then w.idle + [IdleConn(id, now, l.createdAt, l.requestCount + 1)] else w.idle
  {
  }

  /** Which idle connection a request gets: the first returned less than `idleTimeout` ago; those before it go. */
  lemma {:induction false} PopExactly(q: seq<IdleConn>, s: Settings, now: nat, k: nat)
    requires k <= |q| && forall i :: 0 <= i < |q| ==> q[i].returnedAt <= now
    requires forall i :: 0 <= i < k ==> now - q[i].returnedAt >= s.idleTimeout
    requires k < |q| ==> now - q[k].returnedAt < s.idleTimeout
    ensures PopFresh(q, s, now) == if k < |q| then Popped(Some(q[k]), q[k + 1..]) else Popped(None, [])
  {
    if k > 0 {
      PopExactly(q[1..], s, now, k - 1);
      assert k < |q| ==> q[1..][k - 1] == q[k] && q[1..][k..] == q[k + 1..];
    }
  }

  /** Over any run: the queue is within the limit of the upstream if it has one, else of the pool. */
  lemma QueueWithinLimit(s: Settings, es: seq<Event>)
    requires Timed(es)
    ensures |Run(EMPTY, s, es).idle| <= if s.idleOverride > 0 then s.idleOverride else s.maxIdle
  {
    RunIsSound(s, es);
  }
}
