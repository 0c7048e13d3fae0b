/**
 * The per-address limiter: 256 shards and a periodic cleanup, against one map that is never cleaned
 * (src/middleware/rate_limit.rs).
 */
module IpLimiter {
  import opened Common
  import opened RateLimit

  const IP_SHARDS: nat := 256

  datatype Rule = Rule(rate: nat, burst: nat, nodelay: bool)

  function Capacity(rule: Rule): nat {
    if rule.burst == 0 then rule.rate else rule.burst
  }

  /** A request from an address, as its 32-bit key, or the cleanup of one shard, with its own reading of the clock. */
  datatype Event = Check(ip: nat, now: real) | CleanShard(k: nat, now: real)

  type Table = map<nat, Bucket>

  function Get(m: Table, ip: nat): Option<Bucket> {
    if ip in m then Some(m[ip]) else None
  }

  /** `entry(ip).or_insert_with(new)`. */
  function Held(o: Option<Bucket>, rule: Rule, now: real): Bucket {
    if o.Some? then o.value else NewBucket(rule.rate, rule.burst, now)
  }

  function Shard(ip: nat): nat {
    ip % IP_SHARDS
  }

  /** `retain(|_, b| b.last_refill.elapsed() < threshold)` on the addresses of one shard. */
  function Kept(m: Table, k: nat, idle: nat, now: real): Table {
    map ip | ip in m && (Shard(ip) == k ==> Elapsed(m[ip].lastRefill, now) < idle as real) :: m[ip]
  }

  // ----- three limiters

  /** One map, cleaned up. */
  function CleanedNext(m: Table, rule: Rule, idle: nat, e: Event): Table {
    match e
    case Check(ip, now) => m[ip := After(Held(Get(m, ip), rule, now), now)]
    case CleanShard(k, now) => Kept(m, k, idle, now)
  }

  function CleanedRun(m: Table, rule: Rule, idle: nat, es: seq<Event>): seq<Verdict>
    decreases |es|
  {
    if es == [] then []
    else Answer(m, rule, es[0]) + CleanedRun(CleanedNext(m, rule, idle, es[0]), rule, idle, es[1..])
  }

  /** One map, never cleaned up: the simple limiter. */
  function SimpleRun(m: Table, rule: Rule, es: seq<Event>): seq<Verdict>
    decreases |es|
  {
    if es == [] then []
    else Answer(m, rule, es[0]) + SimpleRun(SimpleNext(m, rule, es[0]), rule, es[1..])
  }

  function SimpleNext(m: Table, rule: Rule, e: Event): Table {
    if e.Check? then m[e.ip := After(Held(Get(m, e.ip), rule, e.now), e.now)] else m
  }

  /** The answer to a request; a cleanup answers nothing. */
  function Answer(m: Table, rule: Rule, e: Event): seq<Verdict> {
    match e
    case Check(ip, now) => [Attempt(Held(Get(m, ip), rule, now), now, rule.nodelay)]
    case CleanShard(_, _) => []
  }

  /** The source's layout: shard `ip & 0xFF` holds the bucket of `ip`. */
  class Limiter {
    const rule: Rule
    const shards: array<Table>

    predicate Valid()
      reads this
    {
      shards.Length == IP_SHARDS
    }

    constructor (rule: Rule)
      ensures Valid() && this.rule == rule && fresh(shards)
      ensures forall k :: 0 <= k < IP_SHARDS ==> shards[k] == map[]
    {
      this.rule := rule;
      shards := new Table[IP_SHARDS](i => map[]);
    }

    /** The shards answer for every address as the one map `m` does. */
    ghost predicate Holds(m: Table)
      requires Valid()
      reads this, shards
    {
      forall ip: nat :: Get(shards[Shard(ip)], ip) == Get(m, ip)
    }

    method CheckIp(ip: nat, now: real, ghost m: Table) returns (v: Verdict)
      requires Valid() && Holds(m)
      modifies shards
      ensures [v] == Answer(m, rule, Check(ip, now))
      ensures Holds(SimpleNext(m, rule, Check(ip, now)))
    {
      var idx := Shard(ip);
      assert Get(shards[idx], ip) == Get(m, ip);
      var shard := shards[idx];
      var bucket := new TokenBucket.Stored(if ip in shard then shard[ip] else NewBucket(rule.rate, rule.burst, now));
      v := bucket.TryAcquire(now, rule.nodelay);
      shards[idx] := shard[ip := bucket.View()];
    }

    /** One turn of the cleanup loop: the shard is locked, swept and unlocked. */
    method SweepShard(k: nat, idle: nat, now: real, ghost m: Table)
      requires Valid() && Holds(m) && k < IP_SHARDS
      modifies shards
      ensures Holds(Kept(m, k, idle, now))
    {
      var shard := shards[k];
      assert forall ip: nat :: Shard(ip) == k ==> Get(shard, ip) == Get(m, ip);
      shards[k] := map ip | ip in shard && Elapsed(shard[ip].lastRefill, now) < idle as real :: shard[ip];
      forall ip: nat
        ensures Get(shards[Shard(ip)], ip) == Get(Kept(m, k, idle, now), ip)
      {
        assert Get(old(shards[Shard(ip)]), ip) == Get(m, ip);
      }
    }

    /** `cleanup` when no request comes in between: every shard in turn, at the time the clock then shows. */
    method CleanUp(idle: nat, nows: seq<real>, ghost m: Table)
      requires Valid() && Holds(m) && |nows| == IP_SHARDS
      modifies shards
      ensures Holds(Swept(m, idle, nows))
    {
      for k := 0 to IP_SHARDS
        invariant Holds(Swept(m, idle, nows[..k]))
      {
        assert nows[..k + 1][..k] == nows[..k];
        SweepShard(k, idle, nows[k], Swept(m, idle, nows[..k]));
      }
      assert nows[..IP_SHARDS] == nows;
    }
  }

  /** The first shards swept, one after the other. */
  function Swept(m: Table, idle: nat, nows: seq<real>): Table {
    if nows == [] then m else Kept(Swept(m, idle, nows[..|nows| - 1]), |nows| - 1, idle, nows[|nows| - 1])
  }

  method HandleEvent(limiter: Limiter, idle: nat, e: Event, ghost m: Table) returns (vs: seq<Verdict>)
    requires limiter.Valid() && limiter.Holds(m)
    modifies limiter.shards
    ensures vs == Answer(m, limiter.rule, e)
    ensures limiter.Holds(CleanedNext(m, limiter.rule, idle, e))
  {
    match e
    case Check(ip, now) =>
      var v := limiter.CheckIp(ip, now, m);
      vs := [v];
    case CleanShard(k, now) =>
      if k < IP_SHARDS {
        limiter.SweepShard(k, idle, now, m);
      } else {
        assert Kept(m, k, idle, now) == m;
      }
      vs := [];
  }

  /** Any run through the shards answers as one map with the same cleanups. */
  method RunSharded(limiter: Limiter, idle: nat, es: seq<Event>) returns (vs: seq<Verdict>)
    requires limiter.Valid() && limiter.Holds(map[])
    modifies limiter.shards
    ensures vs == CleanedRun(map[], limiter.rule, idle, es)
  {
    vs := [];
    ghost var m: Table := map[];
    for i := 0 to |es|
      invariant limiter.Holds(m)
      invariant vs + CleanedRun(m, limiter.rule, idle, es[i..]) == CleanedRun(map[], limiter.rule, idle, es)
    {
      assert es[i..][1..] == es[i + 1..];
      var v := HandleEvent(limiter, idle, es[i], m);
      ghost var next := CleanedNext(m, limiter.rule, idle, es[i]);
      Assoc(vs, v, CleanedRun(next, limiter.rule, idle, es[i + 1..]));
      vs := vs + v;
      m := next;
    }
  }

  // ----- cleaning up is invisible

  /** What an attempt at time `t` sees. */
  function Seen(o: Option<Bucket>, rule: Rule, t: real): Bucket {
    Refilled(Held(o, rule, t), t)
  }

  /** From time `now` on, no attempt can tell the two entries apart. */
  ghost predicate Alike(a: Option<Bucket>, b: Option<Bucket>, rule: Rule, now: real) {
    forall t :: t >= now ==> Seen(a, rule, t) == Seen(b, rule, t)
  }

  ghost predicate AllAlike(a: Table, b: Table, rule: Rule, now: real) {
    forall ip :: Alike(Get(a, ip), Get(b, ip), rule, now)
  }

  /** Every bucket of the table belongs to the rule and was last used no later than `now`. */
  ghost predicate Owned(m: Table, rule: Rule, now: real) {
    forall ip :: ip in m ==>
                   && Sane(m[ip]) && m[ip].rate == rule.rate as real
                   && m[ip].capacity == Capacity(rule) as real && m[ip].lastRefill <= now
  }

  predicate Timed(es: seq<Event>, now: real)
    decreases |es|
  {
    es == [] || (now <= es[0].now && Timed(es[1..], es[0].now))
  }

  /** In the idle time a bucket earns its whole capacity. */
  predicate FillsUp(rule: Rule, idle: nat) {
    Earned(idle as real, rule.rate as real) >= Capacity(rule) as real
  }

  /** Whole seconds at a whole rate earn whole tokens. */
  lemma WholeTokens(rule: Rule, idle: nat)
    ensures Earned(idle as real, rule.rate as real) == (idle * rule.rate) as real
    ensures FillsUp(rule, idle) <==> idle * rule.rate >= Capacity(rule)
  {
  }

  lemma EarnedGrows(x: real, y: real, rate: real)
    requires x <= y && rate >= 0.0
    ensures Earned(x, rate) <= Earned(y, rate)
  {
    EarnedAdds(x, y - x, rate);
    assert x + (y - x) == y;
  }

  /** A bucket idle long enough to fill up looks like a new one. */
  lemma IdleIsFull(b: Bucket, rule: Rule, idle: nat, now: real)
    requires Sane(b) && b.rate == rule.rate as real && b.capacity == Capacity(rule) as real && b.lastRefill <= now
    requires FillsUp(rule, idle)
    requires Elapsed(b.lastRefill, now) >= idle as real
    ensures Alike(None, Some(b), rule, now)
  {
    forall t | t >= now
      ensures Seen(None, rule, t) == Seen(Some(b), rule, t)
    {
      EarnedGrows(idle as real, Elapsed(b.lastRefill, t), b.rate);
      EarnedAdds(0.0, 0.0, b.rate);
    }
  }

  lemma AttemptSeesSeen(o: Option<Bucket>, rule: Rule, now: real)
    ensures Attempt(Held(o, rule, now), now, rule.nodelay) ==
            (var r := Seen(o, rule, now); if r.tokens >= 1.0 then Allow else Deny(Wait(r, rule.nodelay)))
    ensures After(Held(o, rule, now), now) ==
            (var r := Seen(o, rule, now); if r.tokens >= 1.0 then r.(tokens := r.tokens - 1.0) else r)
  {
  }

  lemma CheckKeeps(a: Table, b: Table, rule: Rule, idle: nat, e: Event, now: real)
    requires e.Check? && now <= e.now
    requires AllAlike(a, b, rule, now) && Owned(b, rule, now)
    ensures Answer(a, rule, e) == Answer(b, rule, e)
    ensures AllAlike(CleanedNext(a, rule, idle, e), SimpleNext(b, rule, e), rule, e.now)
    ensures Owned(SimpleNext(b, rule, e), rule, e.now)
  {
    assert Alike(Get(a, e.ip), Get(b, e.ip), rule, now);
    assert Seen(Get(a, e.ip), rule, e.now) == Seen(Get(b, e.ip), rule, e.now);
    AttemptSeesSeen(Get(a, e.ip), rule, e.now);
    AttemptSeesSeen(Get(b, e.ip), rule, e.now);
    StaysSane(Held(Get(b, e.ip), rule, e.now), e.now);
    var a', b' := CleanedNext(a, rule, idle, e), SimpleNext(b, rule, e);
    forall ip
      ensures Alike(Get(a', ip), Get(b', ip), rule, e.now)
    {
      assert Alike(Get(a, ip), Get(b, ip), rule, now);
    }
  }

  lemma CleanupKeeps(a: Table, b: Table, rule: Rule, idle: nat, e: Event, now: real)
    requires e.CleanShard? && now <= e.now && FillsUp(rule, idle)
    requires AllAlike(a, b, rule, now) && Owned(a, rule, now) && Owned(b, rule, now)
    ensures AllAlike(CleanedNext(a, rule, idle, e), b, rule, e.now)
    ensures Owned(CleanedNext(a, rule, idle, e), rule, e.now)
  {
    var a' := CleanedNext(a, rule, idle, e);
    forall ip
      ensures Alike(Get(a', ip), Get(b, ip), rule, e.now)
    {
      assert Alike(Get(a, ip), Get(b, ip), rule, now);
      if ip in a && ip !in a' {
        IdleIsFull(a[ip], rule, idle, e.now);
      }
    }
  }

  lemma {:induction false} CleanupInvisibleFrom(a: Table, b: Table, rule: Rule, idle: nat, es: seq<Event>, now: real)
    requires FillsUp(rule, idle) && Timed(es, now)
    requires AllAlike(a, b, rule, now) && Owned(a, rule, now) && Owned(b, rule, now)
    ensures CleanedRun(a, rule, idle, es) == SimpleRun(b, rule, es)
    decreases |es|
  {
    if es != [] {
      var e := es[0];
      if e.Check? {
        CheckKeeps(a, b, rule, idle, e, now);
        OwnedNext(a, rule, e, now);
      } else {
        CleanupKeeps(a, b, rule, idle, e, now);
      }
      CleanupInvisibleFrom(CleanedNext(a, rule, idle, e), SimpleNext(b, rule, e), rule, idle, es[1..], e.now);
    }
  }

  lemma OwnedNext(m: Table, rule: Rule, e: Event, now: real)
    requires e.Check? && now <= e.now && Owned(m, rule, now)
    ensures Owned(SimpleNext(m, rule, e), rule, e.now)
  {
    StaysSane(Held(Get(m, e.ip), rule, e.now), e.now);
  }

  // ----- and only then

  function Burst(n: nat, now: real): (es: seq<Event>)
    ensures |es| == n
    ensures forall i :: 0 <= i < n ==> es[i] == Check(0, now)
  {
    seq(n, i => Check(0, now))
  }

  /**
   * The run that tells the two apart: empty the bucket, clean up as soon as that is possible, and ask for a full
   * bucket again.
   */
  function Telltale(rule: Rule, idle: nat): seq<Event> {
    Burst(Capacity(rule), 0.0) + ([CleanShard(0, idle as real)] + Burst(Capacity(rule), idle as real))
  }

  function CleanedAfter(m: Table, rule: Rule, idle: nat, es: seq<Event>): Table
    decreases |es|
  {
    if es == [] then m else CleanedAfter(CleanedNext(m, rule, idle, es[0]), rule, idle, es[1..])
  }

  function SimpleAfter(m: Table, rule: Rule, es: seq<Event>): Table
    decreases |es|
  {
    if es == [] then m else SimpleAfter(SimpleNext(m, rule, es[0]), rule, es[1..])
  }

  lemma {:induction false} CleanedAppend(m: Table, rule: Rule, idle: nat, a: seq<Event>, b: seq<Event>)
    ensures CleanedRun(m, rule, idle, a + b) ==
            CleanedRun(m, rule, idle, a) + CleanedRun(CleanedAfter(m, rule, idle, a), rule, idle, b)
    decreases |a|
  {
    if a == [] {
      assert a + b == b;
    } else {
      assert (a + b)[1..] == a[1..] + b;
      CleanedAppend(CleanedNext(m, rule, idle, a[0]), rule, idle, a[1..], b);
    }
  }

  lemma {:induction false} SimpleAppend(m: Table, rule: Rule, a: seq<Event>, b: seq<Event>)
    ensures SimpleRun(m, rule, a + b) == SimpleRun(m, rule, a) + SimpleRun(SimpleAfter(m, rule, a), rule, b)
    decreases |a|
  {
    if a == [] {
      assert a + b == b;
    } else {
      assert (a + b)[1..] == a[1..] + b;
      SimpleAppend(SimpleNext(m, rule, a[0]), rule, a[1..], b);
    }
  }

  /** Without a cleanup among the events the two limiters are one. */
  lemma {:induction false} BurstSame(m: Table, rule: Rule, idle: nat, n: nat, now: real)
    ensures CleanedRun(m, rule, idle, Burst(n, now)) == SimpleRun(m, rule, Burst(n, now))
    ensures CleanedAfter(m, rule, idle, Burst(n, now)) == SimpleAfter(m, rule, Burst(n, now))
    decreases n
  {
    if n > 0 {
      assert Burst(n, now)[1..] == Burst(n - 1, now);
      BurstSame(SimpleNext(m, rule, Check(0, now)), rule, idle, n - 1, now);
    }
  }

  /** A bucket that shows `k` whole tokens admits exactly the first `k` requests of a burst. */
  lemma {:induction false} BurstLast(m: Table, rule: Rule, k: nat, n: nat, now: real)
    requires Owned(m, rule, now) && Seen(Get(m, 0), rule, now).tokens == k as real
    ensures |SimpleRun(m, rule, Burst(n, now))| == n
    ensures n > 0 ==> (SimpleRun(m, rule, Burst(n, now))[n - 1] == Allow <==> n <= k)
    ensures Owned(SimpleAfter(m, rule, Burst(n, now)), rule, now)
    ensures n > 0 ==> var o := Get(SimpleAfter(m, rule, Burst(n, now)), 0);
                      o.Some? && o.value.lastRefill == now && o.value.tokens == (if n <= k then k - n else 0) as real
    decreases n
  {
    if n > 0 {
      assert Burst(n, now)[1..] == Burst(n - 1, now);
      var next := SimpleNext(m, rule, Check(0, now));
      OwnedNext(m, rule, Check(0, now), now);
      AttemptSeesSeen(Get(m, 0), rule, now);
      var b := next[0];
      assert b.tokens == (if k == 0 then 0 else k - 1) as real && b.lastRefill == now;
      assert Earned(0.0, b.rate) == 0.0;
      assert Seen(Some(b), rule, now).tokens == b.tokens;
      BurstLast(next, rule, if k == 0 then 0 else k - 1, n - 1, now);
    }
  }

  /** The bucket of address 0, empty since time 0, seen `idle` seconds later: as earned, or as new once swept. */
  lemma AfterIdling(m: Table, rule: Rule, idle: nat)
    requires Owned(m, rule, 0.0) && 0 in m && m[0].lastRefill == 0.0 && m[0].tokens == 0.0
    requires !FillsUp(rule, idle)
    ensures Seen(Get(m, 0), rule, idle as real).tokens == Earned(idle as real, rule.rate as real)
    ensures Seen(Get(Kept(m, 0, idle, idle as real), 0), rule, idle as real).tokens == Capacity(rule) as real
    ensures Owned(m, rule, idle as real) && Owned(Kept(m, 0, idle, idle as real), rule, idle as real)
  {
    EarnedAdds(0.0, 0.0, rule.rate as real);
  }

  lemma SecondBurst(m: Table, rule: Rule, idle: nat, k: nat)
    requires k < Capacity(rule)
    requires var t := idle as real;
             && Owned(m, rule, t) && Owned(Kept(m, 0, idle, t), rule, t)
             && Seen(Get(m, 0), rule, t).tokens == k as real
             && Seen(Get(Kept(m, 0, idle, t), 0), rule, t).tokens == Capacity(rule) as real
    ensures var n, tail := Capacity(rule), [CleanShard(0, idle as real)] + Burst(Capacity(rule), idle as real);
            && |CleanedRun(m, rule, idle, tail)| == n && CleanedRun(m, rule, idle, tail)[n - 1] == Allow
            && |SimpleRun(m, rule, tail)| == n && SimpleRun(m, rule, tail)[n - 1] != Allow
  {
    var n, t := Capacity(rule), idle as real;
    assert ([CleanShard(0, t)] + Burst(n, t))[1..] == Burst(n, t);
    BurstSame(Kept(m, 0, idle, t), rule, idle, n, t);
    BurstLast(Kept(m, 0, idle, t), rule, n, n, t);
    BurstLast(m, rule, k, n, t);
  }

  /** The first burst empties a new bucket, in both limiters. */
  lemma FirstBurst(rule: Rule, idle: nat) returns (m: Table)
    requires Capacity(rule) > 0
    ensures m == SimpleAfter(map[], rule, Burst(Capacity(rule), 0.0))
    ensures m == CleanedAfter(map[], rule, idle, Burst(Capacity(rule), 0.0))
    ensures Owned(m, rule, 0.0) && 0 in m && m[0].lastRefill == 0.0 && m[0].tokens == 0.0
  {
    var n := Capacity(rule);
    EarnedAdds(0.0, 0.0, rule.rate as real);
    BurstLast(map[], rule, n, n, 0.0);
    BurstSame(map[], rule, idle, n, 0.0);
    m := SimpleAfter(map[], rule, Burst(n, 0.0));
  }

  lemma LastDiffers(v: seq<Verdict>, a: seq<Verdict>, b: seq<Verdict>)
    requires |a| == |b| > 0 && a[|a| - 1] != b[|b| - 1]
    ensures v + a != v + b
  {
    assert (v + a)[|v| + |a| - 1] == a[|a| - 1] && (v + b)[|v| + |b| - 1] == b[|b| - 1];
  }

  /** When a bucket can be dropped before it has filled up, the telltale run gets different answers. */
  lemma CleanupVisible(rule: Rule, idle: nat, k: nat)
    requires k as real == Earned(idle as real, rule.rate as real) && k < Capacity(rule)
    ensures CleanedRun(map[], rule, idle, Telltale(rule, idle)) != SimpleRun(map[], rule, Telltale(rule, idle))
  {
    var n, t := Capacity(rule), idle as real;
    var first := Burst(n, 0.0);
    var tail := [CleanShard(0, t)] + Burst(n, t);
    var m := FirstBurst(rule, idle);
    AfterIdling(m, rule, idle);
    SecondBurst(m, rule, idle, k);
    CleanedAppend(map[], rule, idle, first, tail);
    SimpleAppend(map[], rule, first, tail);
    BurstSame(map[], rule, idle, n, 0.0);
    LastDiffers(SimpleRun(map[], rule, first), CleanedRun(m, rule, idle, tail), SimpleRun(m, rule, tail));
  }

  lemma {:induction false} BurstTimed(n: nat, now: real, start: real, rest: seq<Event>)
    requires start <= now && Timed(rest, now)
    ensures Timed(Burst(n, now) + rest, start)
    decreases n
  {
    if n == 0 {
      assert Burst(n, now) + rest == rest;
      TimedEarlier(rest, now, start);
    } else {
      assert (Burst(n, now) + rest)[1..] == Burst(n - 1, now) + rest;
      BurstTimed(n - 1, now, now, rest);
    }
  }

  lemma TimedEarlier(es: seq<Event>, now: real, start: real)
    requires start <= now && Timed(es, now)
    ensures Timed(es, start)
  {
  }

  /** Cleaning up never changes an answer, on any run, exactly when an idle bucket has had the time to fill up. */
  lemma CleanupInvisible(rule: Rule, idle: nat)
    ensures (forall es :: Timed(es, 0.0) ==> CleanedRun(map[], rule, idle, es) == SimpleRun(map[], rule, es))
       <==> idle * rule.rate >= Capacity(rule)
  {
    WholeTokens(rule, idle);
    if FillsUp(rule, idle) {
      forall es | Timed(es, 0.0)
        ensures CleanedRun(map[], rule, idle, es) == SimpleRun(map[], rule, es)
      {
        CleanupInvisibleFrom(map[], map[], rule, idle, es, 0.0);
      }
    } else {
      var n, t := Capacity(rule), idle as real;
      assert Burst(n, t) + [] == Burst(n, t);
      BurstTimed(n, t, t, []);
      var tail := [CleanShard(0, t)] + Burst(n, t);
      assert tail[1..] == Burst(n, t);
      BurstTimed(n, 0.0, 0.0, tail);
      CleanupVisible(rule, idle, idle * rule.rate);
    }
  }

  /** A sweep of shard `k` drops exactly the idle buckets of the addresses whose low byte is `k`. */
  lemma SweepExactly(m: Table, k: nat, idle: nat, now: real, ip: nat)
    requires ip in m && m[ip].lastRefill <= now
    ensures ip in Kept(m, k, idle, now) <==> ip % 256 != k || now - m[ip].lastRefill < idle as real
    ensures ip in Kept(m, k, idle, now) ==> Kept(m, k, idle, now)[ip] == m[ip]
  {
  }

  /** A new address is admitted exactly as often at once as its rule allows: the burst, or the rate without one. */
  lemma NewAddress(rule: Rule, n: nat, now: real)
    requires n > 0
    ensures |SimpleRun(map[], rule, Burst(n, now))| == n
    ensures SimpleRun(map[], rule, Burst(n, now))[n - 1] == Allow
       <==> n <= if rule.burst == 0 then rule.rate else rule.burst
  {
    EarnedAdds(0.0, 0.0, rule.rate as real);
    BurstLast(map[], rule, Capacity(rule), n, now);
  }
}
