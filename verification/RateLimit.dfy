/** Token buckets, sharded by client address and cleaned up when idle (src/middleware/rate_limit.rs). */
module RateLimit {
  import opened Common

  // ----- one bucket

  /** Token counts and seconds as real numbers. */
  datatype Bucket = Bucket(tokens: real, lastRefill: real, rate: real, capacity: real)

  /** `TokenBucket::new`: full, with the rate as capacity when no burst is configured. */
  function NewBucket(rate: nat, burst: nat, now: real): Bucket {
    var cap := if burst == 0 then rate as real else burst as real;
    Bucket(cap, now, rate as real, cap)
  }

  predicate Sane(b: Bucket) {
    0.0 <= b.tokens <= b.capacity && 0.0 <= b.rate
  }

  function Min(a: real, b: real): real {
    if a <= b then a else b
  }

  /** `duration_since`, which is zero when the clock has not advanced. */
  function Elapsed(since: real, now: real): (d: real)
    ensures d >= 0.0
  {
    if now >= since then now - since else 0.0
  }

  /** The tokens earned in `d` seconds. */
  function Earned(d: real, rate: real): real {
    d * rate
  }

  function Refilled(b: Bucket, now: real): Bucket {
    b.(tokens := Min(b.tokens + Earned(Elapsed(b.lastRefill, now), b.rate), b.capacity), lastRefill := now)
  }

  datatype Verdict = Allow | Deny(wait: real)

  predicate Admits(b: Bucket, now: real) {
    Refilled(b, now).tokens >= 1.0
  }

  /** The bucket after one attempt. */
  function After(b: Bucket, now: real): Bucket {
    var r := Refilled(b, now);
    if r.tokens >= 1.0 then r.(tokens := r.tokens - 1.0) else r
  }

  function Ceil(x: real): (n: int)
    ensures n as real - 1.0 < x <= n as real
  {
    if x == x.Floor as real then x.Floor else x.Floor + 1
  }

  function Wait(b: Bucket, nodelay: bool): real
  {
    var wait := if b.rate > 0.0 then (1.0 - b.tokens) / b.rate else 1.0;
    if nodelay then Ceil(wait) as real else wait
  }

  function Attempt(b: Bucket, now: real, nodelay: bool): Verdict {
    if Admits(b, now) then Allow else Deny(Wait(After(b, now), nodelay))
  }

  class TokenBucket {
    var tokens: real
    var lastRefill: real
    const rate: real
    const capacity: real

    function View(): Bucket
      reads this
    {
      Bucket(tokens, lastRefill, rate, capacity)
    }

    constructor (rate: nat, burst: nat, now: real)
      ensures View() == NewBucket(rate, burst, now)
    {
      var cap := if burst == 0 then rate as real else burst as real;
      tokens, lastRefill, this.rate, capacity := cap, now, rate as real, cap;
    }

    constructor Stored(b: Bucket)
      ensures View() == b
    {
      tokens, lastRefill, rate, capacity := b.tokens, b.lastRefill, b.rate, b.capacity;
    }

    method Refill(now: real)
      modifies this
      ensures View() == Refilled(old(View()), now)
    {
      var elapsed := Elapsed(lastRefill, now);
      tokens := Min(tokens + Earned(elapsed, rate), capacity);
      lastRefill := now;
    }

    /** `try_acquire_nodelay`. */
    method TryAcquire(now: real, nodelay: bool) returns (v: Verdict)
      modifies this
      ensures View() == After(old(View()), now)
      ensures v == Attempt(old(View()), now, nodelay)
    {
      Refill(now);
      if tokens >= 1.0 {
        tokens := tokens - 1.0;
        v := Allow;
      } else {
        var wait := if rate > 0.0 then (1.0 - tokens) / rate else 1.0;
        v := Deny(if nodelay then Ceil(wait) as real else wait);
      }
    }
  }

  lemma StaysSane(b: Bucket, now: real)
    requires Sane(b)
    ensures Sane(Refilled(b, now)) && Sane(After(b, now))
  {
    assert Earned(Elapsed(b.lastRefill, now), b.rate) >= 0.0;
  }

  // ----- how many requests a run admits

  ghost predicate NonDecreasing(ts: seq<real>) {
    forall i, j :: 0 <= i < j < |ts| ==> ts[i] <= ts[j]
  }

  /** How many of the attempts at `ts` the bucket admits at a time within [s, t]. */
  function AdmittedWithin(b: Bucket, ts: seq<real>, s: real, t: real): nat
    decreases |ts|
  {
    if ts == [] then 0
    else (if Admits(b, ts[0]) && s <= ts[0] <= t then 1 else 0) + AdmittedWithin(After(b, ts[0]), ts[1..], s, t)
  }

  /** The tokens the bucket holds or will have earned by time `t`. */
  function Credit(b: Bucket, t: real): real {
    b.tokens + Earned(t - b.lastRefill, b.rate)
  }

  lemma EarnedAdds(x: real, y: real, rate: real)
    requires rate >= 0.0
    ensures Earned(x + y, rate) == Earned(x, rate) + Earned(y, rate)
    ensures x >= 0.0 ==> Earned(x, rate) >= 0.0
    ensures y >= 0.0 ==> Earned(y, rate) >= 0.0
  {
  }

  /** What a bucket may admit in [s, t]. */
  function Allowance(b: Bucket, s: real, t: real): real {
    b.capacity + Earned(t - s, b.rate)
  }

  /** An admission costs one token of credit, and nothing ever adds credit. */
  lemma StepPays(b: Bucket, now: real, t: real)
    requires Sane(b) && b.lastRefill <= now <= t
    ensures Credit(After(b, now), t) + (if Admits(b, now) then 1.0 else 0.0) <= Credit(b, t)
    ensures 0.0 <= Credit(b, t)
  {
    EarnedAdds(now - b.lastRefill, t - now, b.rate);
    assert now - b.lastRefill + (t - now) == t - b.lastRefill;
  }

  /** From a bucket that is at most full, the credit left after an attempt in [s, t] keeps within the allowance. */
  lemma StepFromFull(b: Bucket, now: real, s: real, t: real)
    requires Sane(b) && b.lastRefill <= now && s <= now <= t
    ensures Credit(After(b, now), t) + (if Admits(b, now) then 1.0 else 0.0) <= Allowance(b, s, t)
  {
    EarnedAdds(now - s, t - now, b.rate);
    assert now - s + (t - now) == t - s;
  }

  lemma AllowanceIsPositive(b: Bucket, s: real, t: real)
    requires Sane(b) && s <= t
    ensures Allowance(b, s, t) >= 0.0
  {
    EarnedAdds(t - s, 0.0, b.rate);
  }

  /** From any point of a run on, each admission until `t` is paid for with credit. */
  lemma {:induction false} PaidFor(b: Bucket, ts: seq<real>, s: real, t: real)
    requires Sane(b) && NonDecreasing(ts) && b.lastRefill <= t
    requires forall i :: 0 <= i < |ts| ==> b.lastRefill <= ts[i]
    ensures AdmittedWithin(b, ts, s, t) as real <= Credit(b, t)
    decreases |ts|
  {
    StepPays(b, t, t);
    if ts != [] {
      var now := ts[0];
      StaysSane(b, now);
      if now <= t {
        StepPays(b, now, t);
        PaidFor(After(b, now), ts[1..], s, t);
      } else {
        NoneAfter(b, ts, s, t);
      }
    }
  }

  lemma {:induction false} NoneAfter(b: Bucket, ts: seq<real>, s: real, t: real)
    requires forall i :: 0 <= i < |ts| ==> t < ts[i]
    ensures AdmittedWithin(b, ts, s, t) == 0
    decreases |ts|
  {
    if ts != [] {
      NoneAfter(After(b, ts[0]), ts[1..], s, t);
    }
  }

  /** Over every run, at most capacity + rate * (t - s) requests are admitted in [s, t]. */
  lemma {:induction false} BurstBound(b: Bucket, ts: seq<real>, s: real, t: real)
    requires Sane(b) && NonDecreasing(ts) && s <= t
    requires forall i :: 0 <= i < |ts| ==> b.lastRefill <= ts[i]
    ensures AdmittedWithin(b, ts, s, t) as real <= Allowance(b, s, t)
    decreases |ts|
  {
    AllowanceIsPositive(b, s, t);
    if ts != [] {
      var now := ts[0];
      var next := After(b, now);
      StaysSane(b, now);
      if now < s {
        BurstBound(next, ts[1..], s, t);
        assert Allowance(next, s, t) == Allowance(b, s, t);
      } else if now <= t {
        StepFromFull(b, now, s, t);
        PaidFor(next, ts[1..], s, t);
      } else {
        NoneAfter(b, ts, s, t);
      }
    }
  }

  /** The bound with its product written out. */
  lemma BurstBoundPlain(b: Bucket, ts: seq<real>, s: real, t: real)
    requires Sane(b) && NonDecreasing(ts) && s <= t
    requires forall i :: 0 <= i < |ts| ==> b.lastRefill <= ts[i]
    ensures AdmittedWithin(b, ts, s, t) as real <= b.capacity + b.rate * (t - s)
  {
    BurstBound(b, ts, s, t);
  }

  /** What an attempt finds: the tokens of before and those earned since, up to the capacity; one of them goes. */
  lemma AttemptExactly(b: Bucket, now: real)
    requires b.lastRefill <= now
    ensures var full := b.tokens + b.rate * (now - b.lastRefill);
            var found := if full <= b.capacity then full else b.capacity;
            && (Admits(b, now) <==> found >= 1.0)
            && After(b, now) == b.(tokens := if found >= 1.0 then found - 1.0 else found, lastRefill := now)
  {
    assert Earned(now - b.lastRefill, b.rate) == b.rate * (now - b.lastRefill);
  }

  // ----- waiting out a denial

  /** The header value sent with a denial: whole seconds, at least one. */
  function RetryAfter(wait: real): int {
    if Ceil(wait) >= 1 then Ceil(wait) else 1
  }

  lemma EarnedBy(b: Bucket, d: real)
    requires Sane(b) && b.rate > 0.0 && d >= (1.0 - b.tokens) / b.rate
    ensures b.tokens + Earned(d, b.rate) >= 1.0
  {
    var q := (1.0 - b.tokens) / b.rate;
    assert Earned(q, b.rate) == 1.0 - b.tokens;
    EarnedAdds(q, d - q, b.rate);
    assert q + (d - q) == d;
  }

  /** A denied caller that waits the advertised time, undisturbed, gets in exactly when tokens are ever earned. */
  lemma WaitingWorks(rate: nat, burst: nat, b: Bucket, now: real, nodelay: bool)
    requires Sane(b) && b.rate == rate as real && b.capacity == (if burst == 0 then rate as real else burst as real)
    requires Attempt(b, now, nodelay).Deny?
    ensures var w := Attempt(b, now, nodelay).wait;
            && (Admits(After(b, now), now + w) <==> rate > 0)
            && (Admits(After(b, now), now + RetryAfter(w) as real) <==> rate > 0)
  {
    StaysSane(b, now);
    var d := After(b, now);
    var w := Attempt(b, now, nodelay).wait;
    var r := RetryAfter(w) as real;
    assert r >= w && w >= 0.0 by {
      if rate > 0 {
        WaitBounds(d);
      }
    }
    if rate > 0 {
      WaitBounds(d);
      EarnedBy(d, w);
      EarnedBy(d, r);
    }
  }

  lemma WaitBounds(d: Bucket)
    requires Sane(d) && d.rate >= 1.0 && d.tokens < 1.0
    ensures 0.0 < (1.0 - d.tokens) / d.rate <= 1.0
  {
    var r := d.rate;
    var q := (1.0 - d.tokens) / r;
    assert q * r == 1.0 - d.tokens;
    assert q > 1.0 ==> q * r > r;
    assert q <= 0.0 ==> q * r <= 0.0;
  }

  /** Every denial advertises one second, whatever the rate. */
  lemma RetryIsOneSecond(b: Bucket, now: real, nodelay: bool)
    requires Sane(b) && (b.rate == 0.0 || b.rate >= 1.0)
    requires Attempt(b, now, nodelay).Deny?
    ensures RetryAfter(Attempt(b, now, nodelay).wait) == 1
  {
    StaysSane(b, now);
    if b.rate > 0.0 {
      WaitBounds(After(b, now));
    }
  }

  lemma EarnedLess(d: Bucket, x: real)
    requires d.rate > 0.0 && 0.0 <= x < (1.0 - d.tokens) / d.rate
    ensures d.tokens + Earned(x, d.rate) < 1.0
  {
    var q := (1.0 - d.tokens) / d.rate;
    assert Earned(q, d.rate) == 1.0 - d.tokens;
    assert Earned(q - x, d.rate) > 0.0;
    EarnedAdds(x, q - x, d.rate);
    assert x + (q - x) == q;
  }

  /** The precise wait is the least one: an undisturbed caller gets in after it and not before. */
  lemma WaitIsLeast(rate: nat, burst: nat, b: Bucket, now: real, x: real)
    requires Sane(b) && b.rate == rate as real && b.capacity == (if burst == 0 then rate as real else burst as real)
    requires rate > 0 && Attempt(b, now, false).Deny? && x >= 0.0
    ensures Admits(After(b, now), now + x) <==> x >= Attempt(b, now, false).wait
  {
    StaysSane(b, now);
    var d := After(b, now);
    assert Elapsed(d.lastRefill, now + x) == x;
    if x >= Attempt(b, now, false).wait {
      EarnedBy(d, x);
    } else {
      EarnedLess(d, x);
    }
  }
}
