/** The memory tier of the response cache, against a map of the latest writes (src/middleware/proxy_cache.rs). */
module ProxyCache {
  import opened Common

  datatype CacheKey = CacheKey(verb: string, host: string, path: string)

  /** Status, headers and body of a cached response. */
  datatype Payload = Payload(status: nat, headers: seq<(string, string)>, body: seq<byte>)

  datatype Entry = Entry(payload: Payload, createdAt: nat)

  datatype Settings = Settings(maxEntries: nat, ttl: nat)

  type Table = map<CacheKey, Entry>

  function Age(e: Entry, now: nat): nat {
    if now >= e.createdAt then now - e.createdAt else 0
  }

  predicate Expired(e: Entry, s: Settings, now: nat) {
    Age(e, now) > s.ttl
  }

  function Max(a: nat, b: nat): nat {
    if a >= b then a else b
  }

  function Min(a: nat, b: nat): nat {
    if a <= b then a else b
  }

  /** About a tenth of the capacity, at least one. */
  function EvictCount(s: Settings): nat {
    Max(s.maxEntries / 10, 1)
  }

  /** A set of keys an eviction may drop: exactly as many as it should, and no live entry while an expired one stays. */
  ghost predicate LegalEviction(m: Table, gone: set<CacheKey>, s: Settings, now: nat) {
    && gone <= m.Keys
    && |gone| == Min(EvictCount(s), |m|)
    && ((exists k :: k in gone && !Expired(m[k], s, now)) ==>
          forall k :: k in m && k !in gone ==> !Expired(m[k], s, now))
  }

  class Cache {
    const settings: Settings
    var mem: Table

    constructor (settings: Settings)
      ensures this.settings == settings && mem == map[]
    {
      this.settings := settings;
      mem := map[];
    }

    /** `get` without a disk tier: an expired entry is a miss and is dropped. */
    method Get(key: CacheKey, now: nat) returns (hit: Option<Entry>)
      modifies this
      ensures hit == Lookup(old(mem), settings, key, now)
      ensures mem == AfterGet(old(mem), settings, key, now)
    {
      if key in mem {
        var entry := mem[key];
        if !Expired(entry, settings, now) {
          return Some(entry);
        }
        mem := mem - {key};
      }
      hit := None;
    }

    /** First pass: expired entries in any order, up to the count. */
    method DropExpired(count: nat, now: nat) returns (removed: nat)
      modifies this
      ensures mem.Keys <= old(mem.Keys) && mem == map k | k in mem.Keys :: old(mem)[k]
      ensures forall k :: k in old(mem) && k !in mem ==> Expired(old(mem)[k], settings, now)
      ensures removed == |old(mem)| - |mem| <= count
      ensures removed < count ==> forall k :: k in mem ==> !Expired(mem[k], settings, now)
    {
      removed := 0;
      var todo := mem.Keys;
      while todo != {}
        invariant todo <= mem.Keys <= old(mem.Keys)
        invariant forall k :: k in mem ==> mem[k] == old(mem)[k]
        invariant forall k :: k in old(mem) && k !in mem ==> Expired(old(mem)[k], settings, now)
        invariant removed == |old(mem)| - |mem| <= count
        invariant removed < count ==> forall k :: k in mem && k !in todo ==> !Expired(mem[k], settings, now)
        decreases todo
      {
        var k :| k in todo;
        todo := todo - {k};
        if removed < count && Expired(mem[k], settings, now) {
          Shrinks(mem, k);
          mem := mem - {k};
          removed := removed + 1;
        }
      }
    }

    /** Second pass: entries in any order, up to the count. */
    method DropAny(count: nat)
      modifies this
      ensures mem.Keys <= old(mem.Keys) && mem == map k | k in mem.Keys :: old(mem)[k]
      ensures |mem| == |old(mem)| - Min(count, |old(mem)|)
    {
      var removed := 0;
      var todo := mem.Keys;
      while todo != {}
        invariant todo <= mem.Keys <= old(mem.Keys)
        invariant forall k :: k in mem ==> mem[k] == old(mem)[k]
        invariant removed == |old(mem)| - |mem| <= count
        invariant removed < count ==> |mem| == |todo|
        decreases todo
      {
        var k :| k in todo;
        if removed < count {
          Shrinks(mem, k);
          mem := mem - {k};
          removed := removed + 1;
        }
        todo := todo - {k};
      }
    }

    /** `evict`: both passes together drop a legal set, whichever order the map is walked in. */
    method Evict(now: nat) returns (ghost gone: set<CacheKey>)
      modifies this
      ensures LegalEviction(old(mem), gone, settings, now)
      ensures mem == old(mem) - gone
    {
      ghost var was := mem;
      var count := Max(settings.maxEntries / 10, 1);
      var removed := DropExpired(count, now);
      ghost var mid := mem;
      if removed < count {
        DropAny(count - removed);
      }
      gone := was.Keys - mem.Keys;
      BothPasses(was, mid, mem, settings, now);
    }

    method Set(key: CacheKey, payload: Payload, now: nat) returns (ghost gone: set<CacheKey>)
      modifies this
      ensures LegalSet(old(mem), gone, settings, now)
      ensures mem == AfterSet(old(mem), key, payload, now, gone)
    {
      gone := {};
      if |mem| >= settings.maxEntries {
        gone := Evict(now);
      }
      mem := mem[key := Entry(payload, now)];
    }

    method PurgeAll()
      modifies this
      ensures mem == map[]
    {
      mem := map[];
    }
  }

  /** The part of a table that some keys select. */
  predicate Part(sub: Table, m: Table) {
    sub.Keys <= m.Keys && forall k :: k in sub ==> sub[k] == m[k]
  }

  /** A live entry goes only when no expired one stays. */
  lemma ExpiredFirst(was: Table, mid: Table, end: Table, s: Settings, now: nat)
    requires Part(mid, was) && Part(end, mid)
    requires forall k :: k in was && k !in mid ==> Expired(was[k], s, now)
    requires end == mid || forall k :: k in mid ==> !Expired(mid[k], s, now)
    ensures (exists k :: k in was && k !in end && !Expired(was[k], s, now)) ==>
              forall k :: k in end ==> !Expired(was[k], s, now)
  {
  }

  /** Expired entries first, then any, up to the count. */
  lemma BothPasses(was: Table, mid: Table, end: Table, s: Settings, now: nat)
    requires Part(mid, was) && Part(end, mid)
    requires forall k :: k in was && k !in mid ==> Expired(was[k], s, now)
    requires end == mid || forall k :: k in mid ==> !Expired(mid[k], s, now)
    requires |end| == |was| - Min(EvictCount(s), |was|)
    ensures LegalEviction(was, was.Keys - end.Keys, s, now)
    ensures end == was - (was.Keys - end.Keys)
  {
    KeysSplit(was, end);
    ExpiredFirst(was, mid, end, s, now);
    var gone := was.Keys - end.Keys;
    if k :| k in gone && !Expired(was[k], s, now) {
      assert k in was && k !in end;
    }
    assert (was - gone).Keys == end.Keys;
  }

  lemma Shrinks(m: Table, k: CacheKey)
    requires k in m
    ensures |m - {k}| == |m| - 1
  {
    assert (m - {k}).Keys == m.Keys - {k};
    assert |(m - {k}).Keys| == |m - {k}| && |m.Keys| == |m|;
  }

  lemma KeysSplit(m: Table, sub: Table)
    requires sub.Keys <= m.Keys
    ensures |m.Keys - sub.Keys| == |m| - |sub|
  {
    assert m.Keys == sub.Keys + (m.Keys - sub.Keys);
    assert |m.Keys| == |m| && |sub.Keys| == |sub|;
  }

  // ----- the operations on values

  function Lookup(m: Table, s: Settings, key: CacheKey, now: nat): Option<Entry> {
    if key in m && !Expired(m[key], s, now) then Some(m[key]) else None
  }

  function AfterGet(m: Table, s: Settings, key: CacheKey, now: nat): Table {
    if key in m && Expired(m[key], s, now) then m - {key} else m
  }

  ghost predicate LegalSet(m: Table, gone: set<CacheKey>, s: Settings, now: nat) {
    if |m| >= s.maxEntries then LegalEviction(m, gone, s, now) else gone == {}
  }

  function AfterSet(m: Table, key: CacheKey, payload: Payload, now: nat, gone: set<CacheKey>): Table {
    (m - gone)[key := Entry(payload, now)]
  }

  // ----- whole runs

  /** A write records which keys its eviction dropped. */
  datatype Op =
    | Get(key: CacheKey, now: nat)
    | Set(key: CacheKey, payload: Payload, now: nat, gone: set<CacheKey>)
    | Purge(now: nat)

  function Step(m: Table, s: Settings, op: Op): Table {
    match op
    case Get(key, now) => AfterGet(m, s, key, now)
    case Set(key, payload, now, gone) => AfterSet(m, key, payload, now, gone)
    case Purge(_) => map[]
  }

  function Run(s: Settings, ops: seq<Op>): Table {
    if ops == [] then map[] else Step(Run(s, ops[..|ops| - 1]), s, ops[|ops| - 1])
  }

  /** Every eviction of the run is one the code can make. */
  ghost predicate Legal(s: Settings, ops: seq<Op>) {
    forall i :: 0 <= i < |ops| && ops[i].Set? ==> LegalSet(Run(s, ops[..i]), ops[i].gone, s, ops[i].now)
  }

  /** The latest write to a key since the last purge: the simple map. */
  function Latest(ops: seq<Op>, key: CacheKey): Option<Entry> {
    if ops == [] then None
    else
      var op := ops[|ops| - 1];
      if op.Purge? then None
      else if op.Set? && op.key == key then Some(Entry(op.payload, op.now))
      else Latest(ops[..|ops| - 1], key)
  }

  lemma {:induction false} HoldsOnlyLatest(s: Settings, ops: seq<Op>)
    ensures forall key :: key in Run(s, ops) ==> Latest(ops, key) == Some(Run(s, ops)[key])
    decreases |ops|
  {
    if ops != [] {
      HoldsOnlyLatest(s, ops[..|ops| - 1]);
    }
  }

  /** A hit is exactly the latest write of its key since the last purge, and no older than the time to live. */
  lemma HitIsLatest(s: Settings, ops: seq<Op>, key: CacheKey, now: nat)
    ensures var hit := Lookup(Run(s, ops), s, key, now);
            hit.Some? ==> hit == Latest(ops, key) && Age(hit.value, now) <= s.ttl
  {
    HoldsOnlyLatest(s, ops);
  }

  /** The table never holds more than its capacity, or one entry when that is zero. */
  lemma {:induction false} NeverOverfull(s: Settings, ops: seq<Op>)
    requires Legal(s, ops)
    ensures |Run(s, ops)| <= Max(1, s.maxEntries)
    decreases |ops|
  {
    if ops != [] {
      var n := |ops| - 1;
      var before, op := ops[..n], ops[n];
      LegalPrefix(s, ops);
      NeverOverfull(s, before);
      var m := Run(s, before);
      match op
      case Get(key, now) =>
        if key in m {
          Shrinks(m, key);
        }
      case Set(key, payload, now, gone) =>
        assert ops[..n] == before && LegalSet(m, gone, s, now);
        assert m != map[] ==> |m| > 0 by {
          if |m| == 0 {
            assert |m.Keys| == 0;
          }
        }
        SetSize(m, s, key, Entry(payload, now), gone);
      case Purge(_) =>
    }
  }

  lemma LegalPrefix(s: Settings, ops: seq<Op>)
    requires ops != [] && Legal(s, ops)
    ensures Legal(s, ops[..|ops| - 1])
  {
    var before := ops[..|ops| - 1];
    forall i | 0 <= i < |before| && before[i].Set?
      ensures LegalSet(Run(s, before[..i]), before[i].gone, s, before[i].now)
    {
      assert before[..i] == ops[..i] && before[i] == ops[i];
    }
  }

  lemma SetSize(m: Table, s: Settings, key: CacheKey, e: Entry, gone: set<CacheKey>)
    requires gone <= m.Keys && |m| <= Max(1, s.maxEntries)
    requires |m| >= s.maxEntries && m != map[] ==> |gone| >= 1
    ensures |(m - gone)[key := e]| <= Max(1, s.maxEntries)
  {
    var kept := m - gone;
    assert kept.Keys == m.Keys - gone;
    assert |kept.Keys| == |kept| && |m.Keys| == |m|;
    assert |m.Keys - gone| == |m.Keys| - |gone|;
    var r := kept[key := e];
    assert r.Keys == kept.Keys + {key};
    assert |r.Keys| == |r|;
    assert m == map[] ==> |m| == 0;
  }

  ghost predicate Timed(ops: seq<Op>, now: nat) {
    && (forall i :: 0 <= i < |ops| ==> ops[i].now <= now)
    && (forall i, j :: 0 <= i < j < |ops| ==> ops[i].now <= ops[j].now)
  }

  /** Some write after the latest one to the key, and after the last purge, has dropped the key. */
  predicate Evicted(ops: seq<Op>, key: CacheKey) {
    ops != [] &&
    var op, before := ops[|ops| - 1], ops[..|ops| - 1];
    match op
    case Get(_, _) => Evicted(before, key)
    case Set(k, _, _, gone) => k != key && (key in gone || Evicted(before, key))
    case Purge(_) => false
  }

  lemma {:induction false} EvictedIsGone(s: Settings, ops: seq<Op>, key: CacheKey)
    requires Evicted(ops, key)
    ensures key !in Run(s, ops)
    decreases |ops|
  {
    var before := ops[..|ops| - 1];
    if Evicted(before, key) {
      EvictedIsGone(s, before, key);
    }
  }

  /**
   * In every run with a clock that does not run backwards, a lookup finds the latest write of its key since the last
   * purge exactly when that write is not expired and no later write has dropped the key; otherwise it finds nothing.
   */
  lemma {:induction false} LookupExactly(s: Settings, ops: seq<Op>, key: CacheKey, now: nat)
    requires Timed(ops, now)
    ensures Lookup(Run(s, ops), s, key, now) ==
            var l := Latest(ops, key);
            if l.Some? && !Expired(l.value, s, now) && !Evicted(ops, key) then l else None
    decreases |ops|
  {
    HitIsLatest(s, ops, key, now);
    if Evicted(ops, key) {
      EvictedIsGone(s, ops, key);
    } else if ops != [] {
      LookupExactly(s, ops[..|ops| - 1], key, now);
    }
  }

  /** The same with the age written out: found exactly while at most `ttl` seconds old. */
  lemma FoundWhileFresh(s: Settings, ops: seq<Op>, key: CacheKey, now: nat)
    requires Timed(ops, now)
    ensures var l := Latest(ops, key);
            Lookup(Run(s, ops), s, key, now) ==
            if l.Some? && now - l.value.createdAt <= s.ttl && !Evicted(ops, key) then l else None
  {
    LookupExactly(s, ops, key, now);
    LatestIsPast(ops, key, now);
  }

  lemma {:induction false} LatestIsPast(ops: seq<Op>, key: CacheKey, now: nat)
    requires Timed(ops, now)
    ensures Latest(ops, key).Some? ==> Latest(ops, key).value.createdAt <= now
    decreases |ops|
  {
    if ops != [] {
      LatestIsPast(ops[..|ops| - 1], key, now);
    }
  }

  /** Every write of the run is to one of these keys. */
  ghost predicate WritesOnly(ops: seq<Op>, keys: set<CacheKey>) {
    forall i :: 0 <= i < |ops| && ops[i].Set? ==> ops[i].key in keys
  }

  lemma {:induction false} HoldsOnlyWritten(s: Settings, ops: seq<Op>, keys: set<CacheKey>)
    requires WritesOnly(ops, keys)
    ensures Run(s, ops).Keys <= keys
    decreases |ops|
  {
    if ops != [] {
      HoldsOnlyWritten(s, ops[..|ops| - 1], keys);
    }
  }

  /** While fewer keys are written than there is room for, nothing is ever evicted. */
  lemma {:induction false} RoomForAll(s: Settings, ops: seq<Op>, keys: set<CacheKey>, key: CacheKey)
    requires Legal(s, ops) && WritesOnly(ops, keys) && |keys| < s.maxEntries
    ensures !Evicted(ops, key)
    decreases |ops|
  {
    if ops != [] {
      var n := |ops| - 1;
      LegalPrefix(s, ops);
      RoomForAll(s, ops[..n], keys, key);
      HoldsOnlyWritten(s, ops[..n], keys);
      SubsetSize(Run(s, ops[..n]), keys);
      assert ops[n].Set? ==> LegalSet(Run(s, ops[..n]), ops[n].gone, s, ops[n].now);
    }
  }

  lemma SubsetSize(m: Table, keys: set<CacheKey>)
    requires m.Keys <= keys
    ensures |m| <= |keys|
  {
    assert keys == m.Keys + (keys - m.Keys);
    assert |m.Keys| == |m|;
  }

  /** A write to a full table first drops a tenth of its capacity, at least one entry, or all there are. */
  lemma EvictionSize(m: Table, gone: set<CacheKey>, s: Settings, now: nat)
    requires LegalSet(m, gone, s, now)
    ensures |gone| == if |m| < s.maxEntries then 0
                      else
                        var tenth := if s.maxEntries < 10 then 1 else s.maxEntries / 10;
                        if tenth <= |m| then tenth else |m|
  {
  }

  /** A lookup drops the key exactly when it does not find it, and leaves every other key alone. */
  lemma ExpiredIsDropped(s: Settings, ops: seq<Op>, key: CacheKey, now: nat, other: CacheKey)
    ensures var before, after := Run(s, ops), Run(s, ops + [Get(key, now)]);
            && (key in after <==> Lookup(before, s, key, now).Some?)
            && (other != key ==> (other in after <==> other in before))
            && (other in after ==> after[other] == before[other])
  {
    assert (ops + [Get(key, now)])[..|ops|] == ops;
  }
}
