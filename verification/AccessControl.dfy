/** Allow and deny rules by address (src/middleware/access_control.rs). */
module AccessControl {
  import opened Common
  import opened StableSort

  /** A machine word, most significant bit first. */
  type Bits = seq<bool>

  datatype RawIpAddr = V4(bits: Bits) | V6(bits: Bits)
  type IpAddr = a: RawIpAddr | |a.bits| == Width(a) witness V4(seq(32, i => false))

  function Width(a: RawIpAddr): nat {
    if a.V4? then 32 else 128
  }

  // ----- the mask test

  function Ones(w: nat): (r: Bits)
    ensures |r| == w && forall i :: 0 <= i < w ==> r[i]
  {
    seq(w, i => true)
  }

  function Zeros(w: nat): (r: Bits)
    ensures |r| == w && forall i :: 0 <= i < w ==> !r[i]
  {
    seq(w, i => false)
  }

  function And(a: Bits, b: Bits): (r: Bits)
    requires |a| == |b|
    ensures |r| == |a| && forall i :: 0 <= i < |a| ==> r[i] == (a[i] && b[i])
  {
    seq(|a|, i requires 0 <= i < |a| => a[i] && b[i])
  }

  /** `checked_shl(k).unwrap_or(0)`. */
  function Shl(x: Bits, k: int): (r: Bits)
    ensures |r| == |x|
  {
    if 0 <= k < |x| then x[k..] + Zeros(k) else Zeros(|x|)
  }

  /** `cidr_contains`: the families must agree; a zero-length prefix contains everything of its family. */
  predicate CidrContains(network: IpAddr, prefixLen: nat, ip: IpAddr) {
    network.V4? == ip.V4? &&
    (prefixLen == 0 ||
     var mask := Shl(Ones(Width(ip)), Width(ip) - prefixLen);
     And(network.bits, mask) == And(ip.bits, mask))
  }

  lemma MaskBits(w: nat, p: nat)
    requires 0 < p <= w
    ensures var mask := Shl(Ones(w), w - p); forall i :: 0 <= i < w ==> (mask[i] <==> i < p)
  {
  }

  /** The mask test compares exactly the leading `prefixLen` bits, for both families. */
  lemma MaskTestIsPrefix(network: IpAddr, prefixLen: nat, ip: IpAddr)
    requires network.V4? == ip.V4? && prefixLen <= Width(ip)
    ensures CidrContains(network, prefixLen, ip) <==> network.bits[..prefixLen] == ip.bits[..prefixLen]
  {
    if prefixLen > 0 {
      var w := Width(ip);
      var mask := Shl(Ones(w), w - prefixLen);
      MaskBits(w, prefixLen);
      var a, b := And(network.bits, mask), And(ip.bits, mask);
      if network.bits[..prefixLen] == ip.bits[..prefixLen] {
        forall i | 0 <= i < w
          ensures a[i] == b[i]
        {
          assert i < prefixLen ==> network.bits[..prefixLen][i] == ip.bits[..prefixLen][i];
        }
        assert a == b;
      }
      if a == b {
        forall i | 0 <= i < prefixLen
          ensures network.bits[i] == ip.bits[i]
        {
          assert a[i] == b[i];
        }
      }
    }
  }

  // ----- rules

  datatype Matcher = All | Exact(addr: IpAddr) | Cidr(network: IpAddr, prefixLen: nat)

  predicate Matches(m: Matcher, ip: IpAddr) {
    match m
    case All => true
    case Exact(addr) => addr == ip
    case Cidr(network, prefixLen) => CidrContains(network, prefixLen, ip)
  }

  datatype Action = Allow | Deny

  datatype AccessRule = AccessRule(action: Action, source: string, priority: nat)

  datatype CompiledRule = CompiledRule(action: Action, matcher: Matcher)

  datatype Ranked = Ranked(priority: nat, rule: CompiledRule)

  /** `IpMatcher::parse` is a parameter: the source text of a rule to its matcher, or None when it is invalid. */
  type Parser = string -> Option<Matcher>

  /** The valid rules, compiled, in configuration order. */
  function Valid(rules: seq<AccessRule>, parse: Parser): seq<Ranked> {
    if rules == [] then []
    else
      var r := rules[0];
      var m := parse(r.source);
      (if m.Some? then [Ranked(r.priority, CompiledRule(r.action, m.value))] else []) + Valid(rules[1..], parse)
  }

  function Priority(): Ranked -> int {
    (r: Ranked) => r.priority
  }

  function Rules(rs: seq<Ranked>): seq<CompiledRule> {
    if rs == [] then [] else [rs[0].rule] + Rules(rs[1..])
  }

  /** `compile_rules`: drop the invalid, sort by priority keeping the configuration order, strip the priorities. */
  method CompileRules(rules: seq<AccessRule>, parse: Parser) returns (compiled: seq<CompiledRule>)
    ensures compiled == Rules(Sort(Valid(rules, parse), Priority()))
  {
    var ranked: seq<Ranked> := [];
    for i := 0 to |rules|
      invariant ranked + Valid(rules[i..], parse) == Valid(rules, parse)
    {
      var r := rules[i];
      assert rules[i..][0] == r && rules[i..][1..] == rules[i + 1..];
      var m := parse(r.source);
      if m.Some? {
        var entry := Ranked(r.priority, CompiledRule(r.action, m.value));
        Assoc(ranked, [entry], Valid(rules[i + 1..], parse));
        ranked := ranked + [entry];
      } else {
        assert [] + Valid(rules[i + 1..], parse) == Valid(rules[i + 1..], parse);
      }
    }
    assert ranked == Valid(rules, parse);
    compiled := Rules(Sort(ranked, Priority()));
  }

  /** The first matching rule decides; without one, access is allowed. */
  function Decision(rules: seq<CompiledRule>, ip: IpAddr): Action {
    if rules == [] then Allow
    else if Matches(rules[0].matcher, ip) then rules[0].action
    else Decision(rules[1..], ip)
  }

  method CheckAccess(rules: seq<CompiledRule>, ip: IpAddr) returns (action: Action)
    ensures action == Decision(rules, ip)
  {
    for i := 0 to |rules|
      invariant Decision(rules[i..], ip) == Decision(rules, ip)
    {
      assert rules[i..][1..] == rules[i + 1..];
      if Matches(rules[i].matcher, ip) {
        return rules[i].action;
      }
    }
    action := Allow;
  }

  // ----- what the sorted list decides

  function Applies(ip: IpAddr): Ranked -> bool {
    (r: Ranked) => Matches(r.rule.matcher, ip)
  }

  lemma {:induction false} DecisionIsFirst(rs: seq<Ranked>, ip: IpAddr)
    ensures var f := First(rs, Applies(ip));
            Decision(Rules(rs), ip) == if f.Some? then f.value.rule.action else Allow
  {
    if rs != [] {
      DecisionIsFirst(rs[1..], ip);
      assert ([rs[0].rule] + Rules(rs[1..]))[1..] == Rules(rs[1..]);
    }
  }

  /** A configured rule that is valid and matches the address. */
  predicate Hits(r: AccessRule, parse: Parser, ip: IpAddr) {
    parse(r.source).Some? && Matches(parse(r.source).value, ip)
  }

  /** Rule `i` hits, and every other hit has a higher priority number, or the same one and a later position. */
  ghost predicate DecidesAt(rules: seq<AccessRule>, parse: Parser, ip: IpAddr, i: nat)
    requires i < |rules|
  {
    Hits(rules[i], parse, ip) &&
    forall j :: 0 <= j < |rules| && Hits(rules[j], parse, ip) ==>
      rules[i].priority < rules[j].priority || (rules[i].priority == rules[j].priority && i <= j)
  }

  /** The best valid match, computed on the configured rules. */
  function BestHit(rules: seq<AccessRule>, parse: Parser, ip: IpAddr): (b: Option<AccessRule>)
    ensures b.Some? ==> b.value in rules && Hits(b.value, parse, ip)
    ensures b.None? ==> forall r :: r in rules ==> !Hits(r, parse, ip)
  {
    if rules == [] then None
    else
      var b := BestHit(rules[1..], parse, ip);
      if Hits(rules[0], parse, ip) && (b.None? || rules[0].priority <= b.value.priority) then Some(rules[0]) else b
  }

  lemma BestOfMore(entry: Ranked, tail: seq<Ranked>, ip: IpAddr)
    ensures Best([entry] + tail, Applies(ip), Priority()) ==
            var b := Best(tail, Applies(ip), Priority());
            if Matches(entry.rule.matcher, ip) && (b.None? || entry.priority <= b.value.priority) then Some(entry)
            else b
  {
    assert ([entry] + tail)[0] == entry && ([entry] + tail)[1..] == tail;
  }

  lemma {:induction false} BestOfValid(rules: seq<AccessRule>, parse: Parser, ip: IpAddr)
    ensures var b, h := Best(Valid(rules, parse), Applies(ip), Priority()), BestHit(rules, parse, ip);
            if h.None? then b.None?
            else b == Some(Ranked(h.value.priority, CompiledRule(h.value.action, parse(h.value.source).value)))
  {
    if rules != [] {
      BestOfValid(rules[1..], parse, ip);
      var r, tail := rules[0], Valid(rules[1..], parse);
      if parse(r.source).Some? {
        var entry := Ranked(r.priority, CompiledRule(r.action, parse(r.source).value));
        BestOfMore(entry, tail, ip);
      } else {
        assert [] + tail == tail;
      }
    }
  }

  lemma {:induction false} BestHitIsFirst(rules: seq<AccessRule>, parse: Parser, ip: IpAddr, i: nat)
    requires i < |rules| && DecidesAt(rules, parse, ip, i)
    ensures BestHit(rules, parse, ip) == Some(rules[i])
    decreases |rules|
  {
    var b := BestHit(rules[1..], parse, ip);
    if i > 0 {
      forall j | 0 <= j < |rules[1..]| && Hits(rules[1..][j], parse, ip)
        ensures || rules[i].priority < rules[1..][j].priority
                || (rules[i].priority == rules[1..][j].priority && i - 1 <= j)
      {
        assert rules[1..][j] == rules[j + 1];
      }
      BestHitIsFirst(rules[1..], parse, ip, i - 1);
    } else if b.Some? {
      var j :| 0 <= j < |rules[1..]| && rules[1..][j] == b.value;
      assert rules[j + 1] == b.value;
    }
  }

  /**
   * The decision is the action of the valid matching rule with the least priority and, among those, the earliest
   * position.
   */
  lemma AccessIsDecidedBy(rules: seq<AccessRule>, parse: Parser, ip: IpAddr, i: nat)
    requires i < |rules| && DecidesAt(rules, parse, ip, i)
    ensures Decision(Rules(Sort(Valid(rules, parse), Priority())), ip) == rules[i].action
  {
    DecisionIsFirst(Sort(Valid(rules, parse), Priority()), ip);
    FirstOfSorted(Valid(rules, parse), Applies(ip), Priority());
    BestOfValid(rules, parse, ip);
    BestHitIsFirst(rules, parse, ip, i);
  }

  /** There is such a rule, or no valid rule matches and access is allowed. */
  lemma AccessDefaultsToAllow(rules: seq<AccessRule>, parse: Parser, ip: IpAddr)
    ensures (exists i :: 0 <= i < |rules| && DecidesAt(rules, parse, ip, i))
         || ((forall i :: 0 <= i < |rules| ==> !Hits(rules[i], parse, ip))
             && Decision(Rules(Sort(Valid(rules, parse), Priority())), ip) == Allow)
  {
    DecisionIsFirst(Sort(Valid(rules, parse), Priority()), ip);
    FirstOfSorted(Valid(rules, parse), Applies(ip), Priority());
    BestOfValid(rules, parse, ip);
    SomeRuleIsFirst(rules, parse, ip);
  }

  lemma {:induction false} SomeRuleIsFirst(rules: seq<AccessRule>, parse: Parser, ip: IpAddr)
    ensures || (exists i :: 0 <= i < |rules| && DecidesAt(rules, parse, ip, i))
            || (forall i :: 0 <= i < |rules| ==> !Hits(rules[i], parse, ip))
  {
    if rules != [] {
      var tail := rules[1..];
      SomeRuleIsFirst(tail, parse, ip);
      assert forall j :: 0 < j < |rules| ==> rules[j] == tail[j - 1];
      if exists i :: 0 <= i < |tail| && DecidesAt(tail, parse, ip, i) {
        var i :| 0 <= i < |tail| && DecidesAt(tail, parse, ip, i);
        if Hits(rules[0], parse, ip) && rules[0].priority <= tail[i].priority {
          assert DecidesAt(rules, parse, ip, 0);
        } else {
          assert DecidesAt(rules, parse, ip, i + 1);
        }
      } else if Hits(rules[0], parse, ip) {
        assert DecidesAt(rules, parse, ip, 0);
      }
    }
  }

  /** What a rule's source takes: everything, one address, or the addresses of its family that share the prefix. */
  lemma MatchesExactly(m: Matcher, ip: IpAddr)
    requires m.Cidr? ==> m.prefixLen <= Width(m.network)
    ensures Matches(m, ip) <==>
            match m
            case All => true
            case Exact(addr) => addr.V4? == ip.V4? && addr.bits == ip.bits
            case Cidr(network, n) => network.V4? == ip.V4? && network.bits[..n] == ip.bits[..n]
  {
    if m.Cidr? && m.network.V4? == ip.V4? {
      MaskTestIsPrefix(m.network, m.prefixLen, ip);
    }
  }
}
