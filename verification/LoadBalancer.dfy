/** Picking an upstream node (src/handler/reverse_proxy/lb.rs). */
module LoadBalancer {
  import opened Common
  import opened CircuitBreaker

  const U32: nat := 0x1_0000_0000
  const U64: nat := 0x1_0000_0000_0000_0000

  datatype Strategy = RoundRobin | Weighted | LeastConn | IpHash

  datatype Node = Node(weight: nat, healthy: bool, fails: nat, active: nat, breaker: Option<Breaker>)

  /** `is_available`: healthy, and the breaker lets the question through. */
  predicate Available(n: Node, cfg: Config, now: nat) {
    n.healthy && (n.breaker.None? || Allows(n.breaker.value, cfg, now))
  }

  /** The node after it has been asked: an open breaker past its timeout spends its probe on the question. */
  function Asked(n: Node, cfg: Config, now: nat): Node {
    if n.healthy && n.breaker.Some? then n.(breaker := Some(AfterAllow(n.breaker.value, cfg, now))) else n
  }

  /** The node after an outcome: three failures in a row make it unhealthy, one success makes it healthy again. */
  function Recorded(n: Node, good: bool, cfg: Config, now: nat): Node {
    var fails := if good then 0 else n.fails + 1;
    var breaker :=
      match n.breaker
      case None => None
      case Some(b) => Some(if good then AfterSuccess(b, cfg, now) else AfterFailure(b, cfg, now));
    n.(fails := fails, healthy := good || (n.healthy && fails < 3), breaker := breaker)
  }

  /** The node after a health check or an operator's word. */
  function Marked(n: Node, up: bool): Node {
    n.(healthy := up, fails := if up then 0 else n.fails)
  }

  function AskedAll(ns: seq<Node>, cfg: Config, now: nat): (r: seq<Node>)
    ensures |r| == |ns|
    ensures forall i :: 0 <= i < |ns| ==> r[i] == Asked(ns[i], cfg, now)
  {
    seq(|ns|, i requires 0 <= i < |ns| => Asked(ns[i], cfg, now))
  }

  /** Available whatever the time, and not changed by being asked. */
  predicate Ready(n: Node) {
    n.healthy && (n.breaker.None? || n.breaker.value.phase == Closed)
  }

  /** Available only once: the question itself uses up the probe. */
  predicate ProbeDue(n: Node, cfg: Config, now: nat) {
    n.healthy && n.breaker.Some? && n.breaker.value.phase == Open && TimedOut(n.breaker.value, cfg, now)
  }

  /** Asking changes nothing at this time. */
  predicate Settled(ns: seq<Node>, cfg: Config, now: nat) {
    forall i :: 0 <= i < |ns| ==> !ProbeDue(ns[i], cfg, now)
  }

  lemma AskingSettles(ns: seq<Node>, cfg: Config, now: nat)
    ensures Settled(AskedAll(ns, cfg, now), cfg, now)
    ensures Settled(ns, cfg, now) ==> AskedAll(ns, cfg, now) == ns
    ensures forall i :: 0 <= i < |ns| ==> (Ready(AskedAll(ns, cfg, now)[i]) <==> Ready(ns[i]))
    ensures forall i :: 0 <= i < |ns| ==> (Available(ns[i], cfg, now) <==> Ready(ns[i]) || ProbeDue(ns[i], cfg, now))
  {
  }

  // ----- choosing by weight

  function Sum(ws: seq<nat>): nat {
    if ws == [] then 0 else ws[0] + Sum(ws[1..])
  }

  /** The index whose share of [0, Sum(ws)) contains `r`. */
  function Select(ws: seq<nat>, r: nat): (i: nat)
    requires r < Sum(ws)
    ensures i < |ws| && ws[i] > 0
  {
    if r < ws[0] then 0 else 1 + Select(ws[1..], r - ws[0])
  }

  lemma {:induction false} SumSplits(ws: seq<nat>, i: nat)
    requires i <= |ws|
    ensures Sum(ws) == Sum(ws[..i]) + Sum(ws[i..])
  {
    if i > 0 {
      assert ws[..i][1..] == ws[1..][..i - 1] && ws[1..][i - 1..] == ws[i..];
      SumSplits(ws[1..], i - 1);
    }
  }

  lemma {:induction false} SelectShare(ws: seq<nat>, r: nat, j: nat)
    requires r < Sum(ws) && j < |ws|
    ensures Select(ws, r) == j <==> Sum(ws[..j]) <= r < Sum(ws[..j]) + ws[j]
  {
    if j == 0 {
      assert ws[..0] == [];
    } else {
      assert ws[..j][0] == ws[0] && ws[..j][1..] == ws[1..][..j - 1];
      if r >= ws[0] {
        SelectShare(ws[1..], r - ws[0], j - 1);
      }
    }
  }

  /** The counter value reduced to a round: the remainder, by repeated subtraction. */
  function Residue(x: nat, w: nat): (r: nat)
    requires w > 0
    ensures r < w
  {
    if x < w then x else Residue(x - w, w)
  }

  lemma MulBound(k: int, w: int)
    requires w >= 0
    ensures k >= 1 ==> k * w >= w
    ensures k <= -1 ==> k * w <= -w
  {
    if k >= 1 {
      assert k * w == w + (k - 1) * w;
    } else if k <= -1 {
      assert k * w == -w + (k + 1) * w;
    }
  }

  lemma QuotientUnique(q: int, r: nat, p: int, s: nat, w: nat)
    requires r < w && s < w && q * w + r == p * w + s
    ensures r == s
  {
    assert (q - p) * w == s - r;
    MulBound(q - p, w);
  }

  /** It is the remainder the source computes. */
  lemma {:induction false} ResidueIsRemainder(x: nat, w: nat)
    requires w > 0
    ensures Residue(x, w) == x % w
  {
    if x < w {
      QuotientUnique(0, x, x / w, x % w, w);
    } else {
      ResidueIsRemainder(x - w, w);
      var q := (x - w) / w;
      assert (q + 1) * w == q * w + w;
      QuotientUnique(q + 1, (x - w) % w, x / w, x % w, w);
    }
  }

  /** How many of the `n` counter values from `lo` on select index `j`. */
  function Hits(ws: seq<nat>, lo: nat, n: nat, j: nat): nat
    requires Sum(ws) > 0
  {
    if n == 0 then 0
    else Hits(ws, lo, n - 1, j) + if Select(ws, Residue(lo + n - 1, Sum(ws))) == j then 1 else 0
  }

  lemma {:induction false} HitsFromZero(ws: seq<nat>, n: nat, j: nat)
    requires n <= Sum(ws) && 0 < Sum(ws) && j < |ws|
    ensures var before := Sum(ws[..j]);
            Hits(ws, 0, n, j) == if n <= before then 0 else if n <= before + ws[j] then n - before else ws[j]
    decreases n
  {
    if n > 0 {
      HitsFromZero(ws, n - 1, j);
      SelectShare(ws, n - 1, j);
    }
  }

  /** The window of counter values may start anywhere. */
  lemma {:induction false} HitsShift(ws: seq<nat>, lo: nat, n: nat, j: nat)
    requires Sum(ws) > 0
    ensures Hits(ws, lo, n + 1, j) == (if Select(ws, Residue(lo, Sum(ws))) == j then 1 else 0) + Hits(ws, lo + 1, n, j)
    decreases n
  {
    if n > 0 {
      HitsShift(ws, lo, n - 1, j);
      assert lo + n == lo + 1 + (n - 1);
    } else {
      assert Hits(ws, lo, 0, j) == 0 && Hits(ws, lo + 1, 0, j) == 0;
    }
  }

  lemma {:induction false} OneRound(ws: seq<nat>, lo: nat, j: nat)
    requires Sum(ws) > 0 && j < |ws|
    ensures Hits(ws, lo, Sum(ws), j) == ws[j]
    decreases lo
  {
    var w := Sum(ws);
    if lo == 0 {
      HitsFromZero(ws, w, j);
      SumSplits(ws, j);
      assert ws[j..][0] == ws[j];
    } else {
      OneRound(ws, lo - 1, j);
      HitsShift(ws, lo - 1, w - 1, j);
      assert Residue(lo - 1 + w, w) == Residue(lo - 1, w);
      assert lo - 1 + w == lo + w - 1;
    }
  }

  lemma {:induction false} HitsSplit(ws: seq<nat>, lo: nat, m: nat, n: nat, j: nat)
    requires Sum(ws) > 0
    ensures Hits(ws, lo, m + n, j) == Hits(ws, lo, m, j) + Hits(ws, lo + m, n, j)
    decreases n
  {
    if n > 0 {
      HitsSplit(ws, lo, m, n - 1, j);
      assert m + n - 1 == m + (n - 1) && lo + (m + n) - 1 == lo + m + n - 1;
    }
  }

  /** Over `k` full rounds of the counter, index `j` is selected exactly `k` times its weight. */
  lemma {:induction false} Rounds(ws: seq<nat>, lo: nat, k: nat, j: nat)
    requires Sum(ws) > 0 && j < |ws|
    ensures Hits(ws, lo, k * Sum(ws), j) == k * ws[j]
    decreases k
  {
    var w := Sum(ws);
    if k == 0 {
      assert 0 * w == 0;
    } else {
      Rounds(ws, lo, k - 1, j);
      OneRound(ws, lo + (k - 1) * w, j);
      HitsSplit(ws, lo, (k - 1) * w, w, j);
      assert (k - 1) * w + w == k * w;
      assert (k - 1) * ws[j] + ws[j] == k * ws[j];
    }
  }

  // ----- what the scans look for

  datatype Test = IsHealthy | IsReady | IsAvailable(cfg: Config, now: nat)

  predicate Passes(n: Node, t: Test) {
    match t
    case IsHealthy => n.healthy
    case IsReady => Ready(n)
    case IsAvailable(cfg, now) => Available(n, cfg, now)
  }

  /** One share for every node that passes. */
  function Ones(ns: seq<Node>, t: Test): (ws: seq<nat>)
    ensures |ws| == |ns|
    ensures forall i :: 0 <= i < |ns| ==> ws[i] == if Passes(ns[i], t) then 1 else 0
  {
    seq(|ns|, i requires 0 <= i < |ns| => if Passes(ns[i], t) then 1 else 0)
  }

  /** The configured weight for every ready node. */
  function Weights(ns: seq<Node>): (ws: seq<nat>)
    ensures |ws| == |ns|
    ensures forall i :: 0 <= i < |ns| ==> ws[i] == if Ready(ns[i]) then ns[i].weight else 0
  {
    seq(|ns|, i requires 0 <= i < |ns| => if Ready(ns[i]) then ns[i].weight else 0)
  }

  function Count(ns: seq<Node>, t: Test): nat {
    Sum(Ones(ns, t))
  }

  /** The k-th node that passes: `filter(..).nth(k)`. */
  function Nth(ns: seq<Node>, t: Test, k: nat): (r: Option<nat>)
    ensures r.Some? ==> r.value < |ns| && Passes(ns[r.value], t)
    ensures r.None? <==> k >= Count(ns, t)
  {
    if k < Count(ns, t) then Some(Select(Ones(ns, t), k)) else None
  }

  lemma SumStep(ws: seq<nat>, i: nat)
    requires i < |ws|
    ensures Sum(ws[..i + 1]) == Sum(ws[..i]) + ws[i]
  {
    SumSplits(ws[..i + 1], i);
    assert ws[..i + 1][..i] == ws[..i];
    assert ws[..i + 1][i..] == [ws[i]];
    assert [ws[i]][1..] == [];
  }

  lemma {:induction false} CountZero(ns: seq<Node>, t: Test)
    ensures Count(ns, t) == 0 <==> forall i :: 0 <= i < |ns| ==> !Passes(ns[i], t)
    decreases |ns|
  {
    if ns != [] {
      assert Ones(ns, t)[1..] == Ones(ns[1..], t);
      CountZero(ns[1..], t);
    }
  }

  /** The ready node with the fewest active connections among the first `n`, ties to the earliest. */
  function Least(ns: seq<Node>, n: nat): (r: Option<nat>)
    requires n <= |ns|
    ensures r.Some? ==> r.value < n
  {
    if n == 0 then None
    else
      var best := Least(ns, n - 1);
      if Ready(ns[n - 1]) && (best.None? || ns[n - 1].active < ns[best.value].active) then Some(n - 1) else best
  }

  lemma {:induction false} LeastIsLeast(ns: seq<Node>, n: nat)
    requires n <= |ns|
    ensures var r := Least(ns, n);
            && (r.Some? ==> Ready(ns[r.value]))
            && (r.Some? ==> forall i :: 0 <= i < n && Ready(ns[i]) ==>
                              ns[r.value].active <= ns[i].active && (i < r.value ==> ns[r.value].active < ns[i].active))
            && (r.None? <==> forall i :: 0 <= i < n ==> !Ready(ns[i]))
  {
    if n > 0 {
      LeastIsLeast(ns, n - 1);
    }
  }

  /** The first ready node from `i` on whose running weight exceeds the target. */
  function Over(ns: seq<Node>, target: nat, i: nat): (r: Option<nat>)
    requires i <= |ns|
    ensures r.Some? ==> r.value < |ns| && Ready(ns[r.value])
    decreases |ns| - i
  {
    if i == |ns| then None
    else if Ready(ns[i]) && target < Sum(Weights(ns)[..i + 1]) then Some(i)
    else Over(ns, target, i + 1)
  }

  /** The running sum selects by share. */
  lemma {:induction false} OverSelects(ns: seq<Node>, target: nat, i: nat)
    requires i <= |ns| && target < Sum(Weights(ns))
    requires Sum(Weights(ns)[..i]) <= target
    ensures Over(ns, target, i) == Some(Select(Weights(ns), target))
    decreases |ns| - i
  {
    var ws := Weights(ns);
    assert ws[..|ws|] == ws;
    if i == |ns| {
      assert false;
    } else {
      SumStep(ws, i);
      SumSplits(ws, i + 1);
      SelectShare(ws, target, i);
      if target >= Sum(ws[..i + 1]) {
        OverSelects(ns, target, i + 1);
      }
    }
  }

  // ----- pick

  /**
   * The choice among the ready nodes, once the counting scan has settled every breaker and found `found` nodes
   * available.
   */
  function Choose(ns: seq<Node>, strategy: Strategy, found: nat, counter: nat, hash: nat): Option<nat>
    requires found > 0
  {
    match strategy
    case RoundRobin => Nth(ns, IsReady, Residue(counter, found))
    case IpHash => Nth(ns, IsReady, Residue(hash, found))
    case LeastConn => Least(ns, |ns|)
    case Weighted =>
      var total := Sum(Weights(ns));
      if total == 0 then Nth(ns, IsReady, 0)
      else
        var over := Over(ns, Residue(counter % U32, total), 0);
        if over.Some? || Count(ns, IsReady) == 0 then over else Nth(ns, IsReady, Count(ns, IsReady) - 1)
  }

  predicate CounterMoves(ns: seq<Node>, strategy: Strategy) {
    strategy == RoundRobin || (strategy == Weighted && Sum(Weights(ns)) != 0)
  }

  datatype Pool = Pool(nodes: seq<Node>, counter: nat)

  function Bump(counter: nat): nat {
    (counter + 1) % U64
  }

  /** With nothing available: any healthy node in turn, else any node at all. */
  function Degraded(p: Pool): Option<nat> {
    if Count(p.nodes, IsHealthy) > 0 then Nth(p.nodes, IsHealthy, Residue(p.counter, Count(p.nodes, IsHealthy)))
    else if p.nodes != [] then Some(Residue(p.counter, |p.nodes|))
    else None
  }

  function Picked(p: Pool, strategy: Strategy, cfg: Config, now: nat, hash: nat): Option<nat> {
    var found := Count(p.nodes, IsAvailable(cfg, now));
    if found == 0 then Degraded(p)
    else Choose(AskedAll(p.nodes, cfg, now), strategy, found, p.counter, hash)
  }

  /** The total weight overflows 32 bits: arithmetic is checked, so the program stops. */
  predicate Aborts(p: Pool, strategy: Strategy, cfg: Config, now: nat) {
    strategy == Weighted && Count(p.nodes, IsAvailable(cfg, now)) > 0 && Sum(Weights(p.nodes)) >= U32
  }

  function AfterPick(p: Pool, strategy: Strategy, cfg: Config, now: nat): Pool {
    var found := Count(p.nodes, IsAvailable(cfg, now));
    var ns := AskedAll(p.nodes, cfg, now);
    var moves := if found == 0 then p.nodes != [] else CounterMoves(ns, strategy);
    Pool(ns, if moves then Bump(p.counter) else p.counter)
  }

  class Upstreams {
    const strategy: Strategy
    const cfg: Config
    var nodes: seq<Node>
    var counter: nat

    function View(): Pool
      reads this
    {
      Pool(nodes, counter)
    }

    constructor (strategy: Strategy, cfg: Config, nodes: seq<Node>)
      ensures this.strategy == strategy && this.cfg == cfg && View() == Pool(nodes, 0)
    {
      this.strategy, this.cfg, this.nodes, counter := strategy, cfg, nodes, 0;
    }

    method IsNodeAvailable(i: nat, now: nat) returns (ok: bool)
      requires i < |nodes|
      modifies this`nodes
      ensures ok == Available(old(nodes)[i], cfg, now)
      ensures nodes == old(nodes)[i := Asked(old(nodes)[i], cfg, now)]
    {
      var n := nodes[i];
      if !n.healthy {
        return false;
      }
      if n.breaker.None? {
        return true;
      }
      ok := Allows(n.breaker.value, cfg, now);
      nodes := nodes[i := n.(breaker := Some(AfterAllow(n.breaker.value, cfg, now)))];
    }

    /** The counting scan: asks every node. */
    method CountAvailable(now: nat) returns (found: nat)
      modifies this`nodes
      ensures found == Count(old(nodes), IsAvailable(cfg, now))
      ensures nodes == AskedAll(old(nodes), cfg, now)
    {
      ghost var was := nodes;
      ghost var ones := Ones(was, IsAvailable(cfg, now));
      found := 0;
      for i := 0 to |nodes|
        invariant |nodes| == |was|
        invariant forall j :: 0 <= j < i ==> nodes[j] == Asked(was[j], cfg, now)
        invariant forall j :: i <= j < |was| ==> nodes[j] == was[j]
        invariant found == Sum(ones[..i])
      {
        SumStep(ones, i);
        var ok := IsNodeAvailable(i, now);
        found := found + if ok then 1 else 0;
      }
      assert ones[..|was|] == ones;
    }

    /** A later scan of the same pick: stops at the k-th available node and changes nothing. */
    method NthAvailable(now: nat, k: nat) returns (r: Option<nat>)
      requires Settled(nodes, cfg, now)
      modifies this`nodes
      ensures r == Nth(nodes, IsReady, k)
      ensures nodes == old(nodes)
    {
      ghost var was := nodes;
      AskingSettles(was, cfg, now);
      ghost var ones := Ones(was, IsReady);
      var left := k;
      for i := 0 to |nodes|
        invariant nodes == was
        invariant Sum(ones[..i]) + left == k
      {
        SumStep(ones, i);
        SumSplits(ones, i + 1);
        var ok := IsNodeAvailable(i, now);
        assert nodes == was;
        if ok {
          if left == 0 {
            SelectShare(ones, k, i);
            return Some(i);
          }
          left := left - 1;
        }
      }
      assert ones[..|was|] == ones;
      r := None;
    }

    /** None when the checked sum overflows. */
    method TotalWeight(now: nat) returns (total: Option<nat>)
      requires Settled(nodes, cfg, now)
      modifies this`nodes
      ensures total == if Sum(Weights(nodes)) < U32 then Some(Sum(Weights(nodes))) else None
      ensures nodes == old(nodes)
    {
      ghost var was := nodes;
      AskingSettles(was, cfg, now);
      ghost var ws := Weights(was);
      var sum := 0;
      for i := 0 to |nodes|
        invariant nodes == was
        invariant sum == Sum(ws[..i]) < U32
      {
        SumStep(ws, i);
        SumSplits(ws, i + 1);
        var ok := IsNodeAvailable(i, now);
        assert nodes == was;
        if ok {
          if sum + nodes[i].weight >= U32 {
            return None;
          }
          sum := sum + nodes[i].weight;
        }
      }
      assert ws[..|was|] == ws;
      total := Some(sum);
    }

    method FirstOver(now: nat, target: nat) returns (r: Option<nat>)
      requires Settled(nodes, cfg, now)
      modifies this`nodes
      ensures r == Over(nodes, target, 0)
      ensures nodes == old(nodes)
    {
      ghost var was := nodes;
      AskingSettles(was, cfg, now);
      ghost var ws := Weights(was);
      var cumulative := 0;
      for i := 0 to |nodes|
        invariant nodes == was
        invariant cumulative == Sum(ws[..i])
        invariant Over(was, target, 0) == Over(was, target, i)
      {
        SumStep(ws, i);
        var ok := IsNodeAvailable(i, now);
        assert nodes == was;
        if ok {
          cumulative := cumulative + nodes[i].weight;
          if target < cumulative {
            return Some(i);
          }
        }
      }
      r := None;
    }

    /** `filter(..).last()`. */
    method LastAvailable(now: nat) returns (r: Option<nat>)
      requires Settled(nodes, cfg, now)
      modifies this`nodes
      ensures r == if Count(nodes, IsReady) == 0 then None else Nth(nodes, IsReady, Count(nodes, IsReady) - 1)
      ensures nodes == old(nodes)
    {
      ghost var was := nodes;
      AskingSettles(was, cfg, now);
      ghost var ones := Ones(was, IsReady);
      r := None;
      for i := 0 to |nodes|
        invariant nodes == was
        invariant r.None? <==> Sum(ones[..i]) == 0
        invariant r.Some? ==> r.value < i && ones[r.value] == 1 && Sum(ones[..r.value + 1]) == Sum(ones[..i])
      {
        SumStep(ones, i);
        var ok := IsNodeAvailable(i, now);
        assert nodes == was;
        if ok {
          r := Some(i);
        }
      }
      assert ones[..|was|] == ones;
      if r.Some? {
        SumStep(ones, r.value);
        SelectShare(ones, Sum(ones) - 1, r.value);
      }
    }

    method LeastActive(now: nat) returns (r: Option<nat>)
      requires Settled(nodes, cfg, now)
      modifies this`nodes
      ensures r == Least(nodes, |nodes|)
      ensures nodes == old(nodes)
    {
      ghost var was := nodes;
      AskingSettles(was, cfg, now);
      r := None;
      for i := 0 to |nodes|
        invariant nodes == was
        invariant r == Least(was, i)
      {
        var ok := IsNodeAvailable(i, now);
        assert nodes == was;
        if ok && (r.None? || nodes[i].active < nodes[r.value].active) {
          r := Some(i);
        }
      }
    }

    /** `record_success` and `record_failure` of one node. */
    method Record(i: nat, good: bool, now: nat)
      requires i < |nodes|
      modifies this`nodes
      ensures nodes == old(nodes)[i := Recorded(old(nodes)[i], good, cfg, now)]
    {
      var n := nodes[i];
      if good {
        n := n.(fails := 0);
        if !n.healthy {
          n := n.(healthy := true);
        }
        if n.breaker.Some? {
          n := n.(breaker := Some(AfterSuccess(n.breaker.value, cfg, now)));
        }
      } else {
        n := n.(fails := n.fails + 1);
        if n.fails >= 3 {
          n := n.(healthy := false);
        }
        if n.breaker.Some? {
          n := n.(breaker := Some(AfterFailure(n.breaker.value, cfg, now)));
        }
      }
      nodes := nodes[i := n];
    }

    method PickDegraded() returns (r: Option<nat>)
      modifies this`counter
      ensures r == Degraded(old(View()))
      ensures counter == if nodes == [] then old(counter) else Bump(old(counter))
    {
      var healthy := Count(nodes, IsHealthy);
      if healthy > 0 {
        ResidueIsRemainder(counter, healthy);
        r := Nth(nodes, IsHealthy, counter % healthy);
        counter := Bump(counter);
      } else if nodes != [] {
        ResidueIsRemainder(counter, |nodes|);
        r := Some(counter % |nodes|);
        counter := Bump(counter);
      } else {
        r := None;
      }
    }

    method PickWeighted(now: nat) returns (r: Option<nat>, aborted: bool)
      requires Settled(nodes, cfg, now)
      modifies this
      ensures aborted <==> Sum(Weights(nodes)) >= U32
      ensures !aborted ==> r == Choose(nodes, Weighted, 1, old(counter), 0)
      ensures nodes == old(nodes)
      ensures !aborted ==> counter == if Sum(Weights(nodes)) != 0 then Bump(old(counter)) else old(counter)
    {
      var total := TotalWeight(now);
      if total.None? {
        return None, true;
      }
      aborted := false;
      if total.value == 0 {
        r := NthAvailable(now, 0);
        return;
      }
      ResidueIsRemainder(counter % U32, total.value);
      var target := counter % U32 % total.value;
      counter := Bump(counter);
      r := FirstOver(now, target);
      if r.None? {
        r := LastAvailable(now);
      }
    }

    method Pick(now: nat, hash: nat) returns (r: Option<nat>, aborted: bool)
      modifies this
      ensures aborted <==> Aborts(old(View()), strategy, cfg, now)
      ensures !aborted ==> r == Picked(old(View()), strategy, cfg, now, hash)
      ensures !aborted ==> View() == AfterPick(old(View()), strategy, cfg, now)
    {
      ghost var was := nodes;
      var found := CountAvailable(now);
      AskingSettles(was, cfg, now);
      assert Weights(nodes) == Weights(was);
      aborted := false;
      if found == 0 {
        NothingAsked(was, cfg, now);
        r := PickDegraded();
        return;
      }
      match strategy
      case RoundRobin =>
        ResidueIsRemainder(counter, found);
        var idx := counter % found;
        counter := Bump(counter);
        r := NthAvailable(now, idx);
      case Weighted => r, aborted := PickWeighted(now);
      case LeastConn => r := LeastActive(now);
      case IpHash =>
        ResidueIsRemainder(hash, found);
        r := NthAvailable(now, hash % found);
    }
  }

  /** When no node is available, asking them all has changed nothing. */
  lemma NothingAsked(ns: seq<Node>, cfg: Config, now: nat)
    requires Count(ns, IsAvailable(cfg, now)) == 0
    ensures AskedAll(ns, cfg, now) == ns
  {
    CountZero(ns, IsAvailable(cfg, now));
  }

  // ----- fairness

  /** The shares by which a strategy deals out its picks. */
  function Shares(ns: seq<Node>, strategy: Strategy): seq<nat> {
    if strategy == Weighted then Weights(ns) else Ones(ns, IsReady)
  }

  /** A pool seen only through what a pick at a given time returns and leaves behind. */
  datatype Dealer = Dealer(result: (Pool, nat) -> Option<nat>, next: (Pool, nat) -> Pool)

  function PickDealer(strategy: Strategy, cfg: Config): Dealer {
    Dealer((p: Pool, now: nat) => Picked(p, strategy, cfg, now, 0),
           (p: Pool, now: nat) => AfterPick(p, strategy, cfg, now))
  }

  /** The pool before the i-th of the picks made at the given times. */
  function StateAt(d: Dealer, p: Pool, nows: seq<nat>, i: nat): Pool
    requires i <= |nows|
  {
    if i == 0 then p else d.next(StateAt(d, p, nows, i - 1), nows[i - 1])
  }

  /** The results of picks made at the given times. */
  function Results(d: Dealer, p: Pool, nows: seq<nat>): (rs: seq<Option<nat>>)
    ensures |rs| == |nows|
    ensures forall i :: 0 <= i < |nows| ==> rs[i] == d.result(StateAt(d, p, nows, i), nows[i])
  {
    seq(|nows|, i requires 0 <= i < |nows| => d.result(StateAt(d, p, nows, i), nows[i]))
  }

  function Picks(p: Pool, strategy: Strategy, cfg: Config, nows: seq<nat>): (rs: seq<Option<nat>>)
    ensures |rs| == |nows|
  {
    Results(PickDealer(strategy, cfg), p, nows)
  }

  function Times(rs: seq<Option<nat>>, j: nat): nat {
    if rs == [] then 0 else Times(rs[..|rs| - 1], j) + if rs[|rs| - 1] == Some(j) then 1 else 0
  }

  /** A dealing strategy with something to deal, and no overflow of the total weight. */
  predicate Deals(ns: seq<Node>, strategy: Strategy) {
    && (strategy == RoundRobin || strategy == Weighted)
    && 0 < Sum(Shares(ns, strategy))
    && (strategy == Weighted ==> Sum(Weights(ns)) < U32)
  }

  /** The counter does not wrap during `n` picks. */
  predicate NoWrap(counter: nat, strategy: Strategy, n: nat) {
    counter + n <= U64 && (strategy == Weighted ==> counter % U32 + n <= U32)
  }

  /** No breaker changes its answer at any of the given times. */
  ghost predicate Stable(ns: seq<Node>, cfg: Config, nows: seq<nat>) {
    forall i :: 0 <= i < |nows| ==> Settled(ns, cfg, nows[i])
  }

  /** The counter value a strategy reduces. */
  function Start(counter: nat, strategy: Strategy): nat {
    if strategy == Weighted then counter % U32 else counter
  }

  /** When nothing is due, the available nodes are the ready ones and asking them changes nothing. */
  lemma AllSettled(ns: seq<Node>, cfg: Config, now: nat)
    requires Settled(ns, cfg, now)
    ensures AskedAll(ns, cfg, now) == ns
    ensures Count(ns, IsAvailable(cfg, now)) == Count(ns, IsReady)
  {
    AskingSettles(ns, cfg, now);
    assert Ones(ns, IsReady) == Ones(ns, IsAvailable(cfg, now));
  }

  lemma ChooseWeighted(ns: seq<Node>, found: nat, counter: nat)
    requires found > 0 && 0 < Sum(Weights(ns))
    ensures Choose(ns, Weighted, found, counter, 0) ==
            Some(Select(Weights(ns), Residue(counter % U32, Sum(Weights(ns)))))
  {
    OverSelects(ns, Residue(counter % U32, Sum(Weights(ns))), 0);
  }

  lemma SteadyPick(p: Pool, strategy: Strategy, cfg: Config, now: nat)
    requires Deals(p.nodes, strategy) && Settled(p.nodes, cfg, now)
    ensures var ws := Shares(p.nodes, strategy);
            Picked(p, strategy, cfg, now, 0) == Some(Select(ws, Residue(Start(p.counter, strategy), Sum(ws))))
    ensures AfterPick(p, strategy, cfg, now) == Pool(p.nodes, Bump(p.counter))
  {
    AllSettled(p.nodes, cfg, now);
    if strategy == Weighted {
      WeightNeedsReady(p.nodes);
      ChooseWeighted(p.nodes, Count(p.nodes, IsReady), p.counter);
    }
  }

  lemma {:induction false} WeightNeedsReady(ns: seq<Node>)
    ensures Sum(Weights(ns)) > 0 ==> Count(ns, IsReady) > 0
    decreases |ns|
  {
    if ns != [] {
      assert Weights(ns)[1..] == Weights(ns[1..]) && Ones(ns, IsReady)[1..] == Ones(ns[1..], IsReady);
      WeightNeedsReady(ns[1..]);
    }
  }

  lemma CounterAt(counter: nat, strategy: Strategy, n: nat, i: nat)
    requires NoWrap(counter, strategy, n) && i < n
    ensures Start(counter + i, strategy) == Start(counter, strategy) + i
    ensures i + 1 < n ==> Bump(counter + i) == counter + i + 1
  {
  }

  /** The i-th pick is dealt to the share that holds the i-th counter value. */
  ghost predicate Dealt(rs: seq<Option<nat>>, ws: seq<nat>, lo: nat) {
    0 < Sum(ws) && forall i :: 0 <= i < |rs| ==> rs[i] == Some(Select(ws, Residue(lo + i, Sum(ws))))
  }

  /** One pick that returns the share of counter value `lo + i` and otherwise only moves the counter on. */
  ghost predicate DealsOne(d: Dealer, ns: seq<Node>, c: nat, now: nat, ws: seq<nat>, lo: nat, i: nat, last: bool)
    requires 0 < Sum(ws)
  {
    && d.result(Pool(ns, c + i), now) == Some(Select(ws, Residue(lo + i, Sum(ws))))
    && (!last ==> d.next(Pool(ns, c + i), now) == Pool(ns, c + i + 1))
  }

  lemma {:induction false} CounterOnly(d: Dealer, ns: seq<Node>, c: nat, nows: seq<nat>, ws: seq<nat>, lo: nat, i: nat)
    requires i < |nows| && 0 < Sum(ws)
    requires forall j :: 0 <= j < |nows| ==> DealsOne(d, ns, c, nows[j], ws, lo, j, j + 1 == |nows|)
    ensures StateAt(d, Pool(ns, c), nows, i) == Pool(ns, c + i)
  {
    if i > 0 {
      CounterOnly(d, ns, c, nows, ws, lo, i - 1);
      assert DealsOne(d, ns, c, nows[i - 1], ws, lo, i - 1, i == |nows|);
    }
  }

  lemma DealtInTurn(d: Dealer, ns: seq<Node>, c: nat, nows: seq<nat>, ws: seq<nat>, lo: nat)
    requires 0 < Sum(ws)
    requires forall j :: 0 <= j < |nows| ==> DealsOne(d, ns, c, nows[j], ws, lo, j, j + 1 == |nows|)
    ensures Dealt(Results(d, Pool(ns, c), nows), ws, lo)
  {
    forall i | 0 <= i < |nows|
      ensures Results(d, Pool(ns, c), nows)[i] == Some(Select(ws, Residue(lo + i, Sum(ws))))
    {
      CounterOnly(d, ns, c, nows, ws, lo, i);
      assert DealsOne(d, ns, c, nows[i], ws, lo, i, i + 1 == |nows|);
    }
  }

  /**
   * What a dealer does to the pool of `ns` and counter `c`: deal by counter value `x`, leave the counter at `bumped`.
   */
  ghost predicate DealsBy(d: Dealer, ns: seq<Node>, c: nat, now: nat, ws: seq<nat>, x: nat, bumped: nat)
    requires 0 < Sum(ws)
  {
    d.result(Pool(ns, c), now) == Some(Select(ws, Residue(x, Sum(ws)))) && d.next(Pool(ns, c), now) == Pool(ns, bumped)
  }

  lemma SteadyDeal(ns: seq<Node>, c: nat, strategy: Strategy, cfg: Config, now: nat)
    requires Deals(ns, strategy) && Settled(ns, cfg, now)
    ensures DealsBy(PickDealer(strategy, cfg), ns, c, now, Shares(ns, strategy), Start(c, strategy), Bump(c))
  {
    SteadyPick(Pool(ns, c), strategy, cfg, now);
  }

  lemma DealsOneBy(d: Dealer, ns: seq<Node>, c: nat, now: nat, ws: seq<nat>, lo: nat, i: nat, last: bool,
                   x: nat, bumped: nat)
    requires 0 < Sum(ws) && x == lo + i && (!last ==> bumped == c + i + 1)
    requires DealsBy(d, ns, c + i, now, ws, x, bumped)
    ensures DealsOne(d, ns, c, now, ws, lo, i, last)
  {
  }

  /** A dealer that deals by share whenever no breaker is due. */
  ghost predicate Steady(d: Dealer, strategy: Strategy, cfg: Config) {
    forall ns, c, now :: Deals(ns, strategy) && Settled(ns, cfg, now) ==>
                           DealsBy(d, ns, c, now, Shares(ns, strategy), Start(c, strategy), Bump(c))
  }

  lemma PickIsSteady(strategy: Strategy, cfg: Config)
    ensures Steady(PickDealer(strategy, cfg), strategy, cfg)
  {
    forall ns, c, now | Deals(ns, strategy) && Settled(ns, cfg, now)
      ensures DealsBy(PickDealer(strategy, cfg), ns, c, now, Shares(ns, strategy), Start(c, strategy), Bump(c))
    {
      SteadyDeal(ns, c, strategy, cfg, now);
    }
  }

  /** The j-th of a run of picks that does not wrap the counter. */
  lemma SteadyOne(d: Dealer, ns: seq<Node>, c: nat, strategy: Strategy, cfg: Config, now: nat, n: nat, j: nat)
    requires Deals(ns, strategy) && Settled(ns, cfg, now) && NoWrap(c, strategy, n) && j < n
    requires Steady(d, strategy, cfg)
    ensures DealsOne(d, ns, c, now, Shares(ns, strategy), Start(c, strategy), j, j + 1 == n)
  {
    var x, bumped, lo := Start(c + j, strategy), Bump(c + j), Start(c, strategy);
    CounterAt(c, strategy, n, j);
    assert x == lo + j && (j + 1 != n ==> bumped == c + j + 1);
    DealsOneBy(d, ns, c, now, Shares(ns, strategy), lo, j, j + 1 == n, x, bumped);
  }

  lemma SteadyDealing(d: Dealer, p: Pool, strategy: Strategy, cfg: Config, nows: seq<nat>)
    requires Deals(p.nodes, strategy) && Stable(p.nodes, cfg, nows) && NoWrap(p.counter, strategy, |nows|)
    requires Steady(d, strategy, cfg)
    ensures Dealt(Results(d, p, nows), Shares(p.nodes, strategy), Start(p.counter, strategy))
  {
    forall j | 0 <= j < |nows|
      ensures DealsOne(d, p.nodes, p.counter, nows[j], Shares(p.nodes, strategy), Start(p.counter, strategy),
                       j, j + 1 == |nows|)
    {
      SteadyOne(d, p.nodes, p.counter, strategy, cfg, nows[j], |nows|, j);
    }
    DealtInTurn(d, p.nodes, p.counter, nows, Shares(p.nodes, strategy), Start(p.counter, strategy));
    assert p == Pool(p.nodes, p.counter);
  }

  lemma SteadyRun(p: Pool, strategy: Strategy, cfg: Config, nows: seq<nat>)
    requires Deals(p.nodes, strategy) && Stable(p.nodes, cfg, nows) && NoWrap(p.counter, strategy, |nows|)
    ensures Dealt(Picks(p, strategy, cfg, nows), Shares(p.nodes, strategy), Start(p.counter, strategy))
  {
    PickIsSteady(strategy, cfg);
    SteadyDealing(PickDealer(strategy, cfg), p, strategy, cfg, nows);
  }

  lemma {:induction false} TimesAreHits(rs: seq<Option<nat>>, ws: seq<nat>, lo: nat, j: nat)
    requires Dealt(rs, ws, lo)
    ensures Times(rs, j) == Hits(ws, lo, |rs|, j)
    decreases |rs|
  {
    if rs != [] {
      TimesAreHits(rs[..|rs| - 1], ws, lo, j);
    }
  }

  /**
   * Any k rounds of consecutive picks return each node exactly k times its share: its weight under Weighted,
   * once per round under RoundRobin, never while it is not ready.
   */
  lemma Fairness(p: Pool, strategy: Strategy, cfg: Config, nows: seq<nat>, k: nat, j: nat)
    requires Deals(p.nodes, strategy) && Stable(p.nodes, cfg, nows) && NoWrap(p.counter, strategy, |nows|)
    requires j < |p.nodes|
    requires |nows| == k * Sum(Shares(p.nodes, strategy))
    ensures Times(Picks(p, strategy, cfg, nows), j) == k * Shares(p.nodes, strategy)[j]
  {
    var ws := Shares(p.nodes, strategy);
    SteadyRun(p, strategy, cfg, nows);
    RoundsOfDealt(Picks(p, strategy, cfg, nows), ws, Start(p.counter, strategy), k, j);
  }

  // ----- what the counting scan costs

  lemma NothingChosen(ns: seq<Node>, strategy: Strategy, found: nat, counter: nat, hash: nat)
    requires found > 0
    ensures Choose(ns, strategy, found, counter, hash).None? <==>
            match strategy
            case RoundRobin => Residue(counter, found) >= Count(ns, IsReady)
            case IpHash => Residue(hash, found) >= Count(ns, IsReady)
            case LeastConn => Count(ns, IsReady) == 0
            case Weighted => Count(ns, IsReady) == 0
  {
    match strategy
    case LeastConn =>
      CountZero(ns, IsReady);
      LeastIsLeast(ns, |ns|);
    case Weighted =>
      WeightNeedsReady(ns);
    case _ =>
  }

  /** The exact condition for coming back with nothing. */
  lemma NothingPicked(p: Pool, strategy: Strategy, cfg: Config, now: nat, hash: nat)
    ensures var found, ready := Count(p.nodes, IsAvailable(cfg, now)), Count(p.nodes, IsReady);
            Picked(p, strategy, cfg, now, hash).None? <==>
            (p.nodes == []
             || (found > 0 && match strategy
                              case RoundRobin => Residue(p.counter, found) >= ready
                              case IpHash => Residue(hash, found) >= ready
                              case LeastConn => ready == 0
                              case Weighted => ready == 0))
  {
    AskingSettles(p.nodes, cfg, now);
    var ns := AskedAll(p.nodes, cfg, now);
    assert Ones(ns, IsReady) == Ones(p.nodes, IsReady);
    if Count(p.nodes, IsAvailable(cfg, now)) == 0 {
      CountZero(p.nodes, IsHealthy);
    } else {
      CountZero(p.nodes, IsAvailable(cfg, now));
      NothingChosen(ns, strategy, Count(p.nodes, IsAvailable(cfg, now)), p.counter, hash);
    }
  }

  /**
   * While any node counts as available, the node returned was ready before the pick: no request ever goes to a node
   * whose breaker is open or half-open, although the scan has just moved every due breaker to half-open.
   */
  lemma ProbeIsNeverSent(p: Pool, strategy: Strategy, cfg: Config, now: nat, hash: nat)
    requires Count(p.nodes, IsAvailable(cfg, now)) > 0
    ensures var r := Picked(p, strategy, cfg, now, hash);
            r.Some? ==> r.value < |p.nodes| && Ready(p.nodes[r.value])
    ensures forall i :: 0 <= i < |p.nodes| && ProbeDue(p.nodes[i], cfg, now) ==>
              AfterPick(p, strategy, cfg, now).nodes[i].breaker.value.phase == HalfOpen
  {
    AskingSettles(p.nodes, cfg, now);
    LeastIsLeast(AskedAll(p.nodes, cfg, now), |p.nodes|);
  }

  // ----- runs of picks and outcomes

  /** A pick, the outcome of a request, or a health verdict from elsewhere. */
  datatype Turn = Picking(now: nat, hash: nat) | Outcome(node: nat, good: bool, now: nat) | Verdict(node: nat, up: bool)

  /** The pool and the nodes that picks have returned so far. */
  datatype Session = Session(pool: Pool, returned: set<nat>)

  function Take(s: Session, strategy: Strategy, cfg: Config, t: Turn): Session {
    var ns := s.pool.nodes;
    match t
    case Picking(now, hash) =>
      var r := Picked(s.pool, strategy, cfg, now, hash);
      Session(AfterPick(s.pool, strategy, cfg, now), s.returned + if r.Some? then {r.value} else {})
    case Outcome(i, good, now) =>
      if i < |ns| then s.(pool := s.pool.(nodes := ns[i := Recorded(ns[i], good, cfg, now)])) else s
    case Verdict(i, up) =>
      if i < |ns| then s.(pool := s.pool.(nodes := ns[i := Marked(ns[i], up)])) else s
  }

  function TakeAll(s: Session, strategy: Strategy, cfg: Config, ts: seq<Turn>): Session {
    if ts == [] then s else Take(TakeAll(s, strategy, cfg, ts[..|ts| - 1]), strategy, cfg, ts[|ts| - 1])
  }

  /** Outcomes are recorded for returned nodes only, and at every pick some node counts as available. */
  predicate Fair(s: Session, cfg: Config, t: Turn) {
    match t
    case Picking(now, _) => Count(s.pool.nodes, IsAvailable(cfg, now)) > 0
    case Outcome(i, _, _) => i in s.returned
    case Verdict(_, _) => true
  }

  ghost predicate AllFair(s: Session, strategy: Strategy, cfg: Config, ts: seq<Turn>) {
    forall k :: 0 <= k < |ts| ==> Fair(TakeAll(s, strategy, cfg, ts[..k]), cfg, ts[k])
  }

  /** Node `j` has a breaker that is not closed, and no request is on its way to it. */
  predicate Tripped(s: Session, j: nat) {
    && j < |s.pool.nodes| && j !in s.returned
    && s.pool.nodes[j].breaker.Some? && s.pool.nodes[j].breaker.value.phase != Closed
  }

  predicate HalfOpenAt(s: Session, j: nat) {
    j < |s.pool.nodes| && s.pool.nodes[j].breaker.Some? && s.pool.nodes[j].breaker.value.phase == HalfOpen
  }

  /** The turn spends the probe of node `j`. */
  predicate Spends(s: Session, cfg: Config, t: Turn, j: nat) {
    t.Picking? && j < |s.pool.nodes| && ProbeDue(s.pool.nodes[j], cfg, t.now)
  }

  /** A node that is not ready is returned if and only if nothing counts as available and its turn has come. */
  lemma NotReadyReturned(p: Pool, strategy: Strategy, cfg: Config, now: nat, hash: nat, i: nat)
    requires i < |p.nodes| && !Ready(p.nodes[i])
    ensures Picked(p, strategy, cfg, now, hash) == Some(i)
       <==> Count(p.nodes, IsAvailable(cfg, now)) == 0 && Degraded(p) == Some(i)
  {
    if Count(p.nodes, IsAvailable(cfg, now)) > 0 {
      ProbeIsNeverSent(p, strategy, cfg, now, hash);
    }
  }

  lemma TurnKeepsTripped(s: Session, strategy: Strategy, cfg: Config, t: Turn, j: nat)
    requires Tripped(s, j) && Fair(s, cfg, t)
    ensures Tripped(Take(s, strategy, cfg, t), j)
    ensures HalfOpenAt(s, j) || Spends(s, cfg, t, j) ==> HalfOpenAt(Take(s, strategy, cfg, t), j)
  {
    if t.Picking? {
      ProbeIsNeverSent(s.pool, strategy, cfg, t.now, t.hash);
    }
  }

  lemma FairPrefix(s: Session, strategy: Strategy, cfg: Config, ts: seq<Turn>)
    requires ts != [] && AllFair(s, strategy, cfg, ts)
    ensures AllFair(s, strategy, cfg, ts[..|ts| - 1])
    ensures Fair(TakeAll(s, strategy, cfg, ts[..|ts| - 1]), cfg, ts[|ts| - 1])
  {
    var before := ts[..|ts| - 1];
    forall k | 0 <= k < |before|
      ensures Fair(TakeAll(s, strategy, cfg, before[..k]), cfg, before[k])
    {
      assert before[..k] == ts[..k] && before[k] == ts[k];
    }
  }

  /** Some pick of the run finds node `j` due. */
  predicate Spent(s: Session, strategy: Strategy, cfg: Config, ts: seq<Turn>, j: nat) {
    ts != [] &&
    var n := |ts| - 1;
    Spent(s, strategy, cfg, ts[..n], j) || Spends(TakeAll(s, strategy, cfg, ts[..n]), cfg, ts[n], j)
  }

  /**
   * While any node counts as available at every pick, a node whose breaker has tripped is never returned again, and
   * once its timeout has passed at a pick its breaker is half-open for good: the probe that would close it is never
   * sent, even when the pick returns nothing because of it.
   */
  lemma {:induction false} TrippedForGood(s: Session, strategy: Strategy, cfg: Config, ts: seq<Turn>, j: nat)
    requires Tripped(s, j) && AllFair(s, strategy, cfg, ts)
    ensures Tripped(TakeAll(s, strategy, cfg, ts), j)
    ensures HalfOpenAt(s, j) || Spent(s, strategy, cfg, ts, j) ==> HalfOpenAt(TakeAll(s, strategy, cfg, ts), j)
    decreases |ts|
  {
    if ts != [] {
      var n := |ts| - 1;
      FairPrefix(s, strategy, cfg, ts);
      TrippedForGood(s, strategy, cfg, ts[..n], j);
      TurnKeepsTripped(TakeAll(s, strategy, cfg, ts[..n]), strategy, cfg, ts[n], j);
    }
  }

  // ----- which node each strategy returns, without the program's own scans

  /** Healthy, with no breaker or a closed one. */
  predicate Usable(n: Node) {
    n.healthy && (n.breaker.None? || n.breaker.value.phase == Closed)
  }

  /** Healthy, with an open breaker whose timeout has passed. */
  predicate Due(n: Node, cfg: Config, now: nat) {
    && n.healthy && n.breaker.Some? && n.breaker.value.phase == Open
    && (if now >= n.breaker.value.openSince then now - n.breaker.value.openSince else 0) >= cfg.failTimeout
  }

  function UsableBefore(ns: seq<Node>, i: nat): set<nat>
    requires i <= |ns|
  {
    set j: nat | j < i && Usable(ns[j])
  }

  function HealthyBefore(ns: seq<Node>, i: nat): set<nat>
    requires i <= |ns|
  {
    set j: nat | j < i && ns[j].healthy
  }

  function AvailableSet(ns: seq<Node>, cfg: Config, now: nat): set<nat> {
    set j: nat | j < |ns| && (Usable(ns[j]) || Due(ns[j], cfg, now))
  }

  /** The weights of the usable nodes before position `i`, summed. */
  function WeightBefore(ns: seq<Node>, i: nat): nat
    requires i <= |ns|
  {
    if i == 0 then 0 else WeightBefore(ns, i - 1) + if Usable(ns[i - 1]) then ns[i - 1].weight else 0
  }

  function PassingBefore(ns: seq<Node>, t: Test, i: nat): set<nat>
    requires i <= |ns|
  {
    set j: nat | j < i && Passes(ns[j], t)
  }

  lemma OneMorePasses(ns: seq<Node>, t: Test, i: nat)
    requires i < |ns|
    ensures |PassingBefore(ns, t, i + 1)| == |PassingBefore(ns, t, i)| + if Passes(ns[i], t) then 1 else 0
  {
    var before := PassingBefore(ns, t, i);
    assert i !in before;
    assert PassingBefore(ns, t, i + 1) == if Passes(ns[i], t) then before + {i} else before;
  }

  lemma {:induction false} CountIsCard(ns: seq<Node>, t: Test, i: nat)
    requires i <= |ns|
    ensures Sum(Ones(ns, t)[..i]) == |PassingBefore(ns, t, i)|
  {
    if i == 0 {
      assert PassingBefore(ns, t, 0) == {};
    } else {
      CountIsCard(ns, t, i - 1);
      SumStep(Ones(ns, t), i - 1);
      OneMorePasses(ns, t, i - 1);
    }
  }

  /** The k-th node that passes is the one with exactly k passing nodes before it. */
  lemma NthExactly(ns: seq<Node>, t: Test, k: nat, i: nat)
    ensures Nth(ns, t, k) == Some(i)
       <==> i < |ns| && Passes(ns[i], t) && |PassingBefore(ns, t, i)| == k
  {
    var ones := Ones(ns, t);
    if i < |ns| {
      CountIsCard(ns, t, i);
      SumSplits(ones, i + 1);
      SumStep(ones, i);
      if k < Sum(ones) {
        SelectShare(ones, k, i);
      }
    }
  }

  lemma ReadyIsUsable(ns: seq<Node>, cfg: Config, now: nat)
    ensures forall i :: 0 <= i < |ns| ==> (Ready(AskedAll(ns, cfg, now)[i]) <==> Usable(ns[i]))
    ensures forall i :: 0 <= i < |ns| ==> (Available(ns[i], cfg, now) <==> Usable(ns[i]) || Due(ns[i], cfg, now))
  {
    AskingSettles(ns, cfg, now);
  }

  lemma FoundIsCard(ns: seq<Node>, cfg: Config, now: nat)
    ensures Count(ns, IsAvailable(cfg, now)) == |AvailableSet(ns, cfg, now)|
  {
    var t := IsAvailable(cfg, now);
    ReadyIsUsable(ns, cfg, now);
    CountIsCard(ns, t, |ns|);
    assert Ones(ns, t)[..|ns|] == Ones(ns, t);
    assert PassingBefore(ns, t, |ns|) == AvailableSet(ns, cfg, now);
  }

  /** The k-th ready node after the counting scan is the usable node with k usable ones before it. */
  lemma NthUsable(ns: seq<Node>, cfg: Config, now: nat, k: nat, i: nat)
    ensures Nth(AskedAll(ns, cfg, now), IsReady, k) == Some(i)
       <==> i < |ns| && Usable(ns[i]) && |UsableBefore(ns, i)| == k
  {
    var asked := AskedAll(ns, cfg, now);
    ReadyIsUsable(ns, cfg, now);
    NthExactly(asked, IsReady, k, i);
    if i < |ns| {
      assert PassingBefore(asked, IsReady, i) == UsableBefore(ns, i);
    }
  }

  /** An address hash selects the usable node with `hash % found` usable ones before it. */
  lemma HashPick(p: Pool, cfg: Config, now: nat, hash: nat, i: nat)
    requires AvailableSet(p.nodes, cfg, now) != {}
    ensures Picked(p, IpHash, cfg, now, hash) == Some(i)
       <==> i < |p.nodes| && Usable(p.nodes[i])
            && |UsableBefore(p.nodes, i)| == hash % |AvailableSet(p.nodes, cfg, now)|
  {
    FoundIsCard(p.nodes, cfg, now);
    ResidueIsRemainder(hash, |AvailableSet(p.nodes, cfg, now)|);
    NthUsable(p.nodes, cfg, now, Residue(hash, |AvailableSet(p.nodes, cfg, now)|), i);
  }

  /** Round robin does so with the counter. */
  lemma RoundRobinPick(p: Pool, cfg: Config, now: nat, hash: nat, i: nat)
    requires AvailableSet(p.nodes, cfg, now) != {}
    ensures Picked(p, RoundRobin, cfg, now, hash) == Some(i)
       <==> i < |p.nodes| && Usable(p.nodes[i])
            && |UsableBefore(p.nodes, i)| == p.counter % |AvailableSet(p.nodes, cfg, now)|
  {
    FoundIsCard(p.nodes, cfg, now);
    ResidueIsRemainder(p.counter, |AvailableSet(p.nodes, cfg, now)|);
    NthUsable(p.nodes, cfg, now, Residue(p.counter, |AvailableSet(p.nodes, cfg, now)|), i);
  }

  /** Least connections: the usable node with the fewest active connections, the earliest of several. */
  lemma LeastConnPick(p: Pool, cfg: Config, now: nat, hash: nat, i: nat)
    requires AvailableSet(p.nodes, cfg, now) != {}
    ensures Picked(p, LeastConn, cfg, now, hash) == Some(i)
       <==> i < |p.nodes| && Usable(p.nodes[i])
            && forall j :: 0 <= j < |p.nodes| && Usable(p.nodes[j]) ==>
                 p.nodes[i].active <= p.nodes[j].active && (j < i ==> p.nodes[i].active < p.nodes[j].active)
  {
    FoundIsCard(p.nodes, cfg, now);
    ReadyIsUsable(p.nodes, cfg, now);
    var asked := AskedAll(p.nodes, cfg, now);
    LeastIsLeast(asked, |asked|);
    assert forall j :: 0 <= j < |asked| ==> asked[j].active == p.nodes[j].active;
    var r := Least(asked, |asked|);
    if i < |p.nodes| && Usable(p.nodes[i]) && r.Some? && r.value != i {
      assert Usable(p.nodes[r.value]);
    }
  }

  lemma {:induction false} WeightIsSum(ns: seq<Node>, cfg: Config, now: nat, i: nat)
    requires i <= |ns|
    ensures Sum(Weights(AskedAll(ns, cfg, now))[..i]) == WeightBefore(ns, i)
  {
    if i > 0 {
      WeightIsSum(ns, cfg, now, i - 1);
      SumStep(Weights(AskedAll(ns, cfg, now)), i - 1);
      ReadyIsUsable(ns, cfg, now);
    }
  }

  /** The share of node `i` holds the counter; without any weight the first usable node does. */
  predicate HasTurn(p: Pool, i: nat)
    requires i < |p.nodes|
  {
    var total, before := WeightBefore(p.nodes, |p.nodes|), WeightBefore(p.nodes, i);
    if total == 0 then UsableBefore(p.nodes, i) == {}
    else before <= p.counter % 0x1_0000_0000 % total < before + p.nodes[i].weight
  }

  /** Weighted: the usable node whose share of the total weight holds the counter's low 32 bits, reduced. */
  lemma WeightedPick(p: Pool, cfg: Config, now: nat, hash: nat, i: nat)
    requires AvailableSet(p.nodes, cfg, now) != {}
    ensures Picked(p, Weighted, cfg, now, hash) == Some(i)
       <==> i < |p.nodes| && Usable(p.nodes[i]) && HasTurn(p, i)
  {
    FoundIsCard(p.nodes, cfg, now);
    var ns := AskedAll(p.nodes, cfg, now);
    var ws := Weights(ns);
    WeightIsSum(p.nodes, cfg, now, |ns|);
    assert ws[..|ns|] == ws;
    if Sum(ws) == 0 {
      NthUsable(p.nodes, cfg, now, 0, i);
    } else {
      var r := p.counter % U32;
      ResidueIsRemainder(r, Sum(ws));
      OverSelects(ns, Residue(r, Sum(ws)), 0);
      if i < |ns| {
        WeightIsSum(p.nodes, cfg, now, i);
        SelectShare(ws, Residue(r, Sum(ws)), i);
        ReadyIsUsable(p.nodes, cfg, now);
      }
    }
  }

  /** With nothing available: the healthy nodes in turn; without any, all nodes in turn; without any, nothing. */
  lemma DegradedPick(p: Pool, strategy: Strategy, cfg: Config, now: nat, hash: nat, i: nat)
    requires AvailableSet(p.nodes, cfg, now) == {}
    ensures Picked(p, strategy, cfg, now, hash) == Some(i)
       <==> i < |p.nodes|
            && (if HealthyBefore(p.nodes, |p.nodes|) != {}
                then p.nodes[i].healthy
                     && |HealthyBefore(p.nodes, i)| == p.counter % |HealthyBefore(p.nodes, |p.nodes|)|
                else i == p.counter % |p.nodes|)
  {
    var ns := p.nodes;
    FoundIsCard(ns, cfg, now);
    CountIsCard(ns, IsHealthy, |ns|);
    assert Ones(ns, IsHealthy)[..|ns|] == Ones(ns, IsHealthy);
    assert PassingBefore(ns, IsHealthy, |ns|) == HealthyBefore(ns, |ns|);
    var healthy := |HealthyBefore(ns, |ns|)|;
    if healthy > 0 {
      ResidueIsRemainder(p.counter, healthy);
      NthExactly(ns, IsHealthy, Residue(p.counter, healthy), i);
      if i < |ns| {
        assert PassingBefore(ns, IsHealthy, i) == HealthyBefore(ns, i);
      }
    } else if ns != [] {
      ResidueIsRemainder(p.counter, |ns|);
    }
  }

  /** What a pick leaves behind: due breakers half-open, and the counter moved on where the strategy uses it. */
  lemma AfterPickExactly(p: Pool, strategy: Strategy, cfg: Config, now: nat)
    ensures var q := AfterPick(p, strategy, cfg, now);
            && |q.nodes| == |p.nodes|
            && (forall i :: 0 <= i < |p.nodes| ==>
                  q.nodes[i] == if Due(p.nodes[i], cfg, now)
                                then p.nodes[i].(breaker := Some(p.nodes[i].breaker.value.(phase := HalfOpen)))
                                else p.nodes[i])
    ensures var moves := if AvailableSet(p.nodes, cfg, now) == {} then p.nodes != []
                         else strategy == RoundRobin || (strategy == Weighted && WeightBefore(p.nodes, |p.nodes|) > 0);
            AfterPick(p, strategy, cfg, now).counter ==
            if moves then (p.counter + 1) % 0x1_0000_0000_0000_0000 else p.counter
  {
    FoundIsCard(p.nodes, cfg, now);
    var ns := AskedAll(p.nodes, cfg, now);
    WeightIsSum(p.nodes, cfg, now, |ns|);
    assert Weights(ns)[..|ns|] == Weights(ns);
  }

  /** The picks for `n` consecutive hash values. */
  function HashPicks(p: Pool, cfg: Config, now: nat, lo: nat, n: nat): (rs: seq<Option<nat>>)
    ensures |rs| == n && forall i :: 0 <= i < n ==> rs[i] == Picked(p, IpHash, cfg, now, lo + i)
  {
    seq(n, i requires 0 <= i < n => Picked(p, IpHash, cfg, now, lo + i))
  }

  lemma SettledHashPick(p: Pool, cfg: Config, now: nat, hash: nat)
    requires Settled(p.nodes, cfg, now) && Count(p.nodes, IsReady) > 0
    ensures Picked(p, IpHash, cfg, now, hash)
         == Some(Select(Ones(p.nodes, IsReady), Residue(hash, Sum(Ones(p.nodes, IsReady)))))
  {
    AllSettled(p.nodes, cfg, now);
  }

  lemma HashDealt(p: Pool, cfg: Config, now: nat, lo: nat, n: nat)
    requires Settled(p.nodes, cfg, now) && Count(p.nodes, IsReady) > 0
    ensures Dealt(HashPicks(p, cfg, now, lo, n), Ones(p.nodes, IsReady), lo)
  {
    forall i | 0 <= i < n
      ensures HashPicks(p, cfg, now, lo, n)[i]
           == Some(Select(Ones(p.nodes, IsReady), Residue(lo + i, Sum(Ones(p.nodes, IsReady)))))
    {
      SettledHashPick(p, cfg, now, lo + i);
    }
  }

  lemma RoundsOfDealt(rs: seq<Option<nat>>, ws: seq<nat>, lo: nat, k: nat, j: nat)
    requires Dealt(rs, ws, lo) && j < |ws| && |rs| == k * Sum(ws)
    ensures Times(rs, j) == k * ws[j]
  {
    TimesAreHits(rs, ws, lo, j);
    Rounds(ws, lo, k, j);
  }

  /** Any k rounds of consecutive hash values return each usable node exactly k times, whatever counter and time. */
  lemma HashFairness(p: Pool, cfg: Config, now: nat, lo: nat, k: nat, j: nat)
    requires Settled(p.nodes, cfg, now) && Count(p.nodes, IsReady) > 0 && j < |p.nodes|
    ensures Times(HashPicks(p, cfg, now, lo, k * Count(p.nodes, IsReady)), j) == if Usable(p.nodes[j]) then k else 0
  {
    var n := k * Count(p.nodes, IsReady);
    HashDealt(p, cfg, now, lo, n);
    RoundsOfDealt(HashPicks(p, cfg, now, lo, n), Ones(p.nodes, IsReady), lo, k, j);
  }

  // ----- health and breaker of one node over a run

  /** How many failures of the node have been recorded since its last success or good verdict. */
  function Trailing(ts: seq<Turn>, i: nat): nat {
    if ts == [] then 0
    else
      var front := Trailing(ts[..|ts| - 1], i);
      match ts[|ts| - 1]
      case Picking(_, _) => front
      case Outcome(j, good, _) => if j != i then front else if good then 0 else front + 1
      case Verdict(j, up) => if j == i && up then 0 else front
  }

  /** Whether the node has been called down since then. */
  predicate CalledDown(ts: seq<Turn>, i: nat) {
    ts != [] &&
    var front := CalledDown(ts[..|ts| - 1], i);
    match ts[|ts| - 1]
    case Picking(_, _) => front
    case Outcome(j, good, _) => front && !(j == i && good)
    case Verdict(j, up) => if j == i then !up else front
  }

  predicate StaysHealthy(ts: seq<Turn>, i: nat) {
    Trailing(ts, i) < 3 && !CalledDown(ts, i)
  }

  /**
   * Over any run, a node that began healthy is healthy exactly when, since its last success or good verdict, it has
   * had fewer than three failures and no bad verdict. Picks and other nodes do not matter.
   */
  lemma {:induction false} HealthExactly(s: Session, strategy: Strategy, cfg: Config, ts: seq<Turn>, i: nat)
    requires i < |s.pool.nodes| && s.pool.nodes[i].healthy && s.pool.nodes[i].fails == 0
    ensures var ns := TakeAll(s, strategy, cfg, ts).pool.nodes;
            |ns| == |s.pool.nodes| && ns[i].fails == Trailing(ts, i) && (ns[i].healthy <==> StaysHealthy(ts, i))
    decreases |ts|
  {
    if ts != [] {
      HealthExactly(s, strategy, cfg, ts[..|ts| - 1], i);
    }
  }

  /** What the node's breaker is told: a question at every pick while the node is healthy, and its outcomes. */
  function Told(ts: seq<Turn>, i: nat): seq<Event> {
    if ts == [] then []
    else
      var front := ts[..|ts| - 1];
      match ts[|ts| - 1]
      case Picking(now, _) => if StaysHealthy(front, i) then Told(front, i) + [Ask(now)] else Told(front, i)
      case Outcome(j, good, now) =>
        if j == i then Told(front, i) + [if good then Success(now) else Failure(now)] else Told(front, i)
      case Verdict(_, _) => Told(front, i)
  }

  /** Over any run the node's breaker is that of its own questions and outcomes alone. */
  lemma {:induction false} BreakerExactly(s: Session, strategy: Strategy, cfg: Config, ts: seq<Turn>, i: nat)
    requires i < |s.pool.nodes| && s.pool.nodes[i].healthy && s.pool.nodes[i].fails == 0
    requires s.pool.nodes[i].breaker.Some?
    ensures var ns := TakeAll(s, strategy, cfg, ts).pool.nodes;
            |ns| == |s.pool.nodes|
            && ns[i].breaker == Some(CircuitBreaker.Run(s.pool.nodes[i].breaker.value, cfg, Told(ts, i)))
    decreases |ts|
  {
    if ts != [] {
      var front := ts[..|ts| - 1];
      BreakerExactly(s, strategy, cfg, front, i);
      HealthExactly(s, strategy, cfg, front, i);
      var all, before := Told(ts, i), Told(front, i);
      assert all == before || all[..|all| - 1] == before;
    }
  }
}
