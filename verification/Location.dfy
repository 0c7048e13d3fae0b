/**
 * Matching a request path to a location block (src/dispatcher/location.rs, and the sort in src/dispatcher/vhost.rs).
 */
module Location {
  import opened Common
  import opened StableSort

  /** A configured location; `tag` stands for everything but the path. */
  datatype LocationConfig = LocationConfig(path: string, tag: nat)

  datatype Kind = Exact(path: string) | PrefixPriority(prefix: string) | Regex(pattern: string) | Prefix

  datatype Compiled = Compiled(config: LocationConfig, kind: Kind)

  /** The regular-expression library: which patterns compile, and what they match. */
  datatype Engine = Engine(compiles: string -> bool, matches: (string, string) -> bool)

  function RegexKind(pattern: string, engine: Engine): Kind {
    if engine.compiles(pattern) then Regex(pattern) else Prefix
  }

  /** The pattern of a path that starts with `~ ` or `~* `. */
  function RegexOf(path: string): string {
    if "~* " <= path then "(?i)" + path[3..] else if "~ " <= path then path[2..] else ""
  }

  function KindOf(path: string, engine: Engine): Kind {
    if "~* " <= path then RegexKind("(?i)" + path[3..], engine)
    else if "~ " <= path then RegexKind(path[2..], engine)
    else if "= " <= path then Exact(path[2..])
    else if "^~ " <= path then PrefixPriority(path[3..])
    else Prefix
  }

  /** `CompiledLocation::new`; a pattern that does not compile leaves a plain prefix. */
  function Compile(cfg: LocationConfig, engine: Engine): Compiled {
    Compiled(cfg, KindOf(cfg.path, engine))
  }

  function CompileAll(cfgs: seq<LocationConfig>, engine: Engine): (cs: seq<Compiled>)
    ensures |cs| == |cfgs|
    ensures forall i :: 0 <= i < |cfgs| ==> cs[i] == Compile(cfgs[i], engine)
  {
    seq(|cfgs|, i requires 0 <= i < |cfgs| => Compile(cfgs[i], engine))
  }

  /** `location_priority`. */
  function PathPriority(path: string): int {
    if "= " <= path then 1 else if "^~ " <= path then 2 else if "~ " <= path || "~* " <= path then 3 else 4
  }

  function Priority(): Compiled -> int {
    (c: Compiled) => PathPriority(c.config.path)
  }

  /** The list a site serves requests from. */
  function Prepare(cfgs: seq<LocationConfig>, engine: Engine): seq<Compiled> {
    Sort(CompileAll(cfgs, engine), Priority())
  }

  // ----- match_location

  predicate IsExact(c: Compiled, path: string) {
    c.kind.Exact? && c.kind.path == path
  }

  predicate IsPriorityPrefix(c: Compiled, path: string) {
    c.kind.PrefixPriority? && c.kind.prefix <= path
  }

  predicate IsRegex(c: Compiled, path: string, engine: Engine) {
    c.kind.Regex? && engine.matches(c.kind.pattern, path)
  }

  predicate IsPlainPrefix(c: Compiled, path: string) {
    c.kind.Prefix? && c.config.path <= path
  }

  function FirstRound(path: string): Compiled -> bool {
    (c: Compiled) => IsExact(c, path) || IsPriorityPrefix(c, path)
  }

  function SecondRound(path: string, engine: Engine): Compiled -> bool {
    (c: Compiled) => IsRegex(c, path, engine)
  }

  /** The plain prefixes of one name. */
  function Named(name: string): Compiled -> bool {
    (c: Compiled) => c.kind.Prefix? && c.config.path == name
  }

  /** The longest matching plain prefix, ties to the earliest. */
  function Longest(cs: seq<Compiled>, path: string): (r: Option<Compiled>)
    ensures r.Some? ==> r.value in cs && IsPlainPrefix(r.value, path)
  {
    if cs == [] then None
    else
      var n := |cs| - 1;
      var best := Longest(cs[..n], path);
      if IsPlainPrefix(cs[n], path) && (best.None? || |cs[n].config.path| > |best.value.config.path|) then Some(cs[n])
      else best
  }

  function Match(cs: seq<Compiled>, path: string, engine: Engine): Option<Compiled> {
    var first := First(cs, FirstRound(path));
    if first.Some? then first
    else
      var second := First(cs, SecondRound(path, engine));
      if second.Some? then second else Longest(cs, path)
  }

  /** The three loops of `match_location`. */
  method MatchLocation(cs: seq<Compiled>, path: string, engine: Engine) returns (r: Option<Compiled>)
    ensures r == Match(cs, path, engine)
  {
    for i := 0 to |cs|
      invariant First(cs[i..], FirstRound(path)) == First(cs, FirstRound(path))
    {
      var c := cs[i];
      assert cs[i..][1..] == cs[i + 1..];
      match c.kind
      case Exact(p) =>
        if p == path {
          return Some(c);
        }
      case PrefixPriority(p) =>
        if p <= path {
          return Some(c);
        }
      case Regex(_) =>
      case Prefix =>
    }
    for i := 0 to |cs|
      invariant First(cs[i..], SecondRound(path, engine)) == First(cs, SecondRound(path, engine))
    {
      var c := cs[i];
      assert cs[i..][1..] == cs[i + 1..];
      if c.kind.Regex? && engine.matches(c.kind.pattern, path) {
        return Some(c);
      }
    }
    var best: Option<Compiled> := None;
    for i := 0 to |cs|
      invariant best == Longest(cs[..i], path)
    {
      var c := cs[i];
      assert cs[..i + 1][..i] == cs[..i];
      if c.kind.Prefix? && c.config.path <= path {
        if best.None? || |c.config.path| > |best.value.config.path| {
          best := Some(c);
        }
      }
    }
    assert cs[..|cs|] == cs;
    r := best;
  }

  // ----- the declared order of precedence, on the configured list

  /** `c` sits at the earliest position that satisfies `p`. */
  ghost predicate Earliest(cs: seq<Compiled>, p: Compiled -> bool, i: nat)
    requires i < |cs|
  {
    p(cs[i]) && forall j :: 0 <= j < i ==> !p(cs[j])
  }

  function ExactFor(path: string): Compiled -> bool {
    (c: Compiled) => IsExact(c, path)
  }

  function PriorityFor(path: string): Compiled -> bool {
    (c: Compiled) => IsPriorityPrefix(c, path)
  }

  ghost predicate NoneIs(cs: seq<Compiled>, p: Compiled -> bool) {
    forall i :: 0 <= i < |cs| ==> !p(cs[i])
  }

  function PlainFor(path: string): Compiled -> bool {
    (c: Compiled) => IsPlainPrefix(c, path)
  }

  /**
   * Exact, then priority prefix, then regex, each the earliest; else the longest plain prefix, earliest among equals.
   */
  ghost predicate CompiledPrecedes(cs: seq<Compiled>, path: string, engine: Engine, i: nat)
    requires i < |cs|
  {
    || Earliest(cs, ExactFor(path), i)
    || (NoneIs(cs, ExactFor(path)) && Earliest(cs, PriorityFor(path), i))
    || (NoneIs(cs, FirstRound(path)) && Earliest(cs, SecondRound(path, engine), i))
    || (NoneIs(cs, FirstRound(path)) && NoneIs(cs, SecondRound(path, engine)) && LongestAt(cs, path, i))
  }

  ghost predicate LongestAt(cs: seq<Compiled>, path: string, i: nat)
    requires i < |cs|
  {
    IsPlainPrefix(cs[i], path) &&
    forall j :: 0 <= j < |cs| && IsPlainPrefix(cs[j], path) ==>
      |cs[j].config.path| < |cs[i].config.path| || (|cs[j].config.path| == |cs[i].config.path| && i <= j)
  }

  lemma KindAndPriority(cfg: LocationConfig, engine: Engine)
    ensures var c := Compile(cfg, engine);
            && (c.kind.Exact? <==> PathPriority(cfg.path) == 1)
            && (c.kind.PrefixPriority? <==> PathPriority(cfg.path) == 2)
            && (c.kind.Regex? <==> PathPriority(cfg.path) == 3 && engine.compiles(RegexOf(cfg.path)))
            && (c.kind.Prefix? <==>
                PathPriority(cfg.path) == 4 || (PathPriority(cfg.path) == 3 && !engine.compiles(RegexOf(cfg.path))))
  {
    var path := cfg.path;
    assert "= " <= path ==> path[0] == '=';
    assert "^~ " <= path ==> path[0] == '^';
    assert "~ " <= path || "~* " <= path ==> path[0] == '~';
  }

  ghost predicate FromConfigs(cs: seq<Compiled>, engine: Engine) {
    forall i :: 0 <= i < |cs| ==> cs[i] == Compile(cs[i].config, engine)
  }

  lemma AllPriorities(cs: seq<Compiled>, engine: Engine)
    requires FromConfigs(cs, engine)
    ensures forall i :: 0 <= i < |cs| ==>
              && (cs[i].kind.Exact? <==> Priority()(cs[i]) == 1)
              && (cs[i].kind.PrefixPriority? <==> Priority()(cs[i]) == 2)
              && (cs[i].kind.Regex? ==> Priority()(cs[i]) == 3)
  {
    forall i | 0 <= i < |cs|
      ensures (cs[i].kind.Exact? <==> Priority()(cs[i]) == 1)
      ensures (cs[i].kind.PrefixPriority? <==> Priority()(cs[i]) == 2)
      ensures (cs[i].kind.Regex? ==> Priority()(cs[i]) == 3)
    {
      KindAndPriority(cs[i].config, engine);
    }
  }

  /** Sorting keeps a round without matches without matches. */
  lemma NoneAfterSort(cs: seq<Compiled>, p: Compiled -> bool)
    requires NoneIs(cs, p)
    ensures First(Sort(cs, Priority()), p).None?
  {
    FirstOfSorted(cs, p, Priority());
    BestWins(cs, p, Priority());
  }

  lemma FirstRoundWinner(cs: seq<Compiled>, path: string, engine: Engine, i: nat)
    requires i < |cs| && FromConfigs(cs, engine)
    requires Earliest(cs, ExactFor(path), i) || (NoneIs(cs, ExactFor(path)) && Earliest(cs, PriorityFor(path), i))
    ensures Match(Sort(cs, Priority()), path, engine) == Some(cs[i])
  {
    AllPriorities(cs, engine);
    var p := FirstRound(path);
    forall j | 0 <= j < |cs| && p(cs[j])
      ensures Priority()(cs[i]) < Priority()(cs[j]) || (Priority()(cs[i]) == Priority()(cs[j]) && i <= j)
    {
      assert ExactFor(path)(cs[j]) || PriorityFor(path)(cs[j]);
    }
    assert Wins(cs, p, Priority(), i);
    FirstOfSortedWins(cs, p, Priority(), i);
  }

  lemma SecondRoundWinner(cs: seq<Compiled>, path: string, engine: Engine, i: nat)
    requires i < |cs| && FromConfigs(cs, engine)
    requires NoneIs(cs, FirstRound(path)) && Earliest(cs, SecondRound(path, engine), i)
    ensures Match(Sort(cs, Priority()), path, engine) == Some(cs[i])
  {
    AllPriorities(cs, engine);
    NoneAfterSort(cs, FirstRound(path));
    var p := SecondRound(path, engine);
    assert Wins(cs, p, Priority(), i);
    FirstOfSortedWins(cs, p, Priority(), i);
  }

  /** Among prefixes of one path, length and name determine each other, so the longest is the first of its name. */
  lemma {:induction false} LongestIsNamed(cs: seq<Compiled>, path: string, name: string)
    requires name <= path
    requires exists c :: c in cs && Named(name)(c)
    requires forall c :: c in cs && IsPlainPrefix(c, path) ==> |c.config.path| <= |name|
    ensures Longest(cs, path) == First(cs, Named(name))
    decreases |cs|
  {
    var n := |cs| - 1;
    var init := cs[..n];
    assert cs == init + [cs[n]];
    if exists c :: c in init && Named(name)(c) {
      LongestIsNamed(init, path, name);
      FirstIsMember(init, Named(name));
      FirstAppend(init, cs[n], Named(name));
    } else {
      forall c | c in init
        ensures !Named(name)(c)
      {
      }
      FirstAppend(init, cs[n], Named(name));
      FirstIsMember(init, Named(name));
      assert Named(name)(cs[n]);
      var best := Longest(init, path);
      if best.Some? {
        assert |best.value.config.path| <= |name|;
        assert best.value.config.path == path[..|best.value.config.path|] && name == path[..|name|];
      }
    }
  }

  lemma {:induction false} FirstAppend(s: seq<Compiled>, x: Compiled, p: Compiled -> bool)
    ensures First(s + [x], p) == if First(s, p).Some? then First(s, p) else if p(x) then Some(x) else None
  {
    if s == [] {
      assert s + [x] == [x] && [x][1..] == [];
    } else {
      assert (s + [x])[1..] == s[1..] + [x];
      FirstAppend(s[1..], x, p);
    }
  }

  lemma LongestWinner(cs: seq<Compiled>, path: string, engine: Engine, i: nat)
    requires i < |cs|
    requires NoneIs(cs, FirstRound(path)) && NoneIs(cs, SecondRound(path, engine)) && LongestAt(cs, path, i)
    ensures Match(Sort(cs, Priority()), path, engine) == Some(cs[i])
  {
    NoneAfterSort(cs, FirstRound(path));
    NoneAfterSort(cs, SecondRound(path, engine));
    var name := cs[i].config.path;
    var sorted := Sort(cs, Priority());
    SortSorts(cs, Priority());
    forall c | c in cs && IsPlainPrefix(c, path)
      ensures |c.config.path| <= |name|
    {
      var j :| 0 <= j < |cs| && cs[j] == c;
    }
    assert cs[i] in cs && Named(name)(cs[i]);
    assert cs[i] in sorted;
    LongestIsNamed(sorted, path, name);
    forall j | 0 <= j < |cs| && Named(name)(cs[j])
      ensures Priority()(cs[i]) == Priority()(cs[j]) && i <= j
    {
      assert IsPlainPrefix(cs[j], path);
    }
    assert Wins(cs, Named(name), Priority(), i);
    FirstOfSortedWins(cs, Named(name), Priority(), i);
  }

  lemma EarliestExists(cs: seq<Compiled>, p: Compiled -> bool, n: nat) returns (i: nat)
    requires n <= |cs|
    ensures i <= n && (forall j :: 0 <= j < i ==> !p(cs[j])) && (i < n ==> p(cs[i]))
  {
    i := 0;
    while i < n && !p(cs[i])
      invariant i <= n && forall j :: 0 <= j < i ==> !p(cs[j])
    {
      i := i + 1;
    }
  }

  lemma LongestExists(cs: seq<Compiled>, path: string) returns (i: nat)
    ensures i <= |cs|
    ensures if i < |cs| then LongestAt(cs, path, i) else NoneIs(cs, PlainFor(path))
  {
    i := |cs|;
    for n := 0 to |cs|
      invariant i == |cs| ==> forall j :: 0 <= j < n ==> !IsPlainPrefix(cs[j], path)
      invariant i < |cs| ==> i < n && IsPlainPrefix(cs[i], path)
      invariant i < |cs| ==> forall j :: 0 <= j < n && IsPlainPrefix(cs[j], path) ==>
                  |cs[j].config.path| < |cs[i].config.path| || (|cs[j].config.path| == |cs[i].config.path| && i <= j)
      invariant i <= |cs|
    {
      if IsPlainPrefix(cs[n], path) && (i == |cs| || |cs[n].config.path| > |cs[i].config.path|) {
        i := n;
      }
    }
  }

  /** If anything matches, some configured location takes precedence. */
  lemma SomeCompiledPrecedes(cs: seq<Compiled>, path: string, engine: Engine)
    ensures (exists i :: 0 <= i < |cs| && CompiledPrecedes(cs, path, engine, i))
         || (NoneIs(cs, FirstRound(path)) && NoneIs(cs, SecondRound(path, engine)) && NoneIs(cs, PlainFor(path)))
  {
    var a := EarliestExists(cs, ExactFor(path), |cs|);
    var b := EarliestExists(cs, PriorityFor(path), |cs|);
    var c := EarliestExists(cs, SecondRound(path, engine), |cs|);
    var d := LongestExists(cs, path);
    if a < |cs| {
      assert CompiledPrecedes(cs, path, engine, a);
    } else if b < |cs| {
      assert CompiledPrecedes(cs, path, engine, b);
    } else {
      assert forall j :: 0 <= j < |cs| ==> !ExactFor(path)(cs[j]) && !PriorityFor(path)(cs[j]);
      assert NoneIs(cs, FirstRound(path));
      if c < |cs| {
        assert CompiledPrecedes(cs, path, engine, c);
      } else if d < |cs| {
        assert CompiledPrecedes(cs, path, engine, d);
      }
    }
  }

  lemma {:induction false} LongestNone(cs: seq<Compiled>, path: string)
    ensures Longest(cs, path).None? <==> forall c :: c in cs ==> !IsPlainPrefix(c, path)
    decreases |cs|
  {
    if cs != [] {
      LongestNone(cs[..|cs| - 1], path);
      assert cs == cs[..|cs| - 1] + [cs[|cs| - 1]];
    }
  }

  /** On the sorted list, the three rounds return the location that takes precedence in the configured list. */
  lemma MatchIsCompiled(cfgs: seq<LocationConfig>, path: string, engine: Engine, i: nat)
    requires i < |cfgs| && CompiledPrecedes(CompileAll(cfgs, engine), path, engine, i)
    ensures Match(Prepare(cfgs, engine), path, engine) == Some(Compile(cfgs[i], engine))
  {
    var cs := CompileAll(cfgs, engine);
    if Earliest(cs, ExactFor(path), i) || (NoneIs(cs, ExactFor(path)) && Earliest(cs, PriorityFor(path), i)) {
      FirstRoundWinner(cs, path, engine, i);
    } else if NoneIs(cs, FirstRound(path)) && Earliest(cs, SecondRound(path, engine), i) {
      SecondRoundWinner(cs, path, engine, i);
    } else {
      LongestWinner(cs, path, engine, i);
    }
  }

  /** Nothing is returned exactly when no compiled location matches in any round. */
  lemma NoneMatches(cfgs: seq<LocationConfig>, path: string, engine: Engine)
    ensures var cs := CompileAll(cfgs, engine);
            Match(Prepare(cfgs, engine), path, engine).None? <==>
            NoneIs(cs, FirstRound(path)) && NoneIs(cs, SecondRound(path, engine)) && NoneIs(cs, PlainFor(path))
  {
    var cs := CompileAll(cfgs, engine);
    var sorted := Prepare(cfgs, engine);
    SortSorts(cs, Priority());
    FirstIsMember(sorted, FirstRound(path));
    FirstIsMember(sorted, SecondRound(path, engine));
    LongestNone(sorted, path);
    forall i | 0 <= i < |cs|
      ensures cs[i] in sorted
    {
    }
  }

  // ----- precedence on the configured paths

  /** `= ` and a path takes exactly that path. */
  predicate TakesExact(cfg: LocationConfig, path: string) {
    cfg.path == "= " + path
  }

  /** `^~ ` and a prefix takes every path with that prefix. */
  ghost predicate TakesPriority(cfg: LocationConfig, path: string) {
    exists p :: cfg.path == "^~ " + p && p <= path
  }

  /** `~ ` and a pattern takes what the pattern matches; `~* ` does so with the ignore-case flag in front. */
  ghost predicate TakesRegex(cfg: LocationConfig, path: string, engine: Engine) {
    exists r :: || (cfg.path == "~ " + r && engine.compiles(r) && engine.matches(r, path))
                || (cfg.path == "~* " + r && engine.compiles("(?i)" + r) && engine.matches("(?i)" + r, path))
  }

  /** Anything else, and a pattern that does not compile, takes what it is a prefix of. */
  ghost predicate TakesPlain(cfg: LocationConfig, path: string, engine: Engine) {
    && cfg.path <= path
    && !("= " <= cfg.path) && !("^~ " <= cfg.path)
    && (forall r :: cfg.path == "~ " + r ==> !engine.compiles(r))
    && (forall r :: cfg.path == "~* " + r ==> !engine.compiles("(?i)" + r))
  }

  lemma CompiledTakes(cfg: LocationConfig, path: string, engine: Engine)
    ensures IsExact(Compile(cfg, engine), path) <==> TakesExact(cfg, path)
    ensures IsPriorityPrefix(Compile(cfg, engine), path) <==> TakesPriority(cfg, path)
  {
    var p := cfg.path;
    if "= " <= p {
      assert p == "= " + p[2..] && p[0] == '=';
    }
    if "^~ " <= p {
      assert p == "^~ " + p[3..] && p[0] == '^';
    }
    if TakesExact(cfg, path) {
      assert p[2..] == path && p[0] == '=';
    }
    if TakesPriority(cfg, path) {
      var q :| p == "^~ " + q && q <= path;
      assert p[3..] == q && p[0] == '^';
    }
  }

  lemma CompiledRegex(cfg: LocationConfig, path: string, engine: Engine)
    ensures IsRegex(Compile(cfg, engine), path, engine) <==> TakesRegex(cfg, path, engine)
  {
    var p := cfg.path;
    if "~* " <= p {
      assert p == "~* " + p[3..] && p[1] == '*';
    } else if "~ " <= p {
      assert p == "~ " + p[2..] && p[1] == ' ';
    }
    if TakesRegex(cfg, path, engine) {
      var r :| || (p == "~ " + r && engine.compiles(r) && engine.matches(r, path))
               || (p == "~* " + r && engine.compiles("(?i)" + r) && engine.matches("(?i)" + r, path));
      if p == "~ " + r {
        assert p[2..] == r && p[1] == ' ';
      } else {
        assert p[3..] == r && p[1] == '*';
      }
    }
  }

  lemma CompiledPlain(cfg: LocationConfig, path: string, engine: Engine)
    ensures IsPlainPrefix(Compile(cfg, engine), path) <==> TakesPlain(cfg, path, engine)
  {
    var p := cfg.path;
    if "~* " <= p {
      assert p == "~* " + p[3..] && p[1] == '*';
    } else if "~ " <= p {
      assert p == "~ " + p[2..] && p[1] == ' ';
    }
    forall r | p == "~ " + r
      ensures p[2..] == r && "~ " <= p && p[0] == '~' && p[1] == ' '
    {
    }
    forall r | p == "~* " + r
      ensures p[3..] == r && "~* " <= p && p[0] == '~'
    {
    }
    assert "= " <= p ==> p[0] == '=';
    assert "^~ " <= p ==> p[0] == '^';
  }

  /**
   * The location at position `i` takes precedence: it is the earliest that takes the path exactly; or none does and it
   * is the earliest priority prefix; or neither and it is the earliest regex; or none of these and it is the longest
   * plain prefix, the earliest among equals.
   */
  ghost predicate Precedes(cfgs: seq<LocationConfig>, path: string, engine: Engine, i: nat)
    requires i < |cfgs|
  {
    || FirstExact(cfgs, path, i)
    || (NoExact(cfgs, path) && FirstPriority(cfgs, path, i))
    || (NoExact(cfgs, path) && NoPriority(cfgs, path) && FirstRegex(cfgs, path, engine, i))
    || (&& NoExact(cfgs, path) && NoPriority(cfgs, path) && NoRegex(cfgs, path, engine)
        && LongestPath(cfgs, path, engine, i))
  }

  ghost predicate FirstExact(cfgs: seq<LocationConfig>, path: string, i: nat)
    requires i < |cfgs|
  {
    TakesExact(cfgs[i], path) && forall j :: 0 <= j < i ==> !TakesExact(cfgs[j], path)
  }

  ghost predicate FirstPriority(cfgs: seq<LocationConfig>, path: string, i: nat)
    requires i < |cfgs|
  {
    TakesPriority(cfgs[i], path) && forall j :: 0 <= j < i ==> !TakesPriority(cfgs[j], path)
  }

  ghost predicate FirstRegex(cfgs: seq<LocationConfig>, path: string, engine: Engine, i: nat)
    requires i < |cfgs|
  {
    TakesRegex(cfgs[i], path, engine) && forall j :: 0 <= j < i ==> !TakesRegex(cfgs[j], path, engine)
  }

  ghost predicate NoExact(cfgs: seq<LocationConfig>, path: string) {
    forall j :: 0 <= j < |cfgs| ==> !TakesExact(cfgs[j], path)
  }

  ghost predicate NoPriority(cfgs: seq<LocationConfig>, path: string) {
    forall j :: 0 <= j < |cfgs| ==> !TakesPriority(cfgs[j], path)
  }

  ghost predicate NoRegex(cfgs: seq<LocationConfig>, path: string, engine: Engine) {
    forall j :: 0 <= j < |cfgs| ==> !TakesRegex(cfgs[j], path, engine)
  }

  ghost predicate NoPlain(cfgs: seq<LocationConfig>, path: string, engine: Engine) {
    forall j :: 0 <= j < |cfgs| ==> !TakesPlain(cfgs[j], path, engine)
  }

  ghost predicate Untaken(cfgs: seq<LocationConfig>, path: string, engine: Engine) {
    NoExact(cfgs, path) && NoPriority(cfgs, path) && NoRegex(cfgs, path, engine) && NoPlain(cfgs, path, engine)
  }

  ghost predicate LongestPath(cfgs: seq<LocationConfig>, path: string, engine: Engine, i: nat)
    requires i < |cfgs|
  {
    TakesPlain(cfgs[i], path, engine) &&
    forall j :: 0 <= j < |cfgs| && TakesPlain(cfgs[j], path, engine) ==>
      |cfgs[j].path| < |cfgs[i].path| || (|cfgs[j].path| == |cfgs[i].path| && i <= j)
  }

  /** What every compiled location takes is what its configured path says. */
  lemma AllTake(cfgs: seq<LocationConfig>, path: string, engine: Engine)
    ensures var cs := CompileAll(cfgs, engine);
            forall i :: 0 <= i < |cfgs| ==>
              && (IsExact(cs[i], path) <==> TakesExact(cfgs[i], path))
              && (IsPriorityPrefix(cs[i], path) <==> TakesPriority(cfgs[i], path))
              && (IsRegex(cs[i], path, engine) <==> TakesRegex(cfgs[i], path, engine))
              && (IsPlainPrefix(cs[i], path) <==> TakesPlain(cfgs[i], path, engine))
  {
    var cs := CompileAll(cfgs, engine);
    forall i | 0 <= i < |cfgs|
      ensures IsExact(cs[i], path) <==> TakesExact(cfgs[i], path)
      ensures IsPriorityPrefix(cs[i], path) <==> TakesPriority(cfgs[i], path)
      ensures IsRegex(cs[i], path, engine) <==> TakesRegex(cfgs[i], path, engine)
      ensures IsPlainPrefix(cs[i], path) <==> TakesPlain(cfgs[i], path, engine)
    {
      CompiledTakes(cfgs[i], path, engine);
      CompiledRegex(cfgs[i], path, engine);
      CompiledPlain(cfgs[i], path, engine);
    }
  }

  lemma FirstsTake(cfgs: seq<LocationConfig>, path: string, engine: Engine, i: nat)
    requires i < |cfgs|
    ensures var cs := CompileAll(cfgs, engine);
            && (Earliest(cs, ExactFor(path), i) <==> FirstExact(cfgs, path, i))
            && (Earliest(cs, PriorityFor(path), i) <==> FirstPriority(cfgs, path, i))
            && (Earliest(cs, SecondRound(path, engine), i) <==> FirstRegex(cfgs, path, engine, i))
  {
    AllTake(cfgs, path, engine);
  }

  lemma LongestTakes(cfgs: seq<LocationConfig>, path: string, engine: Engine, i: nat)
    requires i < |cfgs|
    ensures LongestAt(CompileAll(cfgs, engine), path, i) <==> LongestPath(cfgs, path, engine, i)
  {
    AllTake(cfgs, path, engine);
  }

  lemma PrecedesCompiled(cfgs: seq<LocationConfig>, path: string, engine: Engine, i: nat)
    requires i < |cfgs|
    ensures Precedes(cfgs, path, engine, i) <==> CompiledPrecedes(CompileAll(cfgs, engine), path, engine, i)
  {
    RoundsTake(cfgs, path, engine);
    FirstsTake(cfgs, path, engine, i);
    LongestTakes(cfgs, path, engine, i);
  }

  lemma RoundsTake(cfgs: seq<LocationConfig>, path: string, engine: Engine)
    ensures var cs := CompileAll(cfgs, engine);
            && (NoneIs(cs, ExactFor(path)) <==> NoExact(cfgs, path))
            && (NoneIs(cs, FirstRound(path)) <==> NoExact(cfgs, path) && NoPriority(cfgs, path))
            && (NoneIs(cs, SecondRound(path, engine)) <==> NoRegex(cfgs, path, engine))
            && (NoneIs(cs, PlainFor(path)) <==> NoPlain(cfgs, path, engine))
  {
    AllTake(cfgs, path, engine);
    var cs := CompileAll(cfgs, engine);
    if NoneIs(cs, FirstRound(path)) {
      forall j | 0 <= j < |cfgs|
        ensures !TakesExact(cfgs[j], path) && !TakesPriority(cfgs[j], path)
      {
        assert !FirstRound(path)(cs[j]);
      }
    }
    if NoneIs(cs, ExactFor(path)) {
      forall j | 0 <= j < |cfgs|
        ensures !TakesExact(cfgs[j], path)
      {
        assert !ExactFor(path)(cs[j]);
      }
    }
    if NoneIs(cs, SecondRound(path, engine)) {
      forall j | 0 <= j < |cfgs|
        ensures !TakesRegex(cfgs[j], path, engine)
      {
        assert !SecondRound(path, engine)(cs[j]);
      }
    }
    if NoneIs(cs, PlainFor(path)) {
      forall j | 0 <= j < |cfgs|
        ensures !TakesPlain(cfgs[j], path, engine)
      {
        assert !PlainFor(path)(cs[j]);
      }
    }
  }

  /** On the sorted list, the three rounds return the location that takes precedence in the configured list. */
  lemma MatchIsPrecedence(cfgs: seq<LocationConfig>, path: string, engine: Engine, i: nat)
    requires i < |cfgs| && Precedes(cfgs, path, engine, i)
    ensures var r := Match(Prepare(cfgs, engine), path, engine); r.Some? && r.value.config == cfgs[i]
  {
    PrecedesCompiled(cfgs, path, engine, i);
    MatchIsCompiled(cfgs, path, engine, i);
  }

  /** If anything takes the path, some configured location takes precedence. */
  lemma SomethingPrecedes(cfgs: seq<LocationConfig>, path: string, engine: Engine)
    ensures || (exists i :: 0 <= i < |cfgs| && Precedes(cfgs, path, engine, i))
            || Untaken(cfgs, path, engine)
  {
    var cs := CompileAll(cfgs, engine);
    SomeCompiledPrecedes(cs, path, engine);
    RoundsTake(cfgs, path, engine);
    if i :| 0 <= i < |cs| && CompiledPrecedes(cs, path, engine, i) {
      PrecedesCompiled(cfgs, path, engine, i);
    }
  }

  /** And nothing is returned exactly when no configured location takes the path in any way. */
  lemma NoMatch(cfgs: seq<LocationConfig>, path: string, engine: Engine)
    ensures Match(Prepare(cfgs, engine), path, engine).None? <==>
            Untaken(cfgs, path, engine)
  {
    RoundsTake(cfgs, path, engine);
    NoneMatches(cfgs, path, engine);
  }
}
