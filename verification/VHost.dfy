/** The virtual-host registry: exact and wildcard tables plus a fallback site (src/dispatcher/vhost.rs). */
module VHost {
  import opened Common

  /** A configured site; `settings` stands for every field the registry only copies. */
  datatype SiteConfig = SiteConfig(name: string, serverNames: seq<string>, fallback: bool, settings: string)

  /** The runtime record of a site. */
  datatype SiteInfo = SiteInfo(name: string, fallback: bool, settings: string)

  function InfoOf(cfg: SiteConfig): SiteInfo {
    SiteInfo(cfg.name, cfg.fallback, cfg.settings)
  }

  function LowerChar(c: char): char {
    if 'A' <= c <= 'Z' then (c as int + 32) as char else c
  }

  function Lower(s: string): (r: string)
    ensures |r| == |s|
  {
    seq(|s|, i requires 0 <= i < |s| => LowerChar(s[i]))
  }

  /** The table key of one `server_name` entry. */
  datatype Pattern = Exact(host: string) | Wildcard(suffix: string)

  function PatternOf(serverName: string): Pattern {
    if "*." <= serverName then Wildcard(Lower(serverName[2..])) else Exact(Lower(serverName))
  }

  predicate Lists(cfg: SiteConfig, p: Pattern) {
    exists i :: 0 <= i < |cfg.serverNames| && PatternOf(cfg.serverNames[i]) == p
  }

  /** One immutable snapshot of the registry. */
  datatype Inner = Inner(exact: map<string, SiteInfo>, wildcard: map<string, SiteInfo>, fallback: Option<SiteInfo>)

  function Entry(inner: Inner, p: Pattern): Option<SiteInfo> {
    match p
    case Exact(h) => if h in inner.exact then Some(inner.exact[h]) else None
    case Wildcard(h) => if h in inner.wildcard then Some(inner.wildcard[h]) else None
  }

  /** Two snapshots with the same entries and fallback are the same snapshot. */
  lemma SameEntries(a: Inner, b: Inner)
    requires forall p :: Entry(a, p) == Entry(b, p)
    requires a.fallback == b.fallback
    ensures a == b
  {
    forall h
      ensures h in a.exact <==> h in b.exact
      ensures h in a.exact ==> a.exact[h] == b.exact[h]
    {
      assert Entry(a, Exact(h)) == Entry(b, Exact(h));
    }
    forall h
      ensures h in a.wildcard <==> h in b.wildcard
      ensures h in a.wildcard ==> a.wildcard[h] == b.wildcard[h]
    {
      assert Entry(a, Wildcard(h)) == Entry(b, Wildcard(h));
    }
    assert a.exact == b.exact && a.wildcard == b.wildcard;
  }

  /** `retain(|_, v| v.name != name)`. */
  function Without(m: map<string, SiteInfo>, name: string): map<string, SiteInfo> {
    map h | h in m && m[h].name != name :: m[h]
  }

  function Insert(inner: Inner, p: Pattern, info: SiteInfo): Inner {
    match p
    case Exact(h) => inner.(exact := inner.exact[h := info])
    case Wildcard(h) => inner.(wildcard := inner.wildcard[h := info])
  }

  function InsertAll(inner: Inner, names: seq<string>, info: SiteInfo): Inner {
    if names == [] then inner
    else Insert(InsertAll(inner, names[..|names| - 1], info), PatternOf(names[|names| - 1]), info)
  }

  /**
   * The snapshot after `upsert_site`: the site's old entries go, its patterns are claimed, the fallback flag only
   * ever sets.
   */
  function Upsert(inner: Inner, cfg: SiteConfig): Inner {
    var info := InfoOf(cfg);
    var cleared := inner.(exact := Without(inner.exact, cfg.name), wildcard := Without(inner.wildcard, cfg.name));
    var filled := InsertAll(cleared, cfg.serverNames, info);
    filled.(fallback := if cfg.fallback then Some(info) else inner.fallback)
  }

  function Remove(inner: Inner, name: string): Inner {
    Inner(Without(inner.exact, name), Without(inner.wildcard, name),
          if inner.fallback.Some? && inner.fallback.value.name == name then None else inner.fallback)
  }

  lemma {:induction false} InsertAllEntry(inner: Inner, names: seq<string>, info: SiteInfo, p: Pattern)
    ensures var r := InsertAll(inner, names, info);
            && Entry(r, p) == (if exists i :: 0 <= i < |names| && PatternOf(names[i]) == p then Some(info)
                               else Entry(inner, p))
            && r.fallback == inner.fallback
    decreases |names|
  {
    if names != [] {
      var n := |names| - 1;
      InsertAllEntry(inner, names[..n], info, p);
      if PatternOf(names[n]) != p && exists i :: 0 <= i < |names| && PatternOf(names[i]) == p {
        var i :| 0 <= i < |names| && PatternOf(names[i]) == p;
        assert names[..n][i] == names[i];
      }
    }
  }

  /** What one upsert does to the entry of any pattern. */
  lemma UpsertEntry(inner: Inner, cfg: SiteConfig, p: Pattern)
    ensures Entry(Upsert(inner, cfg), p) ==
            if Lists(cfg, p) then Some(InfoOf(cfg))
            else if Entry(inner, p).Some? && Entry(inner, p).value.name == cfg.name then None
            else Entry(inner, p)
  {
    var cleared := inner.(exact := Without(inner.exact, cfg.name), wildcard := Without(inner.wildcard, cfg.name));
    InsertAllEntry(cleared, cfg.serverNames, InfoOf(cfg), p);
    assert Entry(Upsert(inner, cfg), p) == Entry(InsertAll(cleared, cfg.serverNames, InfoOf(cfg)), p);
  }

  lemma RemoveEntry(inner: Inner, name: string, p: Pattern)
    ensures Entry(Remove(inner, name), p) ==
            if Entry(inner, p).Some? && Entry(inner, p).value.name == name then None else Entry(inner, p)
  {
  }

  const EMPTY := Inner(map[], map[], None)

  /** One upsert after another. */
  function UpsertAll(inner: Inner, sites: seq<SiteConfig>): Inner {
    if sites == [] then inner else Upsert(UpsertAll(inner, sites[..|sites| - 1]), sites[|sites| - 1])
  }

  /** The registry a fresh start builds. */
  function FromConfig(sites: seq<SiteConfig>): Inner {
    UpsertAll(EMPTY, sites)
  }

  class Registry {
    var inner: Inner

    constructor ()
      ensures inner == EMPTY
    {
      inner := EMPTY;
    }

    method UpsertSite(cfg: SiteConfig)
      modifies this
      ensures inner == Upsert(old(inner), cfg)
    {
      var info := InfoOf(cfg);
      var exact, wildcard, fallback := inner.exact, inner.wildcard, inner.fallback;
      exact := map h | h in exact && exact[h].name != cfg.name :: exact[h];
      wildcard := map h | h in wildcard && wildcard[h].name != cfg.name :: wildcard[h];
      ghost var cleared := Inner(exact, wildcard, fallback);
      for i := 0 to |cfg.serverNames|
        invariant Inner(exact, wildcard, fallback) == InsertAll(cleared, cfg.serverNames[..i], info)
      {
        var serverName := cfg.serverNames[i];
        assert cfg.serverNames[..i + 1][..i] == cfg.serverNames[..i];
        if "*." <= serverName {
          wildcard := wildcard[Lower(serverName[2..]) := info];
        } else {
          exact := exact[Lower(serverName) := info];
        }
      }
      assert cfg.serverNames[..|cfg.serverNames|] == cfg.serverNames;
      if cfg.fallback {
        fallback := Some(info);
      }
      inner := Inner(exact, wildcard, fallback);
    }

    method RemoveSite(name: string)
      modifies this
      ensures inner == Remove(old(inner), name)
    {
      var exact := map h | h in inner.exact && inner.exact[h].name != name :: inner.exact[h];
      var wildcard := map h | h in inner.wildcard && inner.wildcard[h].name != name :: inner.wildcard[h];
      var fallback := inner.fallback;
      if fallback.Some? && fallback.value.name == name {
        fallback := None;
      }
      inner := Inner(exact, wildcard, fallback);
    }

    /** `from_config`: one upsert per site, in configuration order. */
    method Load(sites: seq<SiteConfig>)
      requires inner == EMPTY
      modifies this
      ensures inner == FromConfig(sites)
    {
      for i := 0 to |sites|
        invariant inner == FromConfig(sites[..i])
      {
        assert sites[..i + 1][..i] == sites[..i];
        UpsertSite(sites[i]);
      }
      assert sites[..|sites|] == sites;
    }
  }

  // ----- what the tables of a fresh start hold

  /** The last site of a name: the one that counts when a name is used twice. */
  function Latest(sites: seq<SiteConfig>, name: string): (r: Option<SiteConfig>)
    ensures r.Some? ==> r.value in sites && r.value.name == name
    ensures r.None? ==> forall s :: s in sites ==> s.name != name
  {
    if sites == [] then None
    else
      var n := |sites| - 1;
      if sites[n].name == name then Some(sites[n]) else Latest(sites[..n], name)
  }

  /** The last site that lists the pattern. */
  function LastLister(sites: seq<SiteConfig>, p: Pattern): (r: Option<SiteConfig>)
    ensures r.Some? ==> r.value in sites && Lists(r.value, p)
    ensures r.None? ==> forall s :: s in sites ==> !Lists(s, p)
  {
    if sites == [] then None
    else
      var n := |sites| - 1;
      if Lists(sites[n], p) then Some(sites[n]) else LastLister(sites[..n], p)
  }

  /** The site a pattern belongs to: its last lister, unless a later site of the same name has dropped the pattern. */
  function Owner(sites: seq<SiteConfig>, p: Pattern): (r: Option<SiteConfig>)
    ensures r.Some? ==> r.value in sites && Lists(r.value, p) && Latest(sites, r.value.name) == r
  {
    var l := LastLister(sites, p);
    if l.Some? && Latest(sites, l.value.name) == l then l else None
  }

  function InfoOfOption(s: Option<SiteConfig>): Option<SiteInfo> {
    if s.Some? then Some(InfoOf(s.value)) else None
  }

  /** A fresh start serves every pattern from its owner. */
  lemma {:induction false} FreshEntry(sites: seq<SiteConfig>, p: Pattern)
    ensures Entry(FromConfig(sites), p) == InfoOfOption(Owner(sites, p))
    decreases |sites|
  {
    if sites != [] {
      var n := |sites| - 1;
      FreshEntry(sites[..n], p);
      UpsertEntry(FromConfig(sites[..n]), sites[n], p);
    }
  }

  /** The last site with the fallback flag. */
  function FallbackSite(sites: seq<SiteConfig>): (r: Option<SiteConfig>)
    ensures r.Some? ==> r.value in sites && r.value.fallback
    ensures r.None? ==> forall s :: s in sites ==> !s.fallback
  {
    if sites == [] then None
    else
      var n := |sites| - 1;
      if sites[n].fallback then Some(sites[n]) else FallbackSite(sites[..n])
  }

  lemma {:induction false} FreshFallback(sites: seq<SiteConfig>)
    ensures FromConfig(sites).fallback == InfoOfOption(FallbackSite(sites))
    decreases |sites|
  {
    if sites != [] {
      FreshFallback(sites[..|sites| - 1]);
    }
  }

  // ----- lookups

  /** The text after the first dot. */
  function AfterDot(host: string): Option<string> {
    if host == [] then None
    else if host[0] == '.' then Some(host[1..])
    else AfterDot(host[1..])
  }

  /** `lookup_inner`: exact host, then the wildcard of the parent domain, then the fallback site. */
  function Lookup(inner: Inner, host: string): Option<SiteInfo> {
    var h := Lower(host);
    if h in inner.exact then Some(inner.exact[h])
    else
      var suffix := AfterDot(h);
      if suffix.Some? && suffix.value in inner.wildcard then Some(inner.wildcard[suffix.value]) else inner.fallback
  }

  /**
   * A host is routed to the site that lists it, else to the one that lists its parent domain, else to the fallback
   * site.
   */
  lemma FreshLookup(sites: seq<SiteConfig>, host: string)
    ensures var h := Lower(host);
            var exact := Owner(sites, Exact(h));
            var parent := if AfterDot(h).Some? then Owner(sites, Wildcard(AfterDot(h).value)) else None;
            Lookup(FromConfig(sites), host) ==
            InfoOfOption(if exact.Some? then exact else if parent.Some? then parent else FallbackSite(sites))
  {
    var h := Lower(host);
    FreshEntry(sites, Exact(h));
    if AfterDot(h).Some? {
      FreshEntry(sites, Wildcard(AfterDot(h).value));
    }
    FreshFallback(sites);
  }

  // ----- routing, in terms of the configured names and the requested host

  /** Equal up to the case of ASCII letters. */
  predicate SameChar(a: char, b: char) {
    || a == b
    || ('A' <= a <= 'Z' && b as int == a as int + 32)
    || ('A' <= b <= 'Z' && a as int == b as int + 32)
  }

  predicate SameHost(a: string, b: string) {
    |a| == |b| && forall i :: 0 <= i < |a| ==> SameChar(a[i], b[i])
  }

  lemma LowerSame(a: string, b: string)
    ensures Lower(a) == Lower(b) <==> SameHost(a, b)
  {
    if Lower(a) == Lower(b) {
      forall i | 0 <= i < |a|
        ensures SameChar(a[i], b[i])
      {
        assert Lower(a)[i] == Lower(b)[i];
      }
    }
  }

  /** The site lists the host itself. */
  ghost predicate ListsHost(s: SiteConfig, host: string) {
    exists i :: 0 <= i < |s.serverNames| && !("*." <= s.serverNames[i]) && SameHost(s.serverNames[i], host)
  }

  /** The host is one label in front of the domain. */
  ghost predicate IsUnder(host: string, domain: string) {
    exists n :: 0 <= n < |host| && host[n] == '.' && '.' !in host[..n] && SameHost(domain, host[n + 1..])
  }

  /** The site lists every host under the domain the host is under. */
  ghost predicate ListsParent(s: SiteConfig, host: string) {
    exists i :: 0 <= i < |s.serverNames| && "*." <= s.serverNames[i] && IsUnder(host, s.serverNames[i][2..])
  }

  lemma ExactIsHost(s: SiteConfig, host: string)
    ensures Lists(s, Exact(Lower(host))) <==> ListsHost(s, host)
  {
    forall i | 0 <= i < |s.serverNames|
      ensures PatternOf(s.serverNames[i]) == Exact(Lower(host)) <==>
              !("*." <= s.serverNames[i]) && SameHost(s.serverNames[i], host)
    {
      LowerSame(s.serverNames[i], host);
    }
  }

  lemma {:induction false} AfterDotAt(host: string, n: nat)
    requires n < |host| && host[n] == '.' && '.' !in host[..n]
    ensures AfterDot(host) == Some(host[n + 1..])
  {
    if n > 0 {
      assert host[0] in host[..n];
      assert host[1..][..n - 1] == host[..n][1..];
      AfterDotAt(host[1..], n - 1);
      assert host[1..][n..] == host[n + 1..];
    }
  }

  lemma {:induction false} AfterDotFinds(host: string) returns (n: nat)
    requires AfterDot(host).Some?
    ensures n < |host| && host[n] == '.' && '.' !in host[..n] && AfterDot(host) == Some(host[n + 1..])
  {
    if host[0] == '.' {
      n := 0;
    } else {
      n := AfterDotFinds(host[1..]);
      assert host[1..][n + 1..] == host[n + 2..];
      assert host[..n + 1] == [host[0]] + host[1..][..n];
      n := n + 1;
    }
  }

  lemma LowerDots(host: string, n: nat)
    requires n <= |host|
    ensures '.' in Lower(host)[..n] <==> '.' in host[..n]
    ensures n < |host| ==> (Lower(host)[n] == '.' <==> host[n] == '.')
    ensures n < |host| ==> Lower(host)[n + 1..] == Lower(host[n + 1..])
  {
    if '.' in host[..n] {
      var i :| 0 <= i < n && host[..n][i] == '.';
      assert Lower(host)[..n][i] == '.';
    }
  }

  /** The wildcard entry of a host's parent domain is claimed by the sites that list its parent. */
  lemma WildcardIsParent(s: SiteConfig, host: string)
    ensures (AfterDot(Lower(host)).Some? && Lists(s, Wildcard(AfterDot(Lower(host)).value))) <==> ListsParent(s, host)
  {
    var h := Lower(host);
    if AfterDot(h).Some? && Lists(s, Wildcard(AfterDot(h).value)) {
      var n := AfterDotFinds(h);
      LowerDots(host, n);
      var i :| 0 <= i < |s.serverNames| && PatternOf(s.serverNames[i]) == Wildcard(AfterDot(h).value);
      LowerSame(s.serverNames[i][2..], host[n + 1..]);
      assert IsUnder(host, s.serverNames[i][2..]);
    }
    if ListsParent(s, host) {
      var i :| 0 <= i < |s.serverNames| && "*." <= s.serverNames[i] && IsUnder(host, s.serverNames[i][2..]);
      var n :| 0 <= n < |host| && host[n] == '.' && '.' !in host[..n] && SameHost(s.serverNames[i][2..], host[n + 1..]);
      LowerDots(host, n);
      AfterDotAt(h, n);
      LowerSame(s.serverNames[i][2..], host[n + 1..]);
      assert PatternOf(s.serverNames[i]) == Wildcard(AfterDot(h).value);
    }
  }

  lemma {:induction false} OwnerAt(sites: seq<SiteConfig>, p: Pattern, i: nat)
    requires i < |sites| && Lists(sites[i], p)
    requires forall j :: i < j < |sites| ==> !Lists(sites[j], p) && sites[j].name != sites[i].name
    ensures LastLister(sites, p) == Some(sites[i]) && Latest(sites, sites[i].name) == Some(sites[i])
    ensures Owner(sites, p) == Some(sites[i])
    decreases |sites|
  {
    if i < |sites| - 1 {
      OwnerAt(sites[..|sites| - 1], p, i);
    }
  }

  /** The lookup found this site. */
  predicate IsSite(found: Option<SiteInfo>, s: SiteConfig) {
    found.Some? && found.value.name == s.name && found.value.settings == s.settings
  }

  /** A host goes to the last site that lists it, in whatever case, unless a later namesake does not. */
  lemma RoutedToHost(sites: seq<SiteConfig>, host: string, i: nat)
    requires i < |sites| && ListsHost(sites[i], host)
    requires forall j :: i < j < |sites| ==> !ListsHost(sites[j], host) && sites[j].name != sites[i].name
    ensures IsSite(Lookup(FromConfig(sites), host), sites[i])
  {
    var p := Exact(Lower(host));
    forall j | 0 <= j < |sites|
      ensures Lists(sites[j], p) <==> ListsHost(sites[j], host)
    {
      ExactIsHost(sites[j], host);
    }
    OwnerAt(sites, p, i);
    FreshLookup(sites, host);
  }

  /** A host that no site lists goes to the last site that lists `*.` and the domain it is under. */
  lemma RoutedToParent(sites: seq<SiteConfig>, host: string, i: nat)
    requires forall j :: 0 <= j < |sites| ==> !ListsHost(sites[j], host)
    requires i < |sites| && ListsParent(sites[i], host)
    requires forall j :: i < j < |sites| ==> !ListsParent(sites[j], host) && sites[j].name != sites[i].name
    ensures IsSite(Lookup(FromConfig(sites), host), sites[i])
  {
    NotListed(sites, host);
    forall j | 0 <= j < |sites|
      ensures (AfterDot(Lower(host)).Some? && Lists(sites[j], Wildcard(AfterDot(Lower(host)).value)))
         <==> ListsParent(sites[j], host)
    {
      WildcardIsParent(sites[j], host);
    }
    OwnerAt(sites, Wildcard(AfterDot(Lower(host)).value), i);
    FreshLookup(sites, host);
  }

  lemma NotListed(sites: seq<SiteConfig>, host: string)
    requires forall j :: 0 <= j < |sites| ==> !ListsHost(sites[j], host)
    ensures Owner(sites, Exact(Lower(host))).None?
  {
    var o := Owner(sites, Exact(Lower(host)));
    if o.Some? {
      var j :| 0 <= j < |sites| && sites[j] == o.value;
      ExactIsHost(sites[j], host);
    }
  }

  /** Any other host goes to the last site with the fallback flag, or nowhere when there is none. */
  lemma RoutedToFallback(sites: seq<SiteConfig>, host: string)
    requires forall j :: 0 <= j < |sites| ==> !ListsHost(sites[j], host) && !ListsParent(sites[j], host)
    ensures forall i :: 0 <= i < |sites| && sites[i].fallback
                        && (forall j :: i < j < |sites| ==> !sites[j].fallback) ==>
              IsSite(Lookup(FromConfig(sites), host), sites[i])
    ensures (forall i :: 0 <= i < |sites| ==> !sites[i].fallback) ==> Lookup(FromConfig(sites), host).None?
  {
    NotListed(sites, host);
    if AfterDot(Lower(host)).Some? {
      var o := Owner(sites, Wildcard(AfterDot(Lower(host)).value));
      if o.Some? {
        var j :| 0 <= j < |sites| && sites[j] == o.value;
        WildcardIsParent(sites[j], host);
      }
    }
    FreshLookup(sites, host);
    forall i | 0 <= i < |sites| && sites[i].fallback && (forall j :: i < j < |sites| ==> !sites[j].fallback)
      ensures FallbackSite(sites) == Some(sites[i])
    {
      LastFlagged(sites, i);
    }
  }

  lemma {:induction false} LastFlagged(sites: seq<SiteConfig>, i: nat)
    requires i < |sites| && sites[i].fallback && forall j :: i < j < |sites| ==> !sites[j].fallback
    ensures FallbackSite(sites) == Some(sites[i])
    decreases |sites|
  {
    if i < |sites| - 1 {
      LastFlagged(sites[..|sites| - 1], i);
    }
  }

  /** `*.` and a domain takes every host with one label in front of the domain. */
  lemma WildcardTakes(s: SiteConfig, i: nat, first: string, domain: string)
    requires i < |s.serverNames| && s.serverNames[i] == "*." + domain && '.' !in first
    ensures ListsParent(s, first + "." + domain)
  {
    var host, n := first + "." + domain, |first|;
    assert host[..n] == first && host[n] == '.' && host[n + 1..] == domain;
    assert s.serverNames[i][2..] == domain;
    assert SameHost(domain, host[n + 1..]);
    assert IsUnder(host, s.serverNames[i][2..]);
  }
}
