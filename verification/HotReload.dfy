/** Applying a configuration diff to a running registry (src/config/hot_reload.rs). */
module HotReload {
  import opened Common
  import opened VHost

  /** `toml::to_string(..).ok()`: the text of a site, or None when the site cannot be written as TOML. */
  type Serialiser = SiteConfig -> Option<string>

  /** `site_changed`: two versions that both fail to serialise count as unchanged, however much they differ. */
  predicate SiteChanged(ser: Serialiser, a: SiteConfig, b: SiteConfig) {
    ser(a) != ser(b)
  }

  /** One reload: from which configuration to which. */
  datatype Change = Change(olds: seq<SiteConfig>, news: seq<SiteConfig>, ser: Serialiser)

  function Names(sites: seq<SiteConfig>): (r: set<string>)
    ensures forall n :: n in r <==> Latest(sites, n).Some?
  {
    set s | s in sites :: s.name
  }

  function Gone(d: Change): set<string> {
    Names(d.olds) - Names(d.news)
  }

  function Added(d: Change): set<string> {
    Names(d.news) - Names(d.olds)
  }

  function Kept(d: Change): set<string> {
    Names(d.olds) * Names(d.news)
  }

  /** The new site of this name is upserted: the name is new, or its two versions count as changed. */
  predicate IsUpserted(d: Change, name: string) {
    Latest(d.news, name).Some? &&
    (Latest(d.olds, name).None? || SiteChanged(d.ser, Latest(d.olds, name).value, Latest(d.news, name).value))
  }

  // ----- the three loops, for one order of each hash set

  datatype Order = Order(gone: seq<string>, added: seq<string>, kept: seq<string>)

  ghost predicate Enumerates(order: seq<string>, names: set<string>) {
    && (forall n :: n in order <==> n in names)
    && (forall i, j :: 0 <= i < j < |order| ==> order[i] != order[j])
  }

  ghost predicate IsOrder(d: Change, o: Order) {
    Enumerates(o.gone, Gone(d)) && Enumerates(o.added, Added(d)) && Enumerates(o.kept, Kept(d))
  }

  function RemoveAll(inner: Inner, names: seq<string>): Inner {
    if names == [] then inner else Remove(RemoveAll(inner, names[..|names| - 1]), names[|names| - 1])
  }

  function Visit(inner: Inner, d: Change, name: string): Inner {
    if IsUpserted(d, name) then Upsert(inner, Latest(d.news, name).value) else inner
  }

  function VisitAll(inner: Inner, d: Change, names: seq<string>): Inner {
    if names == [] then inner else Visit(VisitAll(inner, d, names[..|names| - 1]), d, names[|names| - 1])
  }

  /** The registry after the removals, the additions and the changes. */
  function Diffed(inner: Inner, d: Change, o: Order): Inner {
    VisitAll(RemoveAll(inner, o.gone), d, o.added + o.kept)
  }

  /** The hash map from names to sites that the diff starts from: a name used twice stands for its last site. */
  method ByName(sites: seq<SiteConfig>) returns (m: map<string, SiteConfig>)
    ensures m.Keys == Names(sites)
    ensures forall n :: n in m ==> Latest(sites, n) == Some(m[n])
  {
    m := map[];
    for i := 0 to |sites|
      invariant forall n :: n in m <==> Latest(sites[..i], n).Some?
      invariant forall n :: n in m ==> Latest(sites[..i], n) == Some(m[n])
    {
      assert sites[..i + 1][..i] == sites[..i];
      m := m[sites[i].name := sites[i]];
    }
    assert sites[..|sites|] == sites;
    assert forall n :: n in m.Keys <==> n in Names(sites);
  }

  method RemoveGone(registry: Registry, gone: set<string>) returns (ghost order: seq<string>)
    modifies registry
    ensures Enumerates(order, gone)
    ensures registry.inner == RemoveAll(old(registry.inner), order)
  {
    order := [];
    var todo := gone;
    while todo != {}
      invariant todo <= gone && Enumerates(order, gone - todo)
      invariant registry.inner == RemoveAll(old(registry.inner), order)
      decreases todo
    {
      var name :| name in todo;
      registry.RemoveSite(name);
      assert (order + [name])[..|order|] == order;
      todo, order := todo - {name}, order + [name];
    }
  }

  /** The second and third loops: a name that is new, or whose site counts as changed, is upserted. */
  method UpsertNames(registry: Registry, names: set<string>, oldMap: map<string, SiteConfig>,
                     newMap: map<string, SiteConfig>, ser: Serialiser, ghost d: Change)
    returns (ghost order: seq<string>)
    requires names <= newMap.Keys && ser == d.ser
    requires oldMap.Keys == Names(d.olds) && forall n :: n in oldMap ==> Latest(d.olds, n) == Some(oldMap[n])
    requires newMap.Keys == Names(d.news) && forall n :: n in newMap ==> Latest(d.news, n) == Some(newMap[n])
    modifies registry
    ensures Enumerates(order, names)
    ensures registry.inner == VisitAll(old(registry.inner), d, order)
  {
    order := [];
    var todo := names;
    while todo != {}
      invariant todo <= names && Enumerates(order, names - todo)
      invariant registry.inner == VisitAll(old(registry.inner), d, order)
      decreases todo
    {
      var name :| name in todo;
      assert name in oldMap.Keys <==> Latest(d.olds, name).Some?;
      if name !in oldMap || SiteChanged(ser, oldMap[name], newMap[name]) {
        registry.UpsertSite(newMap[name]);
      }
      assert (order + [name])[..|order|] == order;
      todo, order := todo - {name}, order + [name];
    }
  }

  lemma {:induction false} VisitAllAppend(inner: Inner, d: Change, a: seq<string>, b: seq<string>)
    ensures VisitAll(inner, d, a + b) == VisitAll(VisitAll(inner, d, a), d, b)
    decreases |b|
  {
    if b == [] {
      assert a + b == a;
    } else {
      assert (a + b)[..|a + b| - 1] == a + b[..|b| - 1];
      VisitAllAppend(inner, d, a, b[..|b| - 1]);
    }
  }

  /** The site part of `apply_diff`, for every pair of configurations and whatever order the sets are walked in. */
  method ApplyDiff(registry: Registry, olds: seq<SiteConfig>, news: seq<SiteConfig>, ser: Serialiser)
    returns (ghost o: Order)
    modifies registry
    ensures IsOrder(Change(olds, news, ser), o)
    ensures registry.inner == Diffed(old(registry.inner), Change(olds, news, ser), o)
  {
    ghost var d := Change(olds, news, ser);
    var oldMap := ByName(olds);
    var newMap := ByName(news);
    ghost var gone := RemoveGone(registry, oldMap.Keys - newMap.Keys);
    ghost var start := registry.inner;
    ghost var added := UpsertNames(registry, newMap.Keys - oldMap.Keys, oldMap, newMap, ser, d);
    ghost var kept := UpsertNames(registry, oldMap.Keys * newMap.Keys, oldMap, newMap, ser, d);
    VisitAllAppend(start, d, added, kept);
    o := Order(gone, added, kept);
  }

  // ----- what one order of visits leaves

  /** The last visited upsert of a site with some property. */
  function Last(d: Change, names: seq<string>, q: SiteConfig -> bool): (r: Option<SiteConfig>)
    ensures r.Some? ==> exists n :: n in names && Claims(d, q, n) && Latest(d.news, n) == r
    ensures r.None? ==> forall n :: n in names ==> !Claims(d, q, n)
  {
    if names == [] then None
    else
      var k := |names| - 1;
      if Claims(d, q, names[k]) then Latest(d.news, names[k]) else Last(d, names[..k], q)
  }

  /** The site of this name is upserted and has the property. */
  predicate Claims(d: Change, q: SiteConfig -> bool, name: string) {
    IsUpserted(d, name) && q(Latest(d.news, name).value)
  }

  function ListsIt(p: Pattern): SiteConfig -> bool {
    (s: SiteConfig) => Lists(s, p)
  }

  function Flagged(): SiteConfig -> bool {
    (s: SiteConfig) => s.fallback
  }

  /** Decided by the last visit that claims, else as it was. */
  function Decided(d: Change, names: seq<string>, q: SiteConfig -> bool, before: Option<SiteInfo>): Option<SiteInfo> {
    var v := Last(d, names, q);
    if v.Some? then Some(InfoOf(v.value)) else before
  }

  lemma {:induction false} RemoveAllEntry(inner: Inner, names: seq<string>, p: Pattern)
    ensures var e := Entry(inner, p);
            Entry(RemoveAll(inner, names), p) == if e.Some? && e.value.name in names then None else e
    decreases |names|
  {
    if names != [] {
      var k := |names| - 1;
      RemoveAllEntry(inner, names[..k], p);
      RemoveEntry(RemoveAll(inner, names[..k]), names[k], p);
      assert names == names[..k] + [names[k]];
    }
  }

  lemma {:induction false} RemoveAllFallback(inner: Inner, names: seq<string>)
    ensures var f := inner.fallback;
            RemoveAll(inner, names).fallback == if f.Some? && f.value.name in names then None else f
    decreases |names|
  {
    if names != [] {
      var k := |names| - 1;
      RemoveAllFallback(inner, names[..k]);
      assert names == names[..k] + [names[k]];
    }
  }

  /** An entry that no visit claims is dropped when its own site is upserted. */
  function Unclaimed(d: Change, names: seq<string>, e: Option<SiteInfo>): Option<SiteInfo> {
    if e.Some? && e.value.name in names && IsUpserted(d, e.value.name) then None else e
  }

  lemma {:induction false} VisitAllEntry(inner: Inner, d: Change, names: seq<string>, p: Pattern)
    ensures Entry(VisitAll(inner, d, names), p) ==
            Decided(d, names, ListsIt(p), Unclaimed(d, names, Entry(inner, p)))
    decreases |names|
  {
    if names != [] {
      var k := |names| - 1;
      VisitAllEntry(inner, d, names[..k], p);
      assert names == names[..k] + [names[k]];
      if IsUpserted(d, names[k]) {
        UpsertEntry(VisitAll(inner, d, names[..k]), Latest(d.news, names[k]).value, p);
      }
    }
  }

  lemma {:induction false} VisitAllFallback(inner: Inner, d: Change, names: seq<string>)
    ensures VisitAll(inner, d, names).fallback == Decided(d, names, Flagged(), inner.fallback)
    decreases |names|
  {
    if names != [] {
      VisitAllFallback(inner, d, names[..|names| - 1]);
    }
  }

  /** What is left of an entry whose pattern no upsert claims: it goes with its site, or with the upsert of its site. */
  function LeftOver(d: Change, e: Option<SiteInfo>): Option<SiteInfo> {
    if e.Some? && (e.value.name in Gone(d) || IsUpserted(d, e.value.name)) then None else e
  }

  /** What is left of the fallback when no upserted site has the flag: it goes with its site only. */
  function LeftFallback(d: Change, f: Option<SiteInfo>): Option<SiteInfo> {
    if f.Some? && f.value.name in Gone(d) then None else f
  }

  /** Every entry and the fallback after the diff, on any registry, in any order. */
  lemma DiffResult(inner: Inner, d: Change, o: Order, p: Pattern)
    requires IsOrder(d, o)
    ensures Entry(Diffed(inner, d, o), p) == Decided(d, o.added + o.kept, ListsIt(p), LeftOver(d, Entry(inner, p)))
    ensures Diffed(inner, d, o).fallback == Decided(d, o.added + o.kept, Flagged(), LeftFallback(d, inner.fallback))
  {
    var removed := RemoveAll(inner, o.gone);
    RemoveAllEntry(inner, o.gone, p);
    RemoveAllFallback(inner, o.gone);
    VisitAllEntry(removed, d, o.added + o.kept, p);
    VisitAllFallback(removed, d, o.added + o.kept);
    var e := Entry(inner, p);
    if e.Some? && IsUpserted(d, e.value.name) {
      assert e.value.name in Names(d.news);
      assert e.value.name in o.added + o.kept;
    }
  }

  // ----- when every order gives the result of a fresh start

  /**
   * The changed sites that claim something must all be the rightful one; without any, the added ones; without those,
   * what was there before must be right already.
   */
  ghost predicate Forced(d: Change, q: SiteConfig -> bool, before: Option<SiteInfo>, rebuilt: Option<SiteInfo>) {
    if exists n :: n in Kept(d) && Claims(d, q, n) then
      forall n :: n in Kept(d) && Claims(d, q, n) ==> InfoOfOption(Latest(d.news, n)) == rebuilt
    else if exists n :: n in Added(d) && Claims(d, q, n) then
      forall n :: n in Added(d) && Claims(d, q, n) ==> InfoOfOption(Latest(d.news, n)) == rebuilt
    else before == rebuilt
  }

  lemma {:induction false} LastOfTwo(d: Change, a: seq<string>, b: seq<string>, q: SiteConfig -> bool)
    ensures Last(d, a + b, q) == if Last(d, b, q).Some? then Last(d, b, q) else Last(d, a, q)
    decreases |b|
  {
    if b == [] {
      assert a + b == a;
    } else {
      assert (a + b)[..|a + b| - 1] == a + b[..|b| - 1];
      LastOfTwo(d, a, b[..|b| - 1], q);
    }
  }

  lemma ForcedInEveryOrder(d: Change, o: Order, q: SiteConfig -> bool, before: Option<SiteInfo>,
                           rebuilt: Option<SiteInfo>)
    requires IsOrder(d, o) && Forced(d, q, before, rebuilt)
    ensures Decided(d, o.added + o.kept, q, before) == rebuilt
  {
    LastOfTwo(d, o.added, o.kept, q);
  }

  /** The names in some order. */
  lemma SomeOrder(names: set<string>) returns (order: seq<string>)
    ensures Enumerates(order, names)
  {
    order := [];
    var todo := names;
    while todo != {}
      invariant todo <= names && Enumerates(order, names - todo)
      decreases todo
    {
      var name :| name in todo;
      todo, order := todo - {name}, order + [name];
    }
  }

  /** The names in an order that ends with the given one. */
  lemma OrderEndingIn(names: set<string>, last: string) returns (order: seq<string>)
    requires last in names
    ensures Enumerates(order, names) && order != [] && order[|order| - 1] == last
  {
    order := SomeOrder(names - {last});
    order := order + [last];
  }

  lemma LastDecides(d: Change, names: seq<string>, q: SiteConfig -> bool, before: Option<SiteInfo>, n: string)
    requires names != [] && names[|names| - 1] == n && Claims(d, q, n)
    ensures Last(d, names, q) == Latest(d.news, n)
    ensures Decided(d, names, q, before) == InfoOfOption(Latest(d.news, n))
  {
  }

  /** An order in which the changed site `n` has the last word. */
  lemma KeptDecides(d: Change, q: SiteConfig -> bool, before: Option<SiteInfo>, n: string) returns (o: Order)
    requires n in Kept(d) && Claims(d, q, n)
    ensures IsOrder(d, o) && Decided(d, o.added + o.kept, q, before) == InfoOfOption(Latest(d.news, n))
  {
    var gone := SomeOrder(Gone(d));
    var added := SomeOrder(Added(d));
    var kept := OrderEndingIn(Kept(d), n);
    o := Order(gone, added, kept);
    LastDecides(d, added + kept, q, before, n);
  }

  /** Without a claim among the changed sites: an order in which the added site `n` has the last word. */
  lemma AddedDecides(d: Change, q: SiteConfig -> bool, before: Option<SiteInfo>, n: string) returns (o: Order)
    requires n in Added(d) && Claims(d, q, n) && forall k :: k in Kept(d) ==> !Claims(d, q, k)
    ensures IsOrder(d, o) && Decided(d, o.added + o.kept, q, before) == InfoOfOption(Latest(d.news, n))
  {
    var gone := SomeOrder(Gone(d));
    var added := OrderEndingIn(Added(d), n);
    var kept := SomeOrder(Kept(d));
    o := Order(gone, added, kept);
    LastOfTwo(d, added, kept, q);
    LastDecides(d, added, q, before, n);
  }

  /** Without any claim nothing is decided. */
  lemma NobodyDecides(d: Change, q: SiteConfig -> bool, before: Option<SiteInfo>) returns (o: Order)
    requires forall k :: k in Kept(d) || k in Added(d) ==> !Claims(d, q, k)
    ensures IsOrder(d, o) && Decided(d, o.added + o.kept, q, before) == before
  {
    var gone := SomeOrder(Gone(d));
    var added := SomeOrder(Added(d));
    var kept := SomeOrder(Kept(d));
    o := Order(gone, added, kept);
  }

  /** An order that shows a claim that is not forced. */
  lemma Unforced(d: Change, q: SiteConfig -> bool, before: Option<SiteInfo>, rebuilt: Option<SiteInfo>)
    returns (o: Order)
    requires !Forced(d, q, before, rebuilt)
    ensures IsOrder(d, o) && Decided(d, o.added + o.kept, q, before) != rebuilt
  {
    if n :| n in Kept(d) && Claims(d, q, n) && InfoOfOption(Latest(d.news, n)) != rebuilt {
      o := KeptDecides(d, q, before, n);
    } else if n :| n in Added(d) && Claims(d, q, n) && InfoOfOption(Latest(d.news, n)) != rebuilt {
      o := AddedDecides(d, q, before, n);
    } else {
      o := NobodyDecides(d, q, before);
    }
  }

  /** The exact condition on one pattern: it is owned by the right site after every order of the diff. */
  ghost predicate AgreesAt(d: Change, p: Pattern) {
    Forced(d, ListsIt(p), LeftOver(d, InfoOfOption(Owner(d.olds, p))), InfoOfOption(Owner(d.news, p)))
  }

  /** And on the fallback. */
  ghost predicate FallbackAgrees(d: Change) {
    Forced(d, Flagged(), LeftFallback(d, InfoOfOption(FallbackSite(d.olds))), InfoOfOption(FallbackSite(d.news)))
  }

  ghost predicate SameTables(a: Inner, b: Inner) {
    a.exact == b.exact && a.wildcard == b.wildcard
  }

  lemma SameTablesByEntry(a: Inner, b: Inner)
    ensures SameTables(a, b) <==> forall p :: Entry(a, p) == Entry(b, p)
  {
    if forall p :: Entry(a, p) == Entry(b, p) {
      var c := b.(fallback := a.fallback);
      forall p
        ensures Entry(a, p) == Entry(c, p)
      {
        assert Entry(b, p) == Entry(c, p);
      }
      SameEntries(a, c);
    }
  }

  /** The registry holds the tables of a fresh start on `sites`. */
  ghost predicate Serves(inner: Inner, sites: seq<SiteConfig>) {
    forall p :: Entry(inner, p) == InfoOfOption(Owner(sites, p))
  }

  lemma ServesFresh(inner: Inner, sites: seq<SiteConfig>)
    ensures Serves(inner, sites) <==> SameTables(inner, FromConfig(sites))
  {
    SameTablesByEntry(inner, FromConfig(sites));
    forall p
      ensures Entry(FromConfig(sites), p) == InfoOfOption(Owner(sites, p))
    {
      FreshEntry(sites, p);
    }
    if !Serves(inner, sites) {
      var p :| Entry(inner, p) != InfoOfOption(Owner(sites, p));
      assert Entry(inner, p) != Entry(FromConfig(sites), p);
    }
  }

  /** From the old tables, every order leads to those of a fresh start if and only if every pattern agrees. */
  lemma TablesAgree(inner: Inner, d: Change)
    requires Serves(inner, d.olds)
    ensures (forall o :: IsOrder(d, o) ==> SameTables(Diffed(inner, d, o), FromConfig(d.news)))
       <==> forall p :: AgreesAt(d, p)
  {
    if p :| !AgreesAt(d, p) {
      var before, rebuilt := LeftOver(d, InfoOfOption(Owner(d.olds, p))), InfoOfOption(Owner(d.news, p));
      var o := Unforced(d, ListsIt(p), before, rebuilt);
      DiffResult(inner, d, o, p);
      ServesFresh(Diffed(inner, d, o), d.news);
      assert !SameTables(Diffed(inner, d, o), FromConfig(d.news));
    } else {
      forall o | IsOrder(d, o)
        ensures SameTables(Diffed(inner, d, o), FromConfig(d.news))
      {
        AgreedTables(inner, d, o);
      }
    }
  }

  lemma AgreedTables(inner: Inner, d: Change, o: Order)
    requires Serves(inner, d.olds) && IsOrder(d, o) && forall p :: AgreesAt(d, p)
    ensures Serves(Diffed(inner, d, o), d.news)
    ensures SameTables(Diffed(inner, d, o), FromConfig(d.news))
  {
    forall p
      ensures Entry(Diffed(inner, d, o), p) == InfoOfOption(Owner(d.news, p))
    {
      assert AgreesAt(d, p);
      DiffResult(inner, d, o, p);
      ForcedInEveryOrder(d, o, ListsIt(p), LeftOver(d, Entry(inner, p)), InfoOfOption(Owner(d.news, p)));
    }
    ServesFresh(Diffed(inner, d, o), d.news);
  }

  /** The same for the fallback, with any number of flagged sites. */
  lemma FallbackAgreement(inner: Inner, d: Change)
    requires inner.fallback == FromConfig(d.olds).fallback
    ensures (forall o :: IsOrder(d, o) ==> Diffed(inner, d, o).fallback == FromConfig(d.news).fallback)
       <==> FallbackAgrees(d)
  {
    FreshFallback(d.olds);
    FreshFallback(d.news);
    var before, rebuilt := LeftFallback(d, InfoOfOption(FallbackSite(d.olds))), InfoOfOption(FallbackSite(d.news));
    if FallbackAgrees(d) {
      forall o | IsOrder(d, o)
        ensures Diffed(inner, d, o).fallback == FromConfig(d.news).fallback
      {
        DiffResult(inner, d, o, Exact(""));
        ForcedInEveryOrder(d, o, Flagged(), before, rebuilt);
      }
    } else {
      var o := Unforced(d, Flagged(), before, rebuilt);
      DiffResult(inner, d, o, Exact(""));
      assert Diffed(inner, d, o).fallback != FromConfig(d.news).fallback;
    }
  }

  /** A reload is a fresh start, whatever the orders, if and only if every pattern and the fallback agree. */
  lemma ReloadIsFresh(d: Change)
    ensures (forall o :: IsOrder(d, o) ==> Diffed(FromConfig(d.olds), d, o) == FromConfig(d.news))
       <==> (forall p :: AgreesAt(d, p)) && FallbackAgrees(d)
  {
    var inner := FromConfig(d.olds);
    ServesFresh(inner, d.olds);
    TablesAgree(inner, d);
    FallbackAgreement(inner, d);
    if forall o :: IsOrder(d, o) ==> Diffed(inner, d, o) == FromConfig(d.news) {
      forall o | IsOrder(d, o)
        ensures SameTables(Diffed(inner, d, o), FromConfig(d.news))
        ensures Diffed(inner, d, o).fallback == FromConfig(d.news).fallback
      {
      }
    }
  }

  // ----- configurations in which no host is listed twice

  ghost predicate DistinctNames(sites: seq<SiteConfig>) {
    forall s :: s in sites ==> Latest(sites, s.name) == Some(s)
  }

  /** No pattern is listed by two sites. */
  ghost predicate DisjointPatterns(sites: seq<SiteConfig>) {
    forall a, b, p :: a in sites && b in sites && Lists(a, p) && Lists(b, p) ==> a == b
  }

  ghost predicate WellFormed(sites: seq<SiteConfig>) {
    DistinctNames(sites) && DisjointPatterns(sites)
  }

  /** The site of this name stays configured and is left alone. */
  predicate Skipped(d: Change, name: string) {
    name in Kept(d) && !IsUpserted(d, name)
  }

  /**
   * Leaving a site alone does no harm at a pattern: its new version claims only what its old version has, as the same
   * site, and what its old version has is listed by some new site, which takes it over if it is another one.
   */
  ghost predicate SkipFitsAt(d: Change, name: string, p: Pattern)
    requires Skipped(d, name)
  {
    var a, b := Latest(d.olds, name).value, Latest(d.news, name).value;
    && (Lists(b, p) ==> Lists(a, p) && InfoOf(a) == InfoOf(b))
    && (Lists(a, p) ==> exists m :: m in d.news && Lists(m, p))
  }

  lemma OwnerOf(sites: seq<SiteConfig>, s: SiteConfig, p: Pattern)
    requires WellFormed(sites) && s in sites && Lists(s, p)
    ensures Owner(sites, p) == Some(s)
  {
    assert LastLister(sites, p).Some?;
  }

  lemma ClaimantIsOwner(d: Change, name: string, p: Pattern)
    requires WellFormed(d.news) && Claims(d, ListsIt(p), name)
    ensures Latest(d.news, name) == Owner(d.news, p)
  {
    OwnerOf(d.news, Latest(d.news, name).value, p);
  }

  /** At a pattern whose owner is skipped or missing, agreement is that of the old owner. */
  lemma AgreesUnclaimed(d: Change, p: Pattern)
    requires WellFormed(d.news) && forall n :: !Claims(d, ListsIt(p), n)
    ensures AgreesAt(d, p) <==> LeftOver(d, InfoOfOption(Owner(d.olds, p))) == InfoOfOption(Owner(d.news, p))
  {
  }

  lemma AgreesClaimed(d: Change, name: string, p: Pattern)
    requires WellFormed(d.news) && Claims(d, ListsIt(p), name)
    ensures AgreesAt(d, p)
  {
    forall n | Claims(d, ListsIt(p), n)
      ensures Latest(d.news, n) == Owner(d.news, p)
    {
      ClaimantIsOwner(d, n, p);
    }
    assert name in Names(d.news);
    assert name in Kept(d) || name in Added(d);
  }

  lemma WellFormedAt(d: Change, p: Pattern)
    requires WellFormed(d.olds) && WellFormed(d.news)
    requires forall n :: Skipped(d, n) ==> SkipFitsAt(d, n, p)
    ensures AgreesAt(d, p)
  {
    if n :| Claims(d, ListsIt(p), n) {
      AgreesClaimed(d, n, p);
    } else {
      AgreesUnclaimed(d, p);
      var o, f := Owner(d.olds, p), Owner(d.news, p);
      if f.Some? {
        var name := f.value.name;
        assert !Claims(d, ListsIt(p), name) && name in Names(d.news);
        assert Skipped(d, name) && SkipFitsAt(d, name, p);
        OwnerOf(d.olds, Latest(d.olds, name).value, p);
        assert name !in Gone(d);
      } else if o.Some? && o.value.name !in Gone(d) {
        var name := o.value.name;
        assert name in Names(d.olds);
        if !IsUpserted(d, name) {
          assert SkipFitsAt(d, name, p);
          var m :| m in d.news && Lists(m, p);
          OwnerOf(d.news, m, p);
        }
      }
    }
  }

  lemma UnfitDisagrees(d: Change, name: string, p: Pattern)
    requires WellFormed(d.olds) && WellFormed(d.news)
    requires Skipped(d, name) && !SkipFitsAt(d, name, p)
    ensures !AgreesAt(d, p)
  {
    var a, b := Latest(d.olds, name).value, Latest(d.news, name).value;
    var o, f := Owner(d.olds, p), Owner(d.news, p);
    assert name in Names(d.olds) && name in Names(d.news);
    if Lists(b, p) {
      OwnerOf(d.news, b, p);
    } else {
      OwnerOf(d.olds, a, p);
    }
    forall n | Claims(d, ListsIt(p), n)
      ensures false
    {
      OwnerOf(d.news, Latest(d.news, n).value, p);
    }
    AgreesUnclaimed(d, p);
    if Lists(b, p) && o.Some? && InfoOf(o.value) == InfoOf(b) {
      assert o.value == a;
    }
  }

  /**
   * With distinct names and no host listed twice, the only thing that can go wrong is a site left alone although its
   * two versions differ in a way that no other upsert makes up for.
   */
  lemma WellFormedAgree(d: Change)
    requires WellFormed(d.olds) && WellFormed(d.news)
    ensures (forall p :: AgreesAt(d, p)) <==> forall n, p :: Skipped(d, n) ==> SkipFitsAt(d, n, p)
  {
    if n, p :| Skipped(d, n) && !SkipFitsAt(d, n, p) {
      UnfitDisagrees(d, n, p);
    } else {
      forall p
        ensures AgreesAt(d, p)
      {
        WellFormedAt(d, p);
      }
    }
  }

  /** Whatever is left alone is the same in both configurations. */
  ghost predicate Noticed(d: Change) {
    forall n :: Skipped(d, n) ==> Latest(d.olds, n) == Latest(d.news, n)
  }

  ghost predicate Injective(ser: Serialiser) {
    forall a, b :: ser(a).Some? && ser(a) == ser(b) ==> a == b
  }

  /** Every difference is noticed when no site fails to serialise. */
  lemma SerialisedIsNoticed(d: Change)
    requires Injective(d.ser) && forall s :: s in d.news ==> d.ser(s).Some?
    ensures Noticed(d)
  {
  }

  /** In particular: with every difference noticed, the tables are those of a fresh start, whatever hosts move where. */
  lemma NoticedAgree(d: Change)
    requires WellFormed(d.olds) && WellFormed(d.news) && Noticed(d)
    ensures forall p :: AgreesAt(d, p)
  {
    forall n, p | Skipped(d, n)
      ensures SkipFitsAt(d, n, p)
    {
      assert Latest(d.olds, n) == Latest(d.news, n);
      assert Latest(d.news, n).value in d.news;
    }
    WellFormedAgree(d);
  }

  // ----- one flagged site at most

  ghost predicate OneFallback(sites: seq<SiteConfig>) {
    DistinctNames(sites) && forall a, b :: a in sites && b in sites && a.fallback && b.fallback ==> a == b
  }

  /** No new site claims the flag and the old holder is still configured. */
  predicate StaleFallback(d: Change) {
    && FallbackSite(d.news).None? && FallbackSite(d.olds).Some?
    && FallbackSite(d.olds).value.name in Names(d.news)
  }

  /** The fallback after a noticed change, in every order: the flagged site if there is one, else what is left. */
  lemma FallbackAfter(inner: Inner, d: Change, o: Order)
    requires OneFallback(d.olds) && OneFallback(d.news) && Noticed(d) && IsOrder(d, o)
    requires FallbackSite(d.olds).Some? ==> inner.fallback == InfoOfOption(FallbackSite(d.olds))
    ensures Diffed(inner, d, o).fallback ==
            if FallbackSite(d.news).Some? then InfoOfOption(FallbackSite(d.news)) else LeftFallback(d, inner.fallback)
  {
    DiffResult(inner, d, o, Exact(""));
    var f, v := FallbackSite(d.news), Last(d, o.added + o.kept, Flagged());
    if f.Some? {
      var name := f.value.name;
      assert Latest(d.news, name) == f && name in Names(d.news);
      if IsUpserted(d, name) {
        assert name in o.added + o.kept && Claims(d, Flagged(), name);
      } else {
        assert name in Names(d.olds) && Skipped(d, name);
        assert f.value in d.olds && FallbackSite(d.olds) == f;
      }
    }
  }

  /** With one flagged site at most and every change noticed, the fallback agrees if and only if it is not stale. */
  lemma FallbackIsStale(d: Change)
    requires OneFallback(d.olds) && OneFallback(d.news) && Noticed(d)
    ensures FallbackAgrees(d) <==> !StaleFallback(d)
  {
    var inner := FromConfig(d.olds);
    FreshFallback(d.olds);
    FreshFallback(d.news);
    FallbackAgreement(inner, d);
    forall o | IsOrder(d, o)
      ensures Diffed(inner, d, o).fallback == FromConfig(d.news).fallback <==> !StaleFallback(d)
    {
      FallbackAfter(inner, d, o);
      assert FallbackSite(d.olds).Some? ==> FallbackSite(d.olds).value.name in Names(d.olds);
    }
    var gone := SomeOrder(Gone(d));
    var added := SomeOrder(Added(d));
    var kept := SomeOrder(Kept(d));
    assert IsOrder(d, Order(gone, added, kept));
  }

  // ----- any number of reloads

  /** The fallback of the last configuration that has one, as long as its name has stayed configured since. */
  function RunningFallback(configs: seq<seq<SiteConfig>>): Option<SiteInfo> {
    if configs == [] then None
    else
      var n := |configs| - 1;
      var f, before := FallbackSite(configs[n]), RunningFallback(configs[..n]);
      if f.Some? then InfoOfOption(f)
      else if before.Some? && before.value.name in Names(configs[n]) then before
      else None
  }

  /** The i-th reload of a sequence of configurations. */
  function ReloadAt(configs: seq<seq<SiteConfig>>, ser: Serialiser, i: nat): Change
    requires i + 1 < |configs|
  {
    Change(configs[i], configs[i + 1], ser)
  }

  lemma RunningIsConfigured(configs: seq<seq<SiteConfig>>)
    requires configs != []
    ensures var f := RunningFallback(configs); f.Some? ==> f.value.name in Names(configs[|configs| - 1])
  {
    var c := configs[|configs| - 1];
    assert FallbackSite(c).Some? ==> Latest(c, FallbackSite(c).value.name).Some?;
  }

  lemma RunningStep(configs: seq<seq<SiteConfig>>, ser: Serialiser, i: nat, inner: Inner, o: Order)
    requires i + 1 < |configs|
    requires inner.fallback == RunningFallback(configs[..i + 1])
    requires OneFallback(configs[i]) && OneFallback(configs[i + 1]) && Noticed(ReloadAt(configs, ser, i))
    requires IsOrder(ReloadAt(configs, ser, i), o)
    ensures Diffed(inner, ReloadAt(configs, ser, i), o).fallback == RunningFallback(configs[..i + 2])
  {
    assert configs[..i + 2][..i + 1] == configs[..i + 1];
    FallbackAfter(inner, ReloadAt(configs, ser, i), o);
    RunningIsConfigured(configs[..i + 1]);
  }

  /** Every reload of the sequence agrees on its tables. */
  ghost predicate AllAgree(configs: seq<seq<SiteConfig>>, ser: Serialiser) {
    forall i, p :: 0 <= i && i + 1 < |configs| ==> AgreesAt(ReloadAt(configs, ser, i), p)
  }

  /** Every configuration of the sequence has one flagged site at most, and every change is noticed. */
  ghost predicate AllNoticed(configs: seq<seq<SiteConfig>>, ser: Serialiser) {
    && (forall i :: 0 <= i < |configs| ==> OneFallback(configs[i]))
    && (forall i :: 0 <= i && i + 1 < |configs| ==> Noticed(ReloadAt(configs, ser, i)))
  }

  /** A start on the first configuration and a reload for each later one. */
  method ReloadAll(registry: Registry, configs: seq<seq<SiteConfig>>, ser: Serialiser)
    requires configs != [] && registry.inner == FromConfig(configs[0])
    modifies registry
    ensures AllAgree(configs, ser) ==> SameTables(registry.inner, FromConfig(configs[|configs| - 1]))
    ensures AllNoticed(configs, ser) ==> registry.inner.fallback == RunningFallback(configs)
  {
    ServesFresh(registry.inner, configs[0]);
    FreshFallback(configs[0]);
    assert configs[..1][..0] == [];
    for i := 0 to |configs| - 1
      invariant AllAgree(configs, ser) ==> Serves(registry.inner, configs[i])
      invariant AllNoticed(configs, ser) ==> registry.inner.fallback == RunningFallback(configs[..i + 1])
    {
      ghost var before, d := registry.inner, ReloadAt(configs, ser, i);
      ghost var o := ApplyDiff(registry, configs[i], configs[i + 1], ser);
      if AllAgree(configs, ser) {
        AgreedTables(before, d, o);
      }
      if AllNoticed(configs, ser) {
        RunningStep(configs, ser, i, before, o);
      }
    }
    assert configs[..|configs|] == configs;
    ServesFresh(registry.inner, configs[|configs| - 1]);
  }

  // ----- what goes wrong, concretely

  lemma SingleSite(a: SiteConfig)
    ensures Names([a]) == {a.name} && FallbackSite([a]) == if a.fallback then Some(a) else None
    ensures forall p :: Owner([a], p) == if Lists(a, p) then Some(a) else None
  {
    assert [a][..0] == [];
    assert a in [a];
  }

  /** Dropping the flag from the one site that has it: the fallback stays, in every order and under every serialiser. */
  lemma DroppedFlagStays(ser: Serialiser, o: Order)
    requires IsOrder(Change([SiteConfig("a", ["x"], true, "")], [SiteConfig("a", ["x"], false, "")], ser), o)
    ensures var d := Change([SiteConfig("a", ["x"], true, "")], [SiteConfig("a", ["x"], false, "")], ser);
            Diffed(FromConfig(d.olds), d, o).fallback.Some? && FromConfig(d.news).fallback.None?
  {
    var a, b := SiteConfig("a", ["x"], true, ""), SiteConfig("a", ["x"], false, "");
    var d := Change([a], [b], ser);
    SingleSite(a);
    SingleSite(b);
    FreshFallback(d.olds);
    FreshFallback(d.news);
    DiffResult(FromConfig(d.olds), d, o, Exact(""));
  }

  lemma ListsOne(name: string, host: string, p: Pattern)
    requires host == "x" || host == "y"
    ensures Lists(SiteConfig(name, [host], false, ""), p) <==> p == Exact(host)
  {
    assert Lower(host) == host;
    assert PatternOf(SiteConfig(name, [host], false, "").serverNames[0]) == Exact(host);
  }

  /** A site that moves to another host, when neither version serialises: the new host is never served. */
  lemma UnserialisableStays(ser: Serialiser, o: Order)
    requires ser(SiteConfig("a", ["x"], false, "")).None? && ser(SiteConfig("a", ["y"], false, "")).None?
    requires IsOrder(Change([SiteConfig("a", ["x"], false, "")], [SiteConfig("a", ["y"], false, "")], ser), o)
    ensures var d := Change([SiteConfig("a", ["x"], false, "")], [SiteConfig("a", ["y"], false, "")], ser);
            && Entry(Diffed(FromConfig(d.olds), d, o), Exact("y")).None?
            && Entry(FromConfig(d.news), Exact("y")) == Some(InfoOf(d.news[0]))
  {
    var a, b := SiteConfig("a", ["x"], false, ""), SiteConfig("a", ["y"], false, "");
    var d := Change([a], [b], ser);
    SingleSite(a);
    SingleSite(b);
    ListsOne("a", "x", Exact("y"));
    ListsOne("a", "y", Exact("y"));
    FreshEntry(d.olds, Exact("y"));
    FreshEntry(d.news, Exact("y"));
    DiffResult(FromConfig(d.olds), d, o, Exact("y"));
    assert !IsUpserted(d, "a");
  }

  lemma TwoSites(a: SiteConfig, b: SiteConfig)
    requires a.name != b.name
    ensures Latest([a, b], a.name) == Some(a) && Latest([a, b], b.name) == Some(b)
    ensures Names([a, b]) == {a.name, b.name}
    ensures forall p :: Owner([a, b], p) == if Lists(b, p) then Some(b) else if Lists(a, p) then Some(a) else None
  {
    assert [a, b][..1] == [a] && [a][..0] == [];
    assert Latest([a], a.name) == Some(a);
    assert a in [a, b] && b in [a, b];
  }

  /** Two sites share a host and the first one changes: it takes the host, which a fresh start gives to the second. */
  lemma SharedHostTaken(d: Change)
    requires d.olds == [SiteConfig("a", ["y"], false, ""), SiteConfig("b", ["x"], false, "")]
    requires d.news == [SiteConfig("a", ["x"], false, ""), SiteConfig("b", ["x"], false, "")]
    requires SiteChanged(d.ser, d.olds[0], d.news[0])
    ensures !AgreesAt(d, Exact("x"))
  {
    TwoSites(d.olds[0], d.olds[1]);
    TwoSites(d.news[0], d.news[1]);
    ListsOne("a", "x", Exact("x"));
    ListsOne("b", "x", Exact("x"));
    assert "a" in Kept(d) && Claims(d, ListsIt(Exact("x")), "a");
  }

  /** Two sites share a host and the second drops it: nobody serves it, while a fresh start gives it to the first. */
  lemma SharedHostLost(d: Change)
    requires d.olds == [SiteConfig("a", ["x"], false, ""), SiteConfig("b", ["x"], false, "")]
    requires d.news == [SiteConfig("a", ["x"], false, ""), SiteConfig("b", ["y"], false, "")]
    requires SiteChanged(d.ser, d.olds[1], d.news[1])
    ensures !AgreesAt(d, Exact("x"))
    ensures forall o :: IsOrder(d, o) ==> Entry(Diffed(FromConfig(d.olds), d, o), Exact("x")).None?
  {
    TwoSites(d.olds[0], d.olds[1]);
    TwoSites(d.news[0], d.news[1]);
    ListsOne("a", "x", Exact("x"));
    ListsOne("b", "x", Exact("x"));
    ListsOne("b", "y", Exact("x"));
    FreshEntry(d.olds, Exact("x"));
    forall n | IsUpserted(d, n)
      ensures n == "b"
    {
      assert n in Names(d.news);
    }
    assert IsUpserted(d, "b") && LeftOver(d, InfoOfOption(Owner(d.olds, Exact("x")))) == None;
    assert forall n :: !Claims(d, ListsIt(Exact("x")), n);
    forall o | IsOrder(d, o)
      ensures Entry(Diffed(FromConfig(d.olds), d, o), Exact("x")).None?
    {
      DiffResult(FromConfig(d.olds), d, o, Exact("x"));
    }
  }
}
