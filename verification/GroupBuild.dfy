/** The pass that builds the proxy groups, one after the other, from the sorted configuration. */
module GroupBuild {
  import opened Common
  import opened GroupGraph
  import opened DagSort
  import QueueOrder

  datatype BuildError =
    | FallbackMissing(group: nat, name: string)
    | ProxyMissing(group: nat, name: string)
    | DuplicateGroup(group: nat)
    | Other(group: nat)

  /** When parsing a group fails for a reason that is not in the table of proxies: before its fallback is
      looked up (no type), before its proxies are (no proxies, a bad status range, an unknown provider),
      or after (a provider of the same name, an unknown type). */
  datatype Stage = Never | Early | Middle | Late

  type Flaws = string -> Stage

  /** getProxies: every name must be known already; the first that is not is reported. */
  method GetProxies(known: set<string>, list: seq<string>) returns (missing: Option<string>)
    ensures missing.None? <==> forall n | n in list :: n in known
    ensures missing.Some? ==> exists k | 0 <= k < |list| ::
      list[k] == missing.value && list[k] !in known && forall j | 0 <= j < k :: list[j] in known
  {
    for k := 0 to |list|
      invariant forall j | 0 <= j < k :: list[j] in known
    {
      if list[k] !in known {
        return Some(list[k]);
      }
    }
    return None;
  }

  /** What group i finds when it is built: the proxies, and the groups before it. */
  ghost function Known(base: set<string>, gs: seq<Group>, i: nat): set<string>
    requires i <= |gs|
  {
    base + NamesOf(gs[..i])
  }

  ghost predicate Builds(base: set<string>, gs: seq<Group>, i: nat)
    requires i < |gs|
  {
    && gs[i].fallback in Known(base, gs, i)
    && (forall r | r in gs[i].proxies :: r in Known(base, gs, i))
    && gs[i].name !in Known(base, gs, i)
  }

  /** How group i fails: its first failure in the order of the checks. */
  ghost predicate FailsWith(base: set<string>, gs: seq<Group>, flaws: Flaws, i: nat, e: BuildError)
    requires i < |gs|
  {
    var g, known := gs[i], Known(base, gs, i);
    var flaw := flaws(g.name);
    var fallbackFound := g.fallback in known;
    var proxiesFound := forall r | r in g.proxies :: r in known;
    match e
    case FallbackMissing(k, n) => k == i && n == g.fallback && !fallbackFound && flaw != Early
    case ProxyMissing(k, n) =>
      && k == i && n in g.proxies && n !in known && fallbackFound && flaw != Early && flaw != Middle
    case DuplicateGroup(k) => k == i && g.name in known && fallbackFound && proxiesFound && flaw == Never
    case Other(k) =>
      && k == i && flaw != Never
      && (flaw != Early ==> fallbackFound) && (flaw == Late ==> proxiesFound)
  }

  lemma KnownNext(base: set<string>, gs: seq<Group>, i: nat)
    requires i < |gs|
    ensures Known(base, gs, i + 1) == Known(base, gs, i) + {gs[i].name}
  {
    assert gs[..i + 1] == gs[..i] + [gs[i]];
  }

  /** The building pass: all groups are built, or the first that fails is reported. */
  method BuildGroups(gs: seq<Group>, base: set<string>, flaws: Flaws)
    returns (known: set<string>, err: Option<BuildError>)
    ensures err.None? <==> forall i | 0 <= i < |gs| :: Builds(base, gs, i) && flaws(gs[i].name) == Never
    ensures err.None? ==> known == base + NamesOf(gs)
    ensures err.Some? ==> exists i | 0 <= i < |gs| ::
      && FailsWith(base, gs, flaws, i, err.value)
      && forall j | 0 <= j < i :: Builds(base, gs, j) && flaws(gs[j].name) == Never
  {
    known, err := base, None;
    for i := 0 to |gs|
      invariant err == None && known == Known(base, gs, i)
      invariant forall j | 0 <= j < i :: Builds(base, gs, j) && flaws(gs[j].name) == Never
    {
      err := BuildGroup(gs, base, flaws, known, i);
      if err.Some? {
        return;
      }
      KnownNext(base, gs, i);
      known := known + {gs[i].name};
    }
    assert gs[..|gs|] == gs;
  }

  /** One round of the pass. */
  method BuildGroup(gs: seq<Group>, ghost base: set<string>, flaws: Flaws, known: set<string>, i: nat)
    returns (err: Option<BuildError>)
    requires i < |gs| && known == Known(base, gs, i)
    ensures err.None? <==> Builds(base, gs, i) && flaws(gs[i].name) == Never
    ensures err.Some? ==> FailsWith(base, gs, flaws, i, err.value)
  {
    var g := gs[i];
    if flaws(g.name) == Early {
      return Some(Other(i));
    }
    if g.fallback !in known {
      return Some(FallbackMissing(i, g.fallback));
    }
    if flaws(g.name) == Middle {
      return Some(Other(i));
    }
    var missing := GetProxies(known, g.proxies);
    if missing.Some? {
      return Some(ProxyMissing(i, missing.value));
    }
    if flaws(g.name) == Late {
      return Some(Other(i));
    }
    if g.name in known {
      return Some(DuplicateGroup(i));
    }
    return None;
  }

  /** In a sorted configuration a group that is referred to is known when it is looked up. */
  lemma ReferredGroupIsKnown(base: set<string>, gs: seq<Group>, i: nat, r: string)
    requires i < |gs| && RefsFirst(gs) && r in gs[i].proxies && IsName(gs, r)
    ensures r in Known(base, gs, i)
  {
    var k :| 0 <= k < |gs| && gs[k].name == r;
    assert gs[..i][k] == gs[k];
    assert gs[k] in gs[..i];
  }

  /** So a reference fails exactly when it names neither a proxy nor a group. */
  lemma OnlyStrangersAreMissing(base: set<string>, gs: seq<Group>, i: nat, r: string)
    requires i < |gs| && RefsFirst(gs) && r in gs[i].proxies
    ensures r !in Known(base, gs, i) <==> r !in base && !IsName(gs, r)
  {
    if IsName(gs, r) {
      ReferredGroupIsKnown(base, gs, i, r);
    }
    if r in NamesOf(gs[..i]) {
      var g :| g in gs[..i] && g.name == r;
      assert g in gs;
    }
  }

  lemma NotAmongEarlier(gs: seq<Group>, i: nat)
    requires i < |gs| && DistinctNames(gs)
    ensures gs[i].name !in NamesOf(gs[..i])
  {
    assert forall g | g in gs[..i] :: g.name != gs[i].name;
  }

  lemma NoReferencesNoCycle(gs: seq<Group>)
    requires forall g | g in gs :: g.proxies == []
    ensures !Cyclic(gs)
  {
    forall p
      ensures !Cycle(gs, p)
    {
      if Cycle(gs, p) {
        CycleIsClosed(gs, p);
      }
    }
  }

  /** The sort does not look at `empty-fallback`: for these two groups, which take their proxies from
      providers and name none, either order is an answer, and
      only one of them builds. */
  lemma FallbackDependsOnOrder(base: set<string>)
    requires "A" !in base && "B" !in base && "COMPATIBLE" in base
    ensures var a, b := Mapping(0, Some(Group("A", [], "B"))), Mapping(1, Some(Group("B", [], "COMPATIBLE")));
      && Answer([a, b], [a, b], None) && Answer([a, b], [b, a], None)
      && Decoded([a, b]) && Decoded([b, a])
      && !Builds(base, Groups([a, b]), 0)
      && Builds(base, Groups([b, a]), 0) && Builds(base, Groups([b, a]), 1)
  {
    var ga, gb := Group("A", [], "B"), Group("B", [], "COMPATIBLE");
    var a, b := Mapping(0, Some(ga)), Mapping(1, Some(gb));
    assert ga.name[0] == 'A' && gb.name[0] == 'B';
    TwoFreeGroups(a, b, ga, gb);
    assert Groups([a, b]) == [ga, gb] && Groups([b, a]) == [gb, ga];
    assert [gb, ga][..0] == [] && [ga, gb][..0] == [] && [gb, ga][..1] == [gb];
  }

  /** Two groups without references can come in either order. */
  lemma TwoFreeGroups(a: Mapping, b: Mapping, ga: Group, gb: Group)
    requires a.option == Some(ga) && b.option == Some(gb) && ga.name != gb.name && ga.proxies == gb.proxies == []
    ensures Answer([a, b], [a, b], None) && Answer([a, b], [b, a], None)
  {
    hide QueueOrder.Queueing, QueueOrder.IsStart, Cyclic, QueueOrder.Output;
    var ms, gs := [a, b], [ga, gb];
    assert Groups(ms) == gs;
    assert Groups([b, a]) == [gb, ga];
    NoReferencesNoCycle(gs);
    assert multiset([b, a]) == multiset(ms);
    FreeQueue(gs, [gb.name, ga.name]);
    FreeQueue(gs, [ga.name, gb.name]);
    TwoWritten(gs, ga.name, gb.name);
    TwoWritten(gs, gb.name, ga.name);
    assert Mirrors(ms, [a, b], [gb.name, ga.name]) && Mirrors(ms, [b, a], [ga.name, gb.name]);
  }

  lemma TwoWritten(gs: seq<Group>, m: string, n: string)
    requires IsName(gs, m) && IsName(gs, n)
    ensures QueueOrder.Output(gs, [m, n]) == [n, m]
  {
    QueueOrder.OutputNext(gs, [], m);
    QueueOrder.OutputNext(gs, [m], n);
    assert [m] + [n] == [m, n];
    assert [] + [m] == [m];
  }

  /** Without references the queue frees nothing. */
  lemma FreeQueue(gs: seq<Group>, done: seq<string>)
    requires forall g | g in gs :: g.proxies == []
    requires NoDup(done) && forall n :: n in done <==> IsName(gs, n)
    ensures QueueOrder.Queue(gs, done, done)
  {
    forall k | 0 <= k <= |done|
      ensures QueueOrder.Batches(gs, done, k) == []
    {
      FreeBatches(gs, done, k);
    }
    assert done + [] == done;
  }

  lemma {:induction false} FreeBatches(gs: seq<Group>, done: seq<string>, k: nat)
    requires k <= |done| && forall g | g in gs :: g.proxies == []
    ensures QueueOrder.Batches(gs, done, k) == []
  {
    if k > 0 {
      FreeBatches(gs, done, k - 1);
      FreeList(gs, done[k - 1]);
      NothingFreed(gs, done[..k]);
    }
  }

  lemma {:induction false} FreeList(gs: seq<Group>, n: string)
    requires forall g | g in gs :: g.proxies == []
    ensures QueueOrder.ListOf(gs, n) == []
  {
    if gs != [] {
      FreeList(gs[..|gs| - 1], n);
    }
  }
}
