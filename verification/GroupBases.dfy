/** The objects behind GroupCache, for one caller: providers whose proxies are replaced and counted,
    and a group that stores the last computed list with the versions it was computed from. */
module GroupBases {
  import opened ProxyOrder
  import opened GroupProxies
  import opened GroupCache

  class Provider {
    var proxies: seq<Proxy>
    var version: nat

    method SetProxies(ps: seq<Proxy>)
      modifies this
      ensures proxies == ps && version == old(version) + 1
    {
      proxies := ps;
      version := version + 1;
    }
  }

  class GroupBase {
    const c: Config
    const providers: seq<Provider>
    var providerVersions: seq<nat>
    var providerProxies: seq<Proxy>
    ghost var computations: nat

    ghost function Content(): (s: seq<seq<Proxy>>)
      reads providers
      ensures |s| == |providers| && forall i | 0 <= i < |providers| :: s[i] == providers[i].proxies
    {
      seq(|providers|, i requires 0 <= i < |providers| reads providers => providers[i].proxies)
    }

    ghost function Version(): (s: seq<nat>)
      reads providers
      ensures |s| == |providers| && forall i | 0 <= i < |providers| :: s[i] == providers[i].version
    {
      seq(|providers|, i requires 0 <= i < |providers| reads providers => providers[i].version)
    }

    ghost predicate Valid()
      reads this, providers
    {
      && |providers| == |c.compatible| > 0
      && (providerVersions != [] ==>
            && |providerVersions| == |providers| && NotNewer(providerVersions, Version()) && providerProxies != []
            && (providerVersions == Version() ==> providerProxies == Fresh(c, Content())))
    }

    constructor (c: Config, providers: seq<Provider>)
      requires |providers| == |c.compatible| > 0
      ensures Valid() && this.c == c && this.providers == providers && computations == 0
    {
      this.c, this.providers, computations := c, providers, 0;
      providerVersions, providerProxies := [], [];
    }

    method ReadVersions() returns (versions: seq<nat>)
      ensures versions == Version()
    {
      versions := [];
      for i := 0 to |providers|
        invariant |versions| == i && forall j | 0 <= j < i :: versions[j] == providers[j].version
      {
        versions := versions + [providers[i].version];
      }
    }

    /** The fresh list or, if that is empty, the fallback.  The list is computed again exactly when the versions
        differ from those of the last list that was stored, and is stored unless it is empty. */
    method GetProxies() returns (proxies: seq<Proxy>)
      requires Valid()
      modifies this
      ensures Valid() && proxies == (if Fresh(c, Content()) == [] then [c.fallback] else Fresh(c, Content()))
      ensures computations == old(computations) + (if old(providerVersions) == Version() then 0 else 1)
      ensures providerVersions == if Fresh(c, Content()) == [] then old(providerVersions) else Version()
    {
      hide Reordered, Keep;
      var versions := ReadVersions();
      if versions == providerVersions {
        return providerProxies;
      }
      var content := seq(|providers|, i requires 0 <= i < |providers| reads providers => providers[i].proxies);
      var read := (i: nat, f: nat) => if i < |content| then content[i] else [];
      proxies := Compute(c, read);
      computations := computations + 1;
      assert FirstReads(c, read) == Content();
      if |proxies| == 0 {
        return [c.fallback];
      }
      providerVersions := versions;
      providerProxies := proxies;
    }

    /** An update of a provider leaves the group valid: its cache is stale from then on, or was. */
    method UpdateProvider(i: nat, ps: seq<Proxy>)
      requires Valid() && i < |providers|
      modifies providers[i]
      ensures Valid() && providers[i].proxies == ps
    {
      ghost var before := Version();
      providers[i].SetProxies(ps);
      assert Version()[i] == before[i] + 1;
      assert forall j | 0 <= j < |before| :: before[j] <= Version()[j];
    }
  }
}
