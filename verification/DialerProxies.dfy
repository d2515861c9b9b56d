/** The check of dialer-proxy references: a proxy may name another proxy to dial through. */
module DialerProxies {
  import opened Common
  import opened GroupGraph

  /** Every proxy with the dialer-proxy it names; "" when it names none. */
  type Proxies = map<string, string>

  /** The collected references, without the proxies that name none. */
  type Graph = map<string, string>

  datatype DialerError = NotFound(name: string, dialer: string) | Circular(name: string)

  ghost predicate Named(proxies: Proxies) {
    forall n | n in proxies && proxies[n] != "" :: proxies[n] in proxies
  }

  ghost function GraphOf(proxies: Proxies): Graph {
    map n | n in proxies && proxies[n] != "" :: proxies[n]
  }

  /** The proxy reached after k references. */
  function Hop(g: Graph, n: string, k: nat): (r: Option<string>)
  {
    if k == 0 then Some(n)
    else
      var before := Hop(g, n, k - 1);
      if before.Some? && before.value in g then Some(g[before.value]) else None
  }

  /** The chain of dialers from `n` comes back to a proxy it has passed. */
  ghost predicate Revisits(g: Graph, n: string) {
    exists i: nat, j: nat :: i < j && Hop(g, n, i).Some? && Hop(g, n, i) == Hop(g, n, j)
  }

  ghost predicate Acceptable(proxies: Proxies) {
    Named(proxies) && forall n | n in proxies :: !Revisits(GraphOf(proxies), n)
  }

  // ---------- chains ----------

  lemma {:induction false} HopPrefix(g: Graph, n: string, i: nat, j: nat)
    requires i < j && Hop(g, n, j).Some?
    ensures Hop(g, n, i).Some? && Hop(g, n, i).value in g
    decreases j
  {
    if i < j - 1 {
      HopPrefix(g, n, i, j - 1);
    }
  }

  lemma {:induction false} HopTwice(g: Graph, n: string, i: nat, k: nat)
    requires Hop(g, n, i).Some?
    ensures Hop(g, n, i + k) == Hop(g, Hop(g, n, i).value, k)
  {
    if k > 0 {
      HopTwice(g, n, i, k - 1);
    }
  }

  /** The chain from `n` as far as `path` goes. */
  ghost predicate Follows(g: Graph, n: string, path: seq<string>) {
    forall i | 0 <= i < |path| :: Hop(g, n, i) == Some(path[i])
  }

  lemma EndsWithoutRevisit(g: Graph, n: string, path: seq<string>)
    requires Follows(g, n, path) && NoDup(path) && Hop(g, n, |path|).None?
    ensures !Revisits(g, n)
  {
    forall i: nat, j: nat | i < j
      ensures !(Hop(g, n, i).Some? && Hop(g, n, i) == Hop(g, n, j))
    {
      if Hop(g, n, j).Some? && |path| < j {
        HopPrefix(g, n, |path|, j);
      }
    }
  }

  /** Chains that never come back end: each proxy on the way is passed once. */
  lemma ChainEnds(g: Graph, n: string)
    requires !Revisits(g, n)
    ensures Hop(g, n, |g| + 1).None?
  {
    var k := |g| + 1;
    if Hop(g, n, k).Some? {
      forall i: nat | i < k
        ensures Hop(g, n, i).Some? && Hop(g, n, i).value in g.Keys
      {
        HopPrefix(g, n, i, k);
      }
      var p := seq(k, (i: nat) requires i < k && Hop(g, n, i).Some? => Hop(g, n, i).value);
      var i, j := Pigeonhole(p, g.Keys);
    }
  }

  /** Some chain comes back exactly when some proxy dials, directly or not, through itself. */
  lemma RevisitIsSelfDialing(g: Graph)
    ensures (exists n :: Revisits(g, n)) <==> (exists n, k: nat :: k > 0 && Hop(g, n, k) == Some(n))
  {
    if n :| Revisits(g, n) {
      var i: nat, j: nat :| i < j && Hop(g, n, i).Some? && Hop(g, n, i) == Hop(g, n, j);
      var m := Hop(g, n, i).value;
      HopTwice(g, n, i, j - i);
      assert Hop(g, m, j - i) == Some(m);
    }
    if n, k: nat :| k > 0 && Hop(g, n, k) == Some(n) {
      assert Hop(g, n, 0) == Hop(g, n, k);
      assert Revisits(g, n);
    }
  }

  // ---------- the check ----------

  /** The set of visited proxies, shared by all calls of one search. */
  class Visited {
    var names: set<string>

    constructor ()
      ensures names == {}
    {
      names := {};
    }
  }

  /** The search from `start`, having come along `path` to `current`.  What was visited is what is on the
      path, so the second test is never met. */
  method HasCycle(ghost start: string, current: string, g: Graph, visited: Visited, path: seq<string>)
    returns (cycle: bool)
    requires Follows(g, start, path + [current]) && NoDup(path) && forall n | n in path :: n in g
    requires visited.names == Elements(path)
    modifies visited
    ensures cycle <==> Revisits(g, start)
    decreases g.Keys - Elements(path)
  {
    assert Hop(g, start, |path|) == Some((path + [current])[|path|]);
    for i := 0 to |path|
      invariant current !in path[..i]
    {
      if path[i] == current {
        assert Hop(g, start, i) == Some((path + [current])[i]);
        return true;
      }
    }
    assert current !in path;
    if current in visited.names {
      assert false;
    }
    visited.names := visited.names + {current};
    var longer := path + [current];
    assert Elements(longer) == Elements(path) + {current};
    assert forall i | 0 <= i < |path| :: longer[i] == path[i];
    if current in g {
      assert Follows(g, start, longer + [g[current]]) by {
        forall i | 0 <= i < |longer| + 1
          ensures Hop(g, start, i) == Some((longer + [g[current]])[i])
        {
          assert i < |longer| ==> Hop(g, start, i) == Some(longer[i]);
        }
      }
      cycle := HasCycle(start, g[current], g, visited, longer);
      return;
    }
    EndsWithoutRevisit(g, start, longer);
    cycle := false;
  }

  /** Accepts exactly when every named dialer exists and no chain of dialers comes back; proxies are
      taken in any order.  A missing dialer is reported before any circle. */
  method ValidateDialerProxies(proxies: Proxies) returns (err: Option<DialerError>)
    ensures err.None? <==> Acceptable(proxies)
    ensures match err
      case None => true
      case Some(NotFound(n, d)) => n in proxies && proxies[n] == d && d != "" && d !in proxies
      case Some(Circular(n)) => Named(proxies) && n in proxies && Revisits(GraphOf(proxies), n)
  {
    var g: Graph := map[];
    var names := proxies.Keys;
    while names != {}
      invariant names <= proxies.Keys
      invariant g == map n | n in proxies.Keys - names && proxies[n] != "" :: proxies[n]
      invariant forall n | n in g :: g[n] in proxies
    {
      var name :| name in names;
      var dialer := proxies[name];
      if dialer != "" {
        if dialer !in proxies {
          return Some(NotFound(name, dialer));
        }
        g := g[name := dialer];
      }
      names := names - {name};
    }
    assert g == GraphOf(proxies);
    assert Named(proxies) by {
      forall n | n in proxies && proxies[n] != ""
        ensures proxies[n] in proxies
      {
        assert n in g;
      }
    }
    names := g.Keys;
    while names != {}
      invariant names <= g.Keys
      invariant forall n | n in g.Keys - names :: !Revisits(g, n)
    {
      var name :| name in names;
      var visited := new Visited();
      var cycle := HasCycle(name, name, g, visited, []);
      if cycle {
        return Some(Circular(name));
      }
      names := names - {name};
    }
    forall n | n in proxies
      ensures !Revisits(g, n)
    {
      if n !in g {
        assert Follows(g, n, [n]);
        EndsWithoutRevisit(g, n, [n]);
      }
    }
    err := None;
  }

  /** In an accepted table the chain of references from a proxy ends, at one that names no dialer. */
  lemma AcceptedChainEnds(proxies: Proxies, n: string) returns (k: nat, last: string)
    requires Acceptable(proxies) && n in proxies
    ensures k <= |GraphOf(proxies)| && Hop(GraphOf(proxies), n, k) == Some(last)
    ensures last in proxies && proxies[last] == ""
  {
    var g := GraphOf(proxies);
    ChainEnds(g, n);
    k, last := 0, n;
    while last in g
      invariant k <= |g| && Hop(g, n, k) == Some(last) && last in proxies
      decreases |g| - k
    {
      assert Hop(g, n, k + 1) == Some(g[last]);
      k, last := k + 1, g[last];
    }
  }
}
