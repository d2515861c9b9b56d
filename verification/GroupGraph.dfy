/** The reference graph of the proxy groups, and facts about it that no algorithm is part of. */
module GroupGraph {
  import opened Common

  /** The decoded part of a group that matters here.  `fallback` is never empty after decoding. */
  datatype Group = Group(name: string, proxies: seq<string>, fallback: string)

  ghost predicate DistinctNames(gs: seq<Group>) {
    forall i, j | 0 <= i < j < |gs| :: gs[i].name != gs[j].name
  }

  ghost function NamesOf(gs: seq<Group>): set<string> { set g | g in gs :: g.name }

  ghost predicate Edge(gs: seq<Group>, a: string, b: string) {
    exists g | g in gs :: g.name == a && b in g.proxies
  }

  // ---------- cycles ----------

  ghost predicate EdgeAt(gs: seq<Group>, p: seq<string>, i: int)
    requires 0 <= i < |p| - 1
  {
    Edge(gs, p[i], p[i + 1])
  }

  ghost predicate Walk(gs: seq<Group>, p: seq<string>) {
    |p| >= 2 && forall i | 0 <= i < |p| - 1 :: EdgeAt(gs, p, i)
  }

  ghost predicate Cycle(gs: seq<Group>, p: seq<string>) {
    Walk(gs, p) && p[0] == p[|p| - 1]
  }

  ghost predicate Cyclic(gs: seq<Group>) {
    exists p :: Cycle(gs, p)
  }

  ghost predicate HasPred(gs: seq<Group>, c: set<string>, n: string) {
    exists m | m in c :: Edge(gs, m, n)
  }

  ghost predicate HasSucc(gs: seq<Group>, c: set<string>, n: string) {
    exists m | m in c :: Edge(gs, n, m)
  }

  ghost predicate PredClosed(gs: seq<Group>, c: set<string>) {
    forall n | n in c :: HasPred(gs, c, n)
  }

  ghost predicate SuccClosed(gs: seq<Group>, c: set<string>) {
    forall n | n in c :: HasSucc(gs, c, n)
  }

  ghost function Elements(p: seq<string>): set<string> { set n | n in p }

  lemma CycleIsClosed(gs: seq<Group>, p: seq<string>)
    requires Cycle(gs, p)
    ensures PredClosed(gs, Elements(p)) && SuccClosed(gs, Elements(p)) && Elements(p) != {}
  {
    hide HasPred, HasSucc, Cycle;
    CycleIsNotEmpty(gs, p);
    forall n | n in Elements(p)
      ensures HasPred(gs, Elements(p), n) && HasSucc(gs, Elements(p), n)
    {
      var i :| 0 <= i < |p| && p[i] == n;
      OnCycle(gs, p, i);
    }
  }

  lemma CycleIsNotEmpty(gs: seq<Group>, p: seq<string>)
    requires Cycle(gs, p)
    ensures Elements(p) != {}
  {
    assert p[0] in Elements(p);
  }

  lemma OnCycle(gs: seq<Group>, p: seq<string>, i: nat)
    requires Cycle(gs, p) && i < |p|
    ensures HasPred(gs, Elements(p), p[i]) && HasSucc(gs, Elements(p), p[i])
  {
    var before := if i == 0 then |p| - 2 else i - 1;
    var after := if i == |p| - 1 then 0 else i;
    assert EdgeAt(gs, p, before) && EdgeAt(gs, p, after);
    assert p[before] in Elements(p) && p[after + 1] in Elements(p);
  }

  lemma {:induction false} BackwardWalk(gs: seq<Group>, c: set<string>, k: nat) returns (p: seq<string>)
    requires c != {} && PredClosed(gs, c)
    ensures |p| == k + 1 && (forall n | n in p :: n in c)
    ensures forall i | 0 <= i < k :: EdgeAt(gs, p, i)
  {
    hide Edge;
    if k == 0 {
      var n :| n in c;
      p := [n];
    } else {
      var q := BackwardWalk(gs, c, k - 1);
      assert HasPred(gs, c, q[0]);
      var m :| m in c && Edge(gs, m, q[0]);
      p := [m] + q;
      forall i | 0 <= i < k
        ensures EdgeAt(gs, p, i)
      {
        assert i > 0 ==> EdgeAt(gs, q, i - 1);
      }
    }
  }

  lemma {:induction false} Pigeonhole<A>(p: seq<A>, c: set<A>) returns (i: nat, j: nat)
    requires |p| > |c| && forall n | n in p :: n in c
    ensures i < j < |p| && p[i] == p[j]
    decreases |p|
  {
    var last := p[|p| - 1];
    var rest := p[..|p| - 1];
    if last in rest {
      i :| 0 <= i < |rest| && rest[i] == last;
      j := |p| - 1;
    } else {
      i, j := Pigeonhole(rest, c - {last});
    }
  }

  /** A nonempty finite set in which every node has a predecessor holds a cycle. */
  lemma PredClosedHasCycle(gs: seq<Group>, c: set<string>) returns (p: seq<string>)
    requires c != {} && PredClosed(gs, c)
    ensures Cycle(gs, p) && Elements(p) <= c
  {
    var q := BackwardWalk(gs, c, |c|);
    var i, j := Pigeonhole(q, c);
    p := q[i..j + 1];
    forall k | 0 <= k < |p| - 1
      ensures EdgeAt(gs, p, k)
    {
      assert EdgeAt(gs, q, i + k);
    }
  }

  // ---------- degrees ----------

  function Times(s: seq<string>, n: string): nat { multiset(s)[n] }

  /** How often the groups whose names are in `alive` name `n`. */
  function InDeg(gs: seq<Group>, alive: set<string>, n: string): nat {
    if gs == [] then 0
    else
      var g := gs[|gs| - 1];
      InDeg(gs[..|gs| - 1], alive, n) + (if g.name in alive then Times(g.proxies, n) else 0)
  }

  /** How many entries of `s` are in `alive`. */
  function OutDeg(s: seq<string>, alive: set<string>): nat {
    if s == [] then 0
    else OutDeg(s[..|s| - 1], alive) + (if s[|s| - 1] in alive then 1 else 0)
  }

  lemma {:induction false} InDegPositive(gs: seq<Group>, alive: set<string>, n: string)
    ensures InDeg(gs, alive, n) > 0 <==> HasPred(gs, alive, n)
  {
    if gs != [] {
      var g := gs[|gs| - 1];
      var rest := gs[..|gs| - 1];
      InDegPositive(rest, alive, n);
      assert gs == rest + [g];
      if HasPred(gs, alive, n) {
        var m :| m in alive && Edge(gs, m, n);
        var h :| h in gs && h.name == m && n in h.proxies;
        if h in rest {
          assert Edge(rest, m, n);
        }
      }
      if HasPred(rest, alive, n) {
        var m :| m in alive && Edge(rest, m, n);
        assert Edge(gs, m, n);
      }
      if g.name in alive && n in g.proxies {
        assert Edge(gs, g.name, n);
      }
    }
  }

  lemma {:induction false} InDegOfAll(gs: seq<Group>, a: set<string>, b: set<string>, n: string)
    requires forall g | g in gs :: g.name in a && g.name in b
    ensures InDeg(gs, a, n) == InDeg(gs, b, n)
  {
    if gs != [] {
      assert gs[|gs| - 1] in gs;
      InDegOfAll(gs[..|gs| - 1], a, b, n);
    }
  }

  lemma {:induction false} InDegWithoutStranger(gs: seq<Group>, alive: set<string>, x: string, n: string)
    requires forall g | g in gs :: g.name != x
    ensures InDeg(gs, alive - {x}, n) == InDeg(gs, alive, n)
  {
    if gs != [] {
      assert gs[|gs| - 1] in gs;
      InDegWithoutStranger(gs[..|gs| - 1], alive, x, n);
    }
  }

  lemma {:induction false} InDegWithoutGroup(gs: seq<Group>, alive: set<string>, g: Group, n: string)
    requires DistinctNames(gs) && g in gs && g.name in alive
    ensures InDeg(gs, alive, n) == InDeg(gs, alive - {g.name}, n) + Times(g.proxies, n)
  {
    var last := gs[|gs| - 1];
    var rest := gs[..|gs| - 1];
    if last == g {
      InDegWithoutStranger(rest, alive, g.name, n);
    } else {
      assert g in rest;
      InDegWithoutGroup(rest, alive, g, n);
      assert last.name != g.name;
    }
  }

  lemma {:induction false} OutDegWithout(s: seq<string>, alive: set<string>, x: string)
    requires x in alive
    ensures OutDeg(s, alive) == OutDeg(s, alive - {x}) + Times(s, x)
  {
    if s != [] {
      OutDegWithout(s[..|s| - 1], alive, x);
      assert s == s[..|s| - 1] + [s[|s| - 1]];
    }
  }

  lemma {:induction false} OutDegPositive(s: seq<string>, alive: set<string>)
    ensures OutDeg(s, alive) > 0 <==> exists m | m in s :: m in alive
  {
    if s != [] {
      OutDegPositive(s[..|s| - 1], alive);
      assert s == s[..|s| - 1] + [s[|s| - 1]];
      assert s[|s| - 1] in s;
    }
  }

  lemma {:induction false} OutDegAll(s: seq<string>, alive: set<string>)
    requires forall m | m in s :: m in alive
    ensures OutDeg(s, alive) == |s|
  {
    if s != [] {
      OutDegAll(s[..|s| - 1], alive);
    }
  }

  lemma EdgeOfGroup(gs: seq<Group>, g: Group, b: string)
    requires DistinctNames(gs) && g in gs
    ensures Edge(gs, g.name, b) <==> b in g.proxies
  {
  }

  // ---------- what removing nodes keeps ----------

  ghost predicate IsName(gs: seq<Group>, n: string) { exists g | g in gs :: g.name == n }

  ghost predicate Lasting(gs: seq<Group>, alive: set<string>) {
    forall c | PredClosed(gs, c) :: c <= alive
  }

  /** A deleted node names no node that is left. */
  ghost predicate NoneNamed(gs: seq<Group>, start: set<string>, alive: set<string>) {
    forall n, r | n in start && n !in alive && Edge(gs, n, r) :: r !in alive
  }

  ghost predicate LastingSucc(gs: seq<Group>, start: set<string>, alive: set<string>) {
    forall c | SuccClosed(gs, c) && c <= start :: c <= alive
  }

  /** What a loop report means.  The names are groups; each has a reported predecessor and a reported
      successor; and they are all such groups: every node of every cycle is among them. */
  ghost predicate LoopReport(gs: seq<Group>, names: seq<string>) {
    var c := Elements(names);
    && names != [] && NoDup(names)
    && (forall n | n in c :: IsName(gs, n)) && PredClosed(gs, c) && SuccClosed(gs, c)
    && (forall d | PredClosed(gs, d) && SuccClosed(gs, d) :: d <= c)
    && (forall p | Cycle(gs, p) :: Elements(p) <= c)
  }

  lemma NothingLastsIfAcyclic(gs: seq<Group>)
    requires Lasting(gs, {})
    ensures !Cyclic(gs)
  {
    forall p
      ensures !Cycle(gs, p)
    {
      if Cycle(gs, p) {
        CycleIsClosed(gs, p);
      }
    }
  }

  lemma EdgeEndsAreGroups(gs: seq<Group>, start: set<string>, alive: set<string>, n: string)
    requires NoneNamed(gs, start, alive) && n in alive
    requires HasPred(gs, start, n) && HasSucc(gs, alive, n)
    ensures HasPred(gs, alive, n) && IsName(gs, n)
  {
    var m :| m in start && Edge(gs, m, n);
    assert m in alive;
    var r :| r in alive && Edge(gs, n, r);
    var g :| g in gs && g.name == n && r in g.proxies;
  }

  /** Remove nodes without predecessors first, then nodes without successors: what is left are the
      groups of the loops. */
  lemma ReportFromSets(gs: seq<Group>, start: set<string>, alive: set<string>, names: seq<string>)
    requires start != {} && PredClosed(gs, start) && Lasting(gs, start)
    requires alive <= start && SuccClosed(gs, alive)
    requires NoneNamed(gs, start, alive) && LastingSucc(gs, start, alive)
    requires NoDup(names) && Elements(names) == alive
    ensures LoopReport(gs, names) && Cyclic(gs)
  {
    hide NoneNamed, NoDup, Edge, HasPred, HasSucc, Cycle, IsName;
    var p := PredClosedHasCycle(gs, start);
    CycleLasts(gs, start, alive, p);
    forall n | n in alive
      ensures HasPred(gs, alive, n) && IsName(gs, n)
    {
      assert n in start;
      EdgeEndsAreGroups(gs, start, alive, n);
    }
    forall q | Cycle(gs, q)
      ensures Elements(q) <= alive
    {
      CycleLasts(gs, start, alive, q);
    }
  }

  lemma CycleLasts(gs: seq<Group>, start: set<string>, alive: set<string>, p: seq<string>)
    requires Lasting(gs, start) && LastingSucc(gs, start, alive) && Cycle(gs, p)
    ensures Elements(p) <= alive && Elements(p) != {}
  {
    CycleIsClosed(gs, p);
  }
}
