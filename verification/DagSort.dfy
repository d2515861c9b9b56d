/** proxyGroupsDagSort: sort the group configurations in place, or report the groups of the loops.
    Ranging over a map is a loop that takes the keys in any order. */
module DagSort {
  import opened Common
  import opened GroupGraph
  import QueueOrder

  /** One entry of the configuration: its raw content and what decoding it gives. */
  datatype Mapping = Mapping(raw: int, option: Option<Group>)

  datatype Node = Node(
    indegree: int, data: Option<Mapping>, outdegree: int, option: Option<Group>, from: seq<string>)

  datatype Error = Undecodable(index: nat) | DuplicateName(name: string) | Loop(names: seq<string>)

  type Graph = map<string, Node>

  // ---------- vocabulary ----------

  ghost predicate Decoded(ms: seq<Mapping>) {
    forall m | m in ms :: m.option.Some?
  }

  ghost function Groups(ms: seq<Mapping>): (gs: seq<Group>)
    requires Decoded(ms)
    ensures |gs| == |ms| && forall i | 0 <= i < |ms| :: ms[i].option == Some(gs[i])
  {
    seq(|ms|, i requires 0 <= i < |ms| => assert ms[i] in ms; ms[i].option.value)
  }

  ghost predicate Sane(ms: seq<Mapping>) {
    Decoded(ms) && DistinctNames(Groups(ms))
  }

  /** Entry i does not decode, or repeats the name of an earlier entry. */
  ghost predicate BadAt(ms: seq<Mapping>, i: nat)
    requires i < |ms|
  {
    ms[i].option.None?
    || exists j | 0 <= j < i :: ms[j].option.Some? && ms[j].option.value.name == ms[i].option.value.name
  }

  ghost function ErrorAt(ms: seq<Mapping>, i: nat): Error
    requires i < |ms|
  {
    if ms[i].option.None? then Undecodable(i) else DuplicateName(ms[i].option.value.name)
  }

  ghost predicate IsRef(gs: seq<Group>, n: string) { exists g | g in gs :: n in g.proxies }

  /** What step 1.1 leaves: one node per name or reference, with the labels of its group. */
  ghost predicate Labeled(ms: seq<Mapping>, graph: Graph) {
    && (forall m | m in ms :: m.option.Some? && m.option.value.name in graph
                              && graph[m.option.value.name].data == Some(m))
    && (forall n | n in graph :: LabelOf(ms, n, graph[n]))
  }

  ghost predicate LabelOf(ms: seq<Mapping>, n: string, node: Node) {
    match node.data
    case None => node.option.None?
    case Some(m) => m in ms && node.option == m.option && m.option.Some? && m.option.value.name == n
  }

  ghost predicate Fresh(graph: Graph) {
    forall n | n in graph :: graph[n].outdegree == 0 && graph[n].from == []
  }

  /** Indegrees count the references by the groups in `alive`, plus those still listed in `rest`. */
  ghost predicate Counted(gs: seq<Group>, graph: Graph, alive: set<string>, rest: seq<string>) {
    forall n | n in graph :: graph[n].indegree == InDeg(gs, alive, n) + Times(rest, n)
  }

  // ---------- step 1.1: build the graph ----------

  method AddGroup(graph0: Graph, m: Mapping) returns (graph: Graph, dup: bool)
    requires m.option.Some?
    ensures dup <==> m.option.value.name in graph0 && graph0[m.option.value.name].data.Some?
    ensures dup ==> graph == graph0
    ensures var n := m.option.value.name; !dup ==> graph == graph0[n :=
      if n in graph0 then graph0[n].(data := Some(m), option := m.option)
      else Node(0, Some(m), 0, m.option, [])]
  {
    graph := graph0;
    dup := false;
    var n := m.option.value.name;
    if n in graph {
      if graph[n].data.Some? {
        dup := true;
        return;
      }
      graph := graph[n := graph[n].(data := Some(m), option := m.option)];
    } else {
      graph := graph[n := Node(0, Some(m), 0, m.option, [])];
    }
  }

  /** The loop over `option.Proxies`. */
  method AddRefs(graph0: Graph, ps: seq<string>) returns (graph: Graph)
    ensures forall n :: n in graph <==> n in graph0 || n in ps
    ensures forall n | n in graph0 :: graph[n] == graph0[n].(indegree := graph0[n].indegree + Times(ps, n))
    ensures forall n | n in ps && n !in graph0 :: graph[n] == Node(Times(ps, n), None, 0, None, [])
  {
    hide Times;
    NoTimes(ps[..0]);
    graph := graph0;
    for k := 0 to |ps|
      invariant forall n :: n in graph <==> n in graph0 || n in ps[..k]
      invariant forall n | n in graph0 :: graph[n] == graph0[n].(indegree := graph0[n].indegree + Times(ps[..k], n))
      invariant forall n | n in ps[..k] && n !in graph0 :: graph[n] == Node(Times(ps[..k], n), None, 0, None, [])
    {
      assert ps[..k + 1] == ps[..k] + [ps[k]];
      TimesSplit(ps, k);
      NotInTimes(ps[..k], ps[k]);
      if ps[k] in graph {
        var node := graph[ps[k]];
        graph := graph[ps[k] := node.(indegree := node.indegree + 1)];
      } else {
        graph := graph[ps[k] := Node(1, None, 0, None, [])];
      }
    }
    assert ps[..|ps|] == ps;
  }

  /** The graph of a list of entries: what every algorithm below starts from. */
  ghost predicate GraphOf(ms: seq<Mapping>, graph: Graph) {
    && Sane(ms) && Labeled(ms, graph) && Fresh(graph)
    && (forall n :: n in graph <==> IsName(Groups(ms), n) || IsRef(Groups(ms), n))
    && Counted(Groups(ms), graph, graph.Keys, [])
  }

  lemma GroupsSnoc(ms: seq<Mapping>, m: Mapping)
    requires Decoded(ms) && m.option.Some?
    ensures Decoded(ms + [m]) && Groups(ms + [m]) == Groups(ms) + [m.option.value]
  {
  }

  lemma LabeledSnoc(ms: seq<Mapping>, graph: Graph, m: Mapping, graph': Graph)
    requires Labeled(ms, graph) && m.option.Some?
    requires m.option.value.name in graph ==> graph[m.option.value.name].data.None?
    requires m.option.value.name in graph'
    requires forall n | n in graph && n != m.option.value.name ::
      n in graph' && graph'[n].data == graph[n].data && graph'[n].option == graph[n].option
    requires forall n | n in graph' && n !in graph && n != m.option.value.name ::
      graph'[n].data.None? && graph'[n].option.None?
    requires graph'[m.option.value.name].data == Some(m) && graph'[m.option.value.name].option == m.option
    ensures Labeled(ms + [m], graph')
  {
    forall n | n in graph'
      ensures LabelOf(ms + [m], n, graph'[n])
    {
      assert n in graph ==> LabelOf(ms, n, graph[n]);
    }
  }

  lemma SaneSnoc(ms: seq<Mapping>, graph: Graph, m: Mapping)
    requires Sane(ms) && Labeled(ms, graph) && m.option.Some?
    requires m.option.value.name in graph ==> graph[m.option.value.name].data.None?
    ensures Sane(ms + [m])
  {
    GroupsSnoc(ms, m);
    forall i | 0 <= i < |ms|
      ensures Groups(ms)[i].name != m.option.value.name
    {
      assert ms[i] in ms;
    }
  }

  lemma PredIsRef(gs: seq<Group>, c: set<string>, n: string)
    ensures HasPred(gs, c, n) ==> IsRef(gs, n)
  {
  }

  lemma CountedSnoc(ms: seq<Mapping>, graph: Graph, m: Mapping, graph': Graph)
    requires GraphOf(ms, graph) && m.option.Some? && graph.Keys <= graph'.Keys && m.option.value.name in graph'
    requires forall n | n in graph' ::
      graph'[n].indegree == (if n in graph then graph[n].indegree else 0) + Times(m.option.value.proxies, n)
    ensures Decoded(ms + [m]) && Counted(Groups(ms + [m]), graph', graph'.Keys, [])
  {
    var gs := Groups(ms);
    var g := m.option.value;
    GroupsSnoc(ms, m);
    assert (gs + [g])[..|gs|] == gs;
    forall n | n in graph'
      ensures graph'[n].indegree == InDeg(gs + [g], graph'.Keys, n)
    {
      forall h | h in gs
        ensures h.name in graph
      {
        assert IsName(gs, h.name);
      }
      InDegOfAll(gs, graph.Keys, graph'.Keys, n);
      if n !in graph {
        InDegPositive(gs, graph.Keys, n);
        PredIsRef(gs, graph.Keys, n);
      }
    }
  }

  lemma KeysSnoc(gs: seq<Group>, g: Group, n: string)
    ensures IsName(gs + [g], n) <==> IsName(gs, n) || n == g.name
    ensures IsRef(gs + [g], n) <==> IsRef(gs, n) || n in g.proxies
  {
    assert g in gs + [g];
    if IsName(gs, n) {
      var h :| h in gs && h.name == n;
      assert h in gs + [g];
    }
    if IsRef(gs, n) {
      var h :| h in gs && n in h.proxies;
      assert h in gs + [g];
    }
  }

  lemma GraphOfSnoc(ms: seq<Mapping>, graph: Graph, m: Mapping, graph': Graph)
    requires GraphOf(ms, graph) && m.option.Some?
    requires m.option.value.name in graph ==> graph[m.option.value.name].data.None?
    requires forall n :: n in graph' <==> n in graph || n == m.option.value.name || n in m.option.value.proxies
    requires forall n | n in graph' && n != m.option.value.name ::
      graph'[n] == (if n in graph then graph[n].(indegree := graph[n].indegree + Times(m.option.value.proxies, n))
                    else Node(Times(m.option.value.proxies, n), None, 0, None, []))
    requires graph'[m.option.value.name].data == Some(m) && graph'[m.option.value.name].option == m.option
    requires graph'[m.option.value.name].outdegree == 0 && graph'[m.option.value.name].from == []
    requires graph'[m.option.value.name].indegree == Times(m.option.value.proxies, m.option.value.name)
      + (if m.option.value.name in graph then graph[m.option.value.name].indegree else 0)
    ensures GraphOf(ms + [m], graph')
  {
    hide DistinctNames, IsName, IsRef, InDeg, LabelOf;
    SaneSnoc(ms, graph, m);
    LabeledSnoc(ms, graph, m, graph');
    CountedSnoc(ms, graph, m, graph');
    GroupsSnoc(ms, m);
    forall n
      ensures n in graph' <==> IsName(Groups(ms + [m]), n) || IsRef(Groups(ms + [m]), n)
    {
      KeysSnoc(Groups(ms), m.option.value, n);
    }
  }

  /** One round of the loop of step 1.1. */
  method AddEntry(graph0: Graph, m: Mapping, ghost done: seq<Mapping>) returns (graph: Graph, dup: bool)
    requires GraphOf(done, graph0) && m.option.Some?
    ensures dup <==> m.option.value.name in graph0 && graph0[m.option.value.name].data.Some?
    ensures !dup ==> GraphOf(done + [m], graph)
  {
    graph, dup := AddGroup(graph0, m);
    if !dup {
      graph := AddRefs(graph, m.option.value.proxies);
      GraphOfSnoc(done, graph0, m, graph);
    }
  }

  ghost predicate FirstBad(ms: seq<Mapping>, i: nat) {
    i < |ms| && BadAt(ms, i) && forall j | 0 <= j < i :: !BadAt(ms, j)
  }

  /** Step 1.1 reads the configuration only. */
  method BuildGraph(ms: seq<Mapping>) returns (graph: Graph, err: Option<Error>, ghost bad: nat)
    ensures err.Some? ==> FirstBad(ms, bad) && err.value == ErrorAt(ms, bad)
    ensures err.None? ==> GraphOf(ms, graph) && forall i | 0 <= i < |ms| :: !BadAt(ms, i)
  {
    hide *;
    graph, err, bad := map[], None, 0;
    EmptyGraph();
    assert ms[..0] == [];
    for i := 0 to |ms|
      invariant err == None && GraphOf(ms[..i], graph)
    {
      var m := ms[i];
      if m.option.None? {
        UndecodableIsBad(ms, i, graph);
        return graph, Some(Undecodable(i)), i;
      }
      ghost var done := ms[..i];
      var graph', dup := AddEntry(graph, m, done);
      if dup {
        DuplicateIsBad(ms, i, graph);
        return graph, Some(DuplicateName(m.option.value.name)), i;
      }
      assert ms[..i + 1] == done + [m];
      graph := graph';
    }
    NoneBad(ms, |ms|, graph);
    assert ms[..|ms|] == ms;
  }

  lemma EmptyGraph()
    ensures GraphOf([], map[])
  {
  }

  lemma NoneBad(ms: seq<Mapping>, i: nat, graph: Graph)
    requires i <= |ms| && GraphOf(ms[..i], graph)
    ensures forall j | 0 <= j < i :: !BadAt(ms, j)
  {
    forall j | 0 <= j < i
      ensures !BadAt(ms, j)
    {
      NotBad(ms, i, j);
    }
  }

  lemma UndecodableIsBad(ms: seq<Mapping>, i: nat, graph: Graph)
    requires i < |ms| && GraphOf(ms[..i], graph) && ms[i].option.None?
    ensures FirstBad(ms, i) && ErrorAt(ms, i) == Undecodable(i)
  {
    hide GraphOf;
    NoneBad(ms, i, graph);
  }

  lemma DuplicateIsBad(ms: seq<Mapping>, i: nat, graph: Graph)
    requires i < |ms| && ms[i].option.Some? && GraphOf(ms[..i], graph)
    requires ms[i].option.value.name in graph && graph[ms[i].option.value.name].data.Some?
    ensures FirstBad(ms, i) && ErrorAt(ms, i) == DuplicateName(ms[i].option.value.name)
  {
    hide Counted, IsRef, IsName, Fresh;
    NoneBad(ms, i, graph);
    var n := ms[i].option.value.name;
    assert LabelOf(ms[..i], n, graph[n]);
    var j :| 0 <= j < i && ms[j] == graph[n].data.value;
  }

  lemma NotBad(ms: seq<Mapping>, i: nat, j: nat)
    requires j < i <= |ms| && Sane(ms[..i])
    ensures !BadAt(ms, j)
  {
    var gs := Groups(ms[..i]);
    assert ms[j] in ms[..i] && ms[..i][j] == ms[j];
    forall k | 0 <= k < j
      ensures ms[k].option.Some? ==> ms[k].option.value.name != ms[j].option.value.name
    {
      assert ms[..i][k] == ms[k];
      assert gs[k].name != gs[j].name;
    }
  }

  // ---------- step 1.2: topological sort ----------

  /** The queue holds each node of indegree zero once. */
  ghost predicate Queued(graph: Graph, queue: seq<string>) {
    NoDup(queue) && forall n :: n in queue <==> n in graph && graph[n].indegree == 0
  }

  /** Of the first k references, those whose indegree the references use up, where they are listed for the
      last time. */
  function UsedUp(graph: Graph, ps: seq<string>, k: nat): seq<string>
    requires k <= |ps| && forall n | n in ps :: n in graph
  {
    if k == 0 then []
    else
      var n := ps[k - 1];
      UsedUp(graph, ps, k - 1) + (if n !in ps[k..] && graph[n].indegree == Times(ps, n) then [n] else [])
  }

  lemma LastTime(ps: seq<string>, k: nat, indegree: int)
    requires k < |ps| && indegree >= Times(ps, ps[k])
    ensures indegree == Times(ps[..k + 1], ps[k]) <==> ps[k] !in ps[k + 1..] && indegree == Times(ps, ps[k])
  {
    assert ps == ps[..k + 1] + ps[k + 1..];
  }

  /** The node that comes first in the queue is still there when its references are released. */
  method ReleaseRefs(graph0: Graph, queue0: seq<string>, ps: seq<string>) returns (graph: Graph, queue: seq<string>)
    requires Queued(graph0, queue0)
    requires forall n | n in ps :: n in graph0
    requires forall n | n in graph0 :: graph0[n].indegree >= Times(ps, n)
    ensures Queued(graph, queue) && queue == queue0 + UsedUp(graph0, ps, |ps|) && graph.Keys == graph0.Keys
    ensures forall n | n in graph0 :: graph[n] == graph0[n].(indegree := graph0[n].indegree - Times(ps, n))
  {
    hide Times, Queued, UsedUp;
    NoTimes(ps[..0]);
    UsedUpNone(graph0, ps);
    graph, queue := graph0, queue0;
    assert queue == queue0 + [];
    for k := 0 to |ps|
      invariant Queued(graph, queue) && queue == queue0 + UsedUp(graph0, ps, k) && graph.Keys == graph0.Keys
      invariant forall n | n in graph0 :: graph[n] == graph0[n].(indegree := graph0[n].indegree - Times(ps[..k], n))
    {
      TimesSplit(ps, k);
      LastTime(ps, k, graph0[ps[k]].indegree);
      UsedUpNext(graph0, queue0, ps, k);
      var child := graph[ps[k]];
      QueuedNext(graph, queue, ps[k]);
      graph := graph[ps[k] := child.(indegree := child.indegree - 1)];
      if child.indegree - 1 == 0 {
        queue := queue + [ps[k]];
      }
    }
    assert ps[..|ps|] == ps;
  }

  lemma UsedUpNone(graph: Graph, ps: seq<string>)
    requires forall n | n in ps :: n in graph
    ensures UsedUp(graph, ps, 0) == []
  {
  }

  lemma UsedUpNext(graph: Graph, queue: seq<string>, ps: seq<string>, k: nat)
    requires k < |ps| && forall n | n in ps :: n in graph
    ensures queue + UsedUp(graph, ps, k + 1) == queue + UsedUp(graph, ps, k)
      + (if ps[k] !in ps[k + 1..] && graph[ps[k]].indegree == Times(ps, ps[k]) then [ps[k]] else [])
  {
    hide Times;
  }

  lemma QueuedNext(graph: Graph, queue: seq<string>, f: string)
    requires Queued(graph, queue) && f in graph && graph[f].indegree != 0
    ensures Queued(graph[f := graph[f].(indegree := graph[f].indegree - 1)],
                   if graph[f].indegree - 1 == 0 then queue + [f] else queue)
  {
    assert f !in queue;
  }

  lemma TimesSplit(ps: seq<string>, k: nat)
    requires k < |ps|
    ensures forall n :: Times(ps[..k + 1], n) == Times(ps[..k], n) + (if n == ps[k] then 1 else 0)
    ensures Times(ps[..k], ps[k]) < Times(ps, ps[k])
  {
    assert ps[..k + 1] == ps[..k] + [ps[k]];
    assert ps == ps[..k + 1] + ps[k + 1..];
  }

  method ZeroIndegree(graph: Graph) returns (queue: seq<string>)
    ensures Queued(graph, queue)
  {
    queue := [];
    var left := graph.Keys;
    while left != {}
      invariant left <= graph.Keys && NoDup(queue)
      invariant forall n :: n in queue <==> n in graph.Keys - left && graph[n].indegree == 0
      decreases left
    {
      var name :| name in left;
      left := left - {name};
      if graph[name].indegree == 0 {
        queue := queue + [name];
      }
    }
  }

  function RefsOf(node: Node): seq<string> {
    match node.option
    case None => []
    case Some(g) => g.proxies
  }

  /** What a graph that has lost some nodes still says: the labels; the indegrees counted over the
      groups that are left; every reference of a group that is left is left; and no node of a set
      in which every node has a predecessor is gone. */
  ghost predicate Remaining(ms: seq<Mapping>, graph0: Graph, graph: Graph) {
    && GraphOf(ms, graph0)
    && (forall n | n in graph :: n in graph0 && graph[n] == graph0[n].(indegree := graph[n].indegree))
    && Counted(Groups(ms), graph, graph.Keys, [])
    && Closed(Groups(ms), graph.Keys)
    && Lasting(Groups(ms), graph.Keys)
  }

  ghost predicate Closed(gs: seq<Group>, alive: set<string>) {
    forall g, r | g in gs && g.name in alive && r in g.proxies :: r in alive
  }

  lemma AllRemain(ms: seq<Mapping>, graph: Graph)
    requires GraphOf(ms, graph)
    ensures Remaining(ms, graph, graph)
  {
    var gs := Groups(ms);
    forall g, r | g in gs && g.name in graph && r in g.proxies
      ensures r in graph
    {
      assert IsRef(gs, r);
    }
    forall c | PredClosed(gs, c)
      ensures c <= graph.Keys
    {
      forall n | n in c
        ensures n in graph
      {
        assert HasPred(gs, c, n);
        PredIsRef(gs, c, n);
      }
    }
  }

  /** A node names a group exactly when its label says so. */
  lemma LabelIsGroup(ms: seq<Mapping>, graph0: Graph, n: string)
    requires GraphOf(ms, graph0) && n in graph0
    ensures graph0[n].option.Some? ==> graph0[n].option.value in Groups(ms) && graph0[n].option.value.name == n
    ensures graph0[n].option.Some? ==> graph0[n].data.Some? && graph0[n].data.value in ms
                                       && graph0[n].data.value.option == graph0[n].option
    ensures graph0[n].option.None? ==> graph0[n].data.None? && forall g | g in Groups(ms) :: g.name != n
  {
    assert LabelOf(ms, n, graph0[n]);
    if graph0[n].option.Some? {
      var i :| 0 <= i < |ms| && ms[i] == graph0[n].data.value;
      assert Groups(ms)[i] in Groups(ms);
    } else {
      forall g | g in Groups(ms)
        ensures g.name != n
      {
        var i :| 0 <= i < |ms| && Groups(ms)[i] == g;
        assert ms[i] in ms;
      }
    }
  }

  /** Without `name`, the groups left name each node as often as before, less what `name` named. */
  lemma InDegWithout(ms: seq<Mapping>, graph0: Graph, alive: set<string>, name: string, n: string)
    requires GraphOf(ms, graph0) && name in graph0 && name in alive
    ensures InDeg(Groups(ms), alive, n)
         == InDeg(Groups(ms), alive - {name}, n) + Times(RefsOf(graph0[name]), n)
  {
    LabelIsGroup(ms, graph0, name);
    match graph0[name].option
    case None => InDegWithoutStranger(Groups(ms), alive, name, n);
    case Some(g) => InDegWithoutGroup(Groups(ms), alive, g, n);
  }

  lemma NotNamedByTheRest(gs: seq<Group>, alive: set<string>, name: string)
    requires InDeg(gs, alive, name) == 0
    ensures forall g | g in gs && g.name in alive :: name !in g.proxies
    ensures forall c | PredClosed(gs, c) && c <= alive :: name !in c
  {
    InDegPositive(gs, alive, name);
    forall g | g in gs && g.name in alive
      ensures name !in g.proxies
    {
      assert name in g.proxies ==> Edge(gs, g.name, name);
    }
    forall c | PredClosed(gs, c) && c <= alive
      ensures name !in c
    {
      assert name in c ==> HasPred(gs, c, name);
    }
  }

  lemma DeleteNode(ms: seq<Mapping>, graph0: Graph, graph: Graph, name: string, graph': Graph)
    requires Remaining(ms, graph0, graph) && name in graph && graph[name].indegree == 0
    requires graph'.Keys == graph.Keys - {name}
    requires forall n | n in graph' ::
      graph'[n] == graph[n].(indegree := graph[n].indegree - Times(RefsOf(graph[name]), n))
    ensures Remaining(ms, graph0, graph')
  {
    var gs := Groups(ms);
    NotNamedByTheRest(gs, graph.Keys, name);
    forall n | n in graph'
      ensures graph'[n].indegree == InDeg(gs, graph'.Keys, n)
    {
      InDegWithout(ms, graph0, graph.Keys, name, n);
    }
  }

  // ---------- the entries already written ----------

  /** A reference to a group of `gs` comes from a group after it. */
  ghost predicate RefsFirst(gs: seq<Group>) {
    forall i, j | 0 <= i < |gs| && 0 <= j < |gs| && gs[i].name in gs[j].proxies :: i < j
  }

  lemma RefsFirstCons(g: Group, gs: seq<Group>)
    requires RefsFirst(gs) && g.name !in g.proxies
    requires forall j | 0 <= j < |gs| :: gs[j].name !in g.proxies
    ensures RefsFirst([g] + gs)
  {
    var all := [g] + gs;
    forall i, j | 0 <= i < |all| && 0 <= j < |all| && all[i].name in all[j].proxies
      ensures i < j
    {
      if i > 0 && j > 0 {
        assert gs[i - 1].name in gs[j - 1].proxies;
      }
    }
  }

  /** `out` holds each entry whose node is gone, once. */
  ghost predicate Placed(ms: seq<Mapping>, graph: Graph, out: seq<Mapping>) {
    && NoDup(out) && (forall m | m in out :: m in ms)
    && Decoded(ms)
    && (forall m | m in ms :: m in out <==> m.option.value.name !in graph)
  }

  lemma {:induction false} NoDupSubset<A(!new)>(a: seq<A>, b: seq<A>)
    requires NoDup(a) && forall x | x in a :: x in b
    ensures |a| <= |b|
    ensures |a| == |b| ==> multiset(a) == multiset(b)
    decreases |a|
  {
    if a != [] {
      var x := a[|a| - 1];
      var rest := a[..|a| - 1];
      assert x in a && x in b;
      var i :| 0 <= i < |b| && b[i] == x;
      var b' := b[..i] + b[i + 1..];
      forall y | y in rest
        ensures y in b'
      {
        assert y in a && y in b;
        var j :| 0 <= j < |b| && b[j] == y;
        assert b'[if j < i then j else j - 1] == y;
      }
      NoDupSubset(rest, b');
      assert a == rest + [x];
      assert b == b[..i] + [x] + b[i + 1..];
    }
  }

  lemma PlaceNext(ms: seq<Mapping>, graph0: Graph, graph: Graph, out: seq<Mapping>, name: string)
    requires Remaining(ms, graph0, graph) && Placed(ms, graph, out)
    requires name in graph && graph[name].data.Some?
    ensures var m := graph[name].data.value;
      && |out| < |ms| && Placed(ms, graph - {name}, [m] + out)
  {
    hide Closed, Lasting, Counted, Sane, Fresh, Groups;
    LabelIsGroup(ms, graph0, name);
    var m := graph[name].data.value;
    assert m !in out;
    NoDupSubset([m] + out, ms);
    forall x | x in ms && x.option.value.name == name
      ensures x == m
    {
      assert graph0[name].data == Some(x);
    }
  }

  lemma RefsFirstNext(ms: seq<Mapping>, graph0: Graph, graph: Graph, out: seq<Mapping>, name: string)
    requires Remaining(ms, graph0, graph) && Placed(ms, graph, out) && Decoded(out) && RefsFirst(Groups(out))
    requires name in graph && graph[name].indegree == 0 && graph[name].data.Some?
    ensures Decoded([graph[name].data.value] + out) && RefsFirst(Groups([graph[name].data.value] + out))
  {
    hide RefsFirst, Placed, GraphOf, Lasting, Counted, Closed, Groups;
    LabelLeft(ms, graph0, graph, name);
    var m := graph[name].data.value;
    NamesNoneOf(ms, graph, out, m.option.value);
    RefsFirstCons(m.option.value, Groups(out));
    GroupsCons(m, out);
  }

  lemma GroupsCons(m: Mapping, out: seq<Mapping>)
    requires Decoded(out) && m.option.Some?
    ensures Decoded([m] + out) && Groups([m] + out) == [m.option.value] + Groups(out)
  {
  }

  /** A queued group names neither itself nor a group that is gone. */
  lemma NamesNoneOf(ms: seq<Mapping>, graph: Graph, out: seq<Mapping>, g: Group)
    requires Placed(ms, graph, out) && Decoded(out) && g in Groups(ms) && g.name in graph
    requires Counted(Groups(ms), graph, graph.Keys, []) && Closed(Groups(ms), graph.Keys)
    requires graph[g.name].indegree == 0
    ensures g.name !in g.proxies
    ensures forall j | 0 <= j < |out| :: Groups(out)[j].name !in g.proxies
  {
    NotNamedByTheRest(Groups(ms), graph.Keys, g.name);
    forall j | 0 <= j < |out|
      ensures Groups(out)[j].name !in g.proxies
    {
      assert out[j] in out && out[j] in ms;
      assert out[j].option.value.name !in graph;
    }
  }

  lemma SkipNext(ms: seq<Mapping>, graph0: Graph, graph: Graph, out: seq<Mapping>, name: string)
    requires Remaining(ms, graph0, graph) && Placed(ms, graph, out)
    requires name in graph && graph[name].data.None?
    ensures Placed(ms, graph - {name}, out)
  {
    LabelIsGroup(ms, graph0, name);
    forall m | m in ms
      ensures m.option.value.name != name
    {
      assert graph0[m.option.value.name].data == Some(m);
    }
  }

  lemma AllPlaced(ms: seq<Mapping>, graph: Graph, out: seq<Mapping>)
    requires Placed(ms, graph, out) && graph == map[]
    ensures |out| <= |ms|
    ensures Sane(ms) ==> |out| == |ms| && multiset(out) == multiset(ms)
  {
    NoDupSubset(out, ms);
    if Sane(ms) {
      forall i, j | 0 <= i < j < |ms|
        ensures ms[i] != ms[j]
      {
        assert Groups(ms)[i].name != Groups(ms)[j].name;
      }
      NoDupSubset(ms, out);
    }
  }

  /** What is written so far: each entry whose node is gone, once, references first. */
  ghost predicate Written(ms: seq<Mapping>, graph: Graph, out: seq<Mapping>) {
    Placed(ms, graph, out) && Decoded(out) && RefsFirst(Groups(out)) && |out| <= |ms|
  }

  function Emitted(node: Node): seq<Mapping> {
    match node.data
    case None => []
    case Some(m) => [m]
  }

  lemma LabelLeft(ms: seq<Mapping>, graph0: Graph, graph: Graph, name: string)
    requires Remaining(ms, graph0, graph) && name in graph
    ensures graph[name].option.Some? <==> graph[name].data.Some?
    ensures graph[name].data.Some? ==> graph[name].data.value.option == graph[name].option
    ensures graph[name].option.Some? ==> graph[name].option.value in Groups(ms) && graph[name].option.value.name == name
  {
    hide GraphOf, Closed, Lasting, Counted;
    LabelIsGroup(ms, graph0, name);
  }

  lemma WriteNext(ms: seq<Mapping>, graph0: Graph, graph: Graph, out: seq<Mapping>, name: string)
    requires Remaining(ms, graph0, graph) && Written(ms, graph, out)
    requires name in graph && graph[name].indegree == 0
    ensures graph[name].option.Some? <==> graph[name].data.Some?
    ensures Written(ms, graph - {name}, Emitted(graph[name]) + out)
    ensures |Emitted(graph[name]) + out| <= |ms|
    ensures |Emitted(graph[name])| == if graph[name].option.Some? then 1 else 0
  {
    hide Remaining, Placed, RefsFirst, Groups;
    LabelLeft(ms, graph0, graph, name);
    if graph[name].data.Some? {
      PlaceNext(ms, graph0, graph, out, name);
      RefsFirstNext(ms, graph0, graph, out, name);
    } else {
      SkipNext(ms, graph0, graph, out, name);
      assert Emitted(graph[name]) + out == out;
    }
  }

  /** The nodes that are gone from the graph. */
  ghost predicate Retired(start: Graph, graph: Graph, done: seq<string>) {
    NoDup(done) && forall n :: n in done <==> n in start && n !in graph
  }

  lemma RetiredNext(start: Graph, graph: Graph, done: seq<string>, name: string, graph': Graph)
    requires Retired(start, graph, done) && name in graph && name in start && graph'.Keys == graph.Keys - {name}
    ensures Retired(start, graph', done + [name]) && name !in done
  {
  }

  lemma RefsAreListed(ms: seq<Mapping>, start: Graph, name: string)
    requires GraphOf(ms, start) && name in start
    ensures RefsOf(start[name]) == QueueOrder.ListOf(Groups(ms), name)
  {
    hide Labeled, Counted, QueueOrder.ListOf, IsRef, InDeg;
    LabelIsGroup(ms, start, name);
    match start[name].option
    case Some(g) => QueueOrder.ListOfGroup(Groups(ms), g);
    case None => QueueOrder.ListOfStranger(Groups(ms), name);
  }

  /** A reference is used up by `name` exactly when no other namer of it is left. */
  lemma UsedUpIsFree(ms: seq<Mapping>, start: Graph, graph: Graph, done: seq<string>, name: string, n: string)
    requires Remaining(ms, start, graph) && Retired(start, graph, done) && name in graph && n in graph
    ensures graph[n].indegree == Times(RefsOf(start[name]), n)
       <==> QueueOrder.NamersIn(Groups(ms), done + [name], n)
  {
    hide Labeled, Lasting, InDeg, QueueOrder.ListOf;
    var gs, left := Groups(ms), graph.Keys - {name};
    InDegWithout(ms, start, graph.Keys, name, n);
    InDegPositive(gs, left, n);
    assert Times([], n) == 0;
    forall m | Edge(gs, m, n)
      ensures m in left <==> m !in done + [name]
    {
      assert IsName(gs, m);
    }
  }

  lemma {:induction false} UsedUpIsFreed(ms: seq<Mapping>, start: Graph, graph: Graph, done: seq<string>,
                                         name: string, ps: seq<string>, k: nat)
    requires Remaining(ms, start, graph) && Retired(start, graph, done) && name in graph && name in start
    requires k <= |ps| && ps == RefsOf(start[name]) && forall n | n in ps :: n in graph
    ensures UsedUp(graph, ps, k) == QueueOrder.FreedUpTo(Groups(ms), done + [name], ps, k)
  {
    hide Remaining, Retired, Times;
    if k > 0 {
      UsedUpIsFreed(ms, start, graph, done, name, ps, k - 1);
      UsedUpIsFree(ms, start, graph, done, name, ps[k - 1]);
    }
  }

  /** Release the references of the first node of the queue and delete it.  What it frees joins the queue. */
  method Retire(graph0: Graph, queue0: seq<string>, ghost ms: seq<Mapping>, ghost start: Graph, ghost done: seq<string>)
    returns (graph: Graph, queue: seq<string>)
    requires Remaining(ms, start, graph0) && Queued(graph0, queue0) && queue0 != [] && Retired(start, graph0, done)
    ensures Remaining(ms, start, graph) && Queued(graph, queue) && graph.Keys == graph0.Keys - {queue0[0]}
    ensures queue == queue0[1..] + QueueOrder.Freed(Groups(ms), done + [queue0[0]])
    ensures Retired(start, graph, done + [queue0[0]]) && queue0[0] !in done
  {
    hide *;
    var name := queue0[0];
    FrontOfQueue(graph0, queue0);
    var node := graph0[name];
    graph, queue := graph0, queue0;
    AboutToRetire(ms, start, graph, done, name);
    if node.option.Some? {
      EnoughIndegree(ms, start, graph, name);
      graph, queue := ReleaseRefs(graph, queue, node.option.value.proxies);
    }
    PopQueue(graph, queue, name);
    graph := graph - {name};
    queue := queue[1..];
    DeleteNode(ms, start, graph0, name, graph);
    RetiredNext(start, graph0, done, name, graph);
  }

  lemma AboutToRetire(ms: seq<Mapping>, start: Graph, graph: Graph, done: seq<string>, name: string)
    requires Remaining(ms, start, graph) && Retired(start, graph, done) && name in graph
    ensures Sane(ms) && name in start && RefsOf(graph[name]) == RefsOf(start[name])
    ensures var ps := RefsOf(graph[name]);
      && (graph[name].option.Some? ==> ps == graph[name].option.value.proxies)
      && (graph[name].option.None? ==> QueueOrder.Freed(Groups(ms), done + [name]) == [] && ps == [])
      && (forall n | n in ps :: n in graph)
      && UsedUp(graph, ps, |ps|) == QueueOrder.Freed(Groups(ms), done + [name])
    ensures forall n: string :: Times([], n) == 0
  {
    hide Counted, Lasting, Labeled, Closed, UsedUp, QueueOrder.ListOf, QueueOrder.FreedUpTo;
    RefsAreListed(ms, start, name);
    if graph[name].option.Some? {
      EnoughIndegree(ms, start, graph, name);
    }
    UsedUpIsFreed(ms, start, graph, done, name, RefsOf(start[name]), |RefsOf(start[name])|);
    assert (done + [name])[|done|] == name;
    NothingFreed(Groups(ms), done + [name]);
  }

  lemma NothingFreed(gs: seq<Group>, done: seq<string>)
    requires done != []
    ensures QueueOrder.ListOf(gs, done[|done| - 1]) == [] ==> QueueOrder.Freed(gs, done) == []
  {
  }

  /** `groupsConfig[len(groupsConfig)-index] = node.data` for the next index. */
  method Put(cfg: array<Mapping>, index: nat, node: Node, ghost out: seq<Mapping>)
    requires index == |out| < cfg.Length && cfg[cfg.Length - index..] == out && node.data.Some?
    modifies cfg
    ensures cfg[cfg.Length - (index + 1)..] == Emitted(node) + out
  {
    cfg[cfg.Length - (index + 1)] := node.data.value;
  }

  lemma FrontOfQueue(graph: Graph, queue: seq<string>)
    requires Queued(graph, queue) && queue != []
    ensures queue[0] in graph && graph[queue[0]].indegree == 0
  {
    assert queue[0] in queue;
  }

  ghost function NamesIn(out: seq<Mapping>): (r: seq<string>)
    requires Decoded(out)
    ensures |r| == |out| && forall i | 0 <= i < |out| :: r[i] == out[i].option.value.name
  {
    seq(|out|, i requires 0 <= i < |out| => assert out[i] in out; out[i].option.value.name)
  }

  /** What has been written is what has been retired, the last first. */
  ghost predicate Mirrors(ms: seq<Mapping>, out: seq<Mapping>, done: seq<string>) {
    Decoded(ms) && Decoded(out) && NamesIn(out) == QueueOrder.Output(Groups(ms), done)
  }

  lemma MirrorsNext(ms: seq<Mapping>, start: Graph, graph: Graph, out: seq<Mapping>, done: seq<string>, name: string)
    requires Remaining(ms, start, graph) && name in graph && Mirrors(ms, out, done)
    ensures Mirrors(ms, Emitted(graph[name]) + out, done + [name])
  {
    hide Counted, Lasting, Labeled, Closed, QueueOrder.Output;
    LabelIsGroup(ms, start, name);
    QueueOrder.OutputNext(Groups(ms), done, name);
    assert Decoded(Emitted(graph[name]) + out);
    assert NamesIn(Emitted(graph[name]) + out)
        == (if IsName(Groups(ms), name) then [name] else []) + NamesIn(out);
  }

  lemma NothingRetired(ms: seq<Mapping>, graph: Graph, queue: seq<string>)
    requires GraphOf(ms, graph) && Queued(graph, queue)
    ensures Retired(graph, graph, []) && Decoded(ms) && QueueOrder.Queueing(Groups(ms), queue, [], queue)
    ensures Mirrors(ms, [], [])
  {
    hide Labeled;
    var gs := Groups(ms);
    forall n
      ensures n in queue <==> IsName(gs, n) && forall m :: !Edge(gs, m, n)
    {
      InDegPositive(gs, graph.Keys, n);
      assert forall m | Edge(gs, m, n) :: IsName(gs, m);
      if IsRef(gs, n) {
        var g :| g in gs && n in g.proxies;
        assert Edge(gs, g.name, n);
      }
    }
    QueueOrder.QueueingStarts(gs, queue);
  }

  /** The loop of step 1.2. */
  method SortLoop(cfg: array<Mapping>, graph0: Graph, ghost ms: seq<Mapping>)
    returns (graph: Graph, ghost out: seq<Mapping>, ghost first: seq<string>, ghost done: seq<string>)
    requires cfg[..] == ms && GraphOf(ms, graph0)
    modifies cfg
    ensures Remaining(ms, graph0, graph) && Queued(graph, []) && Written(ms, graph, out)
    ensures |out| <= cfg.Length && cfg[cfg.Length - |out|..] == out
    ensures Decoded(ms) && QueueOrder.Queue(Groups(ms), first, done) && Mirrors(ms, out, done)
  {
    hide *;
    graph := graph0;
    AllRemain(ms, graph);
    var index := 0;
    var queue := ZeroIndegree(graph);
    out, first, done := [], queue, [];
    AllUnplaced(ms, graph);
    NothingRetired(ms, graph, queue);
    while |queue| > 0
      invariant Remaining(ms, graph0, graph) && Queued(graph, queue) && Written(ms, graph, out)
      invariant index == |out| <= cfg.Length == |ms| && cfg[cfg.Length - index..] == out
      invariant Retired(graph0, graph, done) && Mirrors(ms, out, done)
      invariant Decoded(ms) && QueueOrder.Queueing(Groups(ms), first, done, queue)
      decreases graph.Keys
    {
      var name := queue[0];
      FrontOfQueue(graph, queue);
      var node := graph[name];
      ghost var before, queue0 := graph, queue;
      WriteNext(ms, graph0, graph, out, name);
      MirrorsNext(ms, graph0, graph, out, done, name);
      if node.option.Some? {
        Put(cfg, index, node, out);
        index := index + 1;
      }
      out := Emitted(node) + out;
      graph, queue := Retire(graph, queue, ms, graph0, done);
      SameKeysWritten(ms, before - {name}, graph, out);
      QueueOrder.QueueingNext(Groups(ms), first, done, queue0);
      done := done + [name];
    }
    assert queue == [];
    WholeRun(ms, first, done);
  }

  lemma WholeRun(ms: seq<Mapping>, first: seq<string>, done: seq<string>)
    requires Decoded(ms) && QueueOrder.Queueing(Groups(ms), first, done, [])
    ensures QueueOrder.Queue(Groups(ms), first, done)
  {
  }

  /** `out` lists the entries as some run of the queue retires their groups, the last first. */
  ghost predicate ByQueue(ms: seq<Mapping>, out: seq<Mapping>) {
    Sane(ms) && exists first, done :: QueueOrder.Queue(Groups(ms), first, done) && Mirrors(ms, out, done)
  }

  method TopoSort(cfg: array<Mapping>, graph0: Graph, ghost ms: seq<Mapping>) returns (graph: Graph)
    requires cfg[..] == ms && GraphOf(ms, graph0)
    modifies cfg
    ensures Remaining(ms, graph0, graph)
    ensures Sane(ms) && PredClosed(Groups(ms), graph.Keys)
    ensures graph == map[] ==>
      multiset(cfg[..]) == multiset(ms) && Decoded(cfg[..]) && RefsFirst(Groups(cfg[..])) && ByQueue(ms, cfg[..])
  {
    hide Mirrors, QueueOrder.Queue, Counted, Closed, Lasting;
    ghost var out, first, done;
    graph, out, first, done := SortLoop(cfg, graph0, ms);
    RestIsStuck(ms, graph0, graph);
    if graph == map[] {
      AllPlaced(ms, graph, out);
      assert cfg[..] == out;
    }
  }

  lemma RestIsStuck(ms: seq<Mapping>, graph0: Graph, graph: Graph)
    requires Remaining(ms, graph0, graph) && Queued(graph, [])
    ensures Sane(ms) && PredClosed(Groups(ms), graph.Keys)
  {
    hide Labeled, Lasting, Closed, InDeg;
    StuckHavePreds(ms, graph, []);
  }

  lemma SameKeysWritten(ms: seq<Mapping>, a: Graph, b: Graph, out: seq<Mapping>)
    requires Written(ms, a, out) && a.Keys == b.Keys
    ensures Written(ms, b, out)
  {
  }

  lemma AllUnplaced(ms: seq<Mapping>, graph: Graph)
    requires GraphOf(ms, graph)
    ensures Written(ms, graph, [])
  {
    var out: seq<Mapping> := [];
    assert NoDup(out);
  }

  /** A queued group can give back each of its references: they are all counted. */
  lemma EnoughIndegree(ms: seq<Mapping>, graph0: Graph, graph: Graph, name: string)
    requires Remaining(ms, graph0, graph) && name in graph && graph[name].option.Some?
    ensures forall n | n in graph[name].option.value.proxies :: n in graph
    ensures forall n | n in graph :: graph[n].indegree >= Times(graph[name].option.value.proxies, n)
  {
    LabelIsGroup(ms, graph0, name);
    forall n | n in graph
      ensures graph[n].indegree >= Times(graph[name].option.value.proxies, n)
    {
      InDegWithout(ms, graph0, graph.Keys, name, n);
    }
  }

  lemma PopQueue(graph: Graph, queue: seq<string>, name: string)
    requires Queued(graph, queue) && queue != [] && queue[0] == name
    ensures Queued(graph - {name}, queue[1..])
  {
    forall n
      ensures n in queue[1..] <==> n in queue && n != name
    {
      if n in queue && n != name {
        var i :| 0 <= i < |queue| && queue[i] == n;
        assert queue[1..][i - 1] == n;
      }
      if n in queue[1..] {
        var i :| 0 <= i < |queue[1..]| && queue[1..][i] == n;
        assert queue[i + 1] == n;
      }
    }
  }

  lemma StuckHavePreds(ms: seq<Mapping>, graph: Graph, queue: seq<string>)
    requires Decoded(ms) && Counted(Groups(ms), graph, graph.Keys, []) && Queued(graph, queue) && queue == []
    ensures forall n | n in graph :: HasPred(Groups(ms), graph.Keys, n)
  {
    forall n | n in graph
      ensures HasPred(Groups(ms), graph.Keys, n)
    {
      assert n !in queue;
      InDegPositive(Groups(ms), graph.Keys, n);
    }
  }

  // ---------- step 2: locate the loops ----------

  function Repeat(x: string, k: nat): seq<string> { seq(k, _ => x) }

  lemma NoRepeat(x: string)
    ensures Repeat(x, 0) == [] && forall s: seq<string> :: s + Repeat(x, 0) == s
  {
  }

  lemma RepeatNext(s: seq<string>, x: string, k: nat)
    ensures s + Repeat(x, k) + [x] == s + Repeat(x, k + 1)
  {
  }

  /** Step 2.1 over the references of one node: `name` is recorded once per reference. */
  method RecordRefs(graph0: Graph, name: string, ps: seq<string>) returns (graph: Graph)
    requires name in graph0
    requires forall r | r in ps :: r in graph0
    ensures graph.Keys == graph0.Keys
    ensures forall n | n in graph0 ::
      graph[n] == graph0[n].(outdegree := graph0[n].outdegree + (if n == name then |ps| else 0),
                             from := graph0[n].from + Repeat(name, Times(ps, n)))
  {
    hide Times, Repeat;
    NoTimes(ps[..0]);
    NoRepeat(name);
    graph := graph0;
    for k := 0 to |ps|
      invariant graph.Keys == graph0.Keys
      invariant forall n | n in graph0 ::
        graph[n] == graph0[n].(outdegree := graph0[n].outdegree + (if n == name then k else 0),
                               from := graph0[n].from + Repeat(name, Times(ps[..k], n)))
    {
      TimesSplit(ps, k);
      RepeatNext(graph0[ps[k]].from, name, Times(ps[..k], ps[k]));
      graph := graph[name := graph[name].(outdegree := graph[name].outdegree + 1)];
      var child := graph[ps[k]];
      graph := graph[ps[k] := child.(from := child.from + [name])];
    }
    assert ps[..|ps|] == ps;
  }

  /** Once the nodes in `seen` have been ranged over: who names whom, among them. */
  ghost predicate Recorded(graph0: Graph, graph: Graph, seen: set<string>) {
    graph.Keys == graph0.Keys && forall n | n in graph :: RecordedAt(graph0, n, graph[n], seen)
  }

  ghost predicate RecordedAt(graph0: Graph, n: string, node: Node, seen: set<string>)
    requires n in graph0
  {
    && node == graph0[n].(outdegree := node.outdegree, from := node.from)
    && node.outdegree == (if n in seen then |RefsOf(graph0[n])| else 0)
    && (forall f :: Times(node.from, f) == if f in seen && f in graph0 then Times(RefsOf(graph0[f]), n) else 0)
  }

  lemma RecordedNext(graph0: Graph, seen: set<string>, name: string, n: string, node: Node, node': Node)
    requires n in graph0 && RecordedAt(graph0, n, node, seen) && name in graph0 && name !in seen
    requires node' == node.(
      outdegree := node.outdegree + (if n == name then |RefsOf(graph0[name])| else 0),
      from := node.from + Repeat(name, Times(RefsOf(graph0[name]), n)))
    ensures RecordedAt(graph0, n, node', seen + {name})
  {
    forall f
      ensures Times(node'.from, f) == Times(node.from, f)
        + (if f == name then Times(RefsOf(graph0[name]), n) else 0)
    {
      TimesRepeat(node.from, name, Times(RefsOf(graph0[name]), n), f);
    }
  }

  lemma {:induction false} TimesRepeat(s: seq<string>, x: string, k: nat, f: string)
    ensures Times(s + Repeat(x, k), f) == Times(s, f) + (if f == x then k else 0)
  {
    if k == 0 {
      assert s + Repeat(x, 0) == s;
    } else {
      TimesRepeat(s, x, k - 1, f);
      assert s + Repeat(x, k) == (s + Repeat(x, k - 1)) + [x];
    }
  }

  /** One round of step 2.1. */
  method RecordNode(graph0: Graph, name: string, ghost start: Graph, ghost seen: set<string>) returns (graph: Graph)
    requires Recorded(start, graph0, seen) && name in graph0 && name !in seen
    requires forall r | r in RefsOf(start[name]) :: r in start
    ensures Recorded(start, graph, seen + {name})
  {
    hide RecordedAt;
    var node := graph0[name];
    assert node.option == start[name].option by { RecordedLabel(start, graph0, seen, name); }
    graph := RecordRefs(graph0, name, RefsOf(node));
    forall n | n in graph
      ensures RecordedAt(start, n, graph[n], seen + {name})
    {
      RecordedNext(start, seen, name, n, graph0[n], graph[n]);
    }
  }

  lemma RecordedLabel(graph0: Graph, graph: Graph, seen: set<string>, n: string)
    requires Recorded(graph0, graph, seen) && n in graph
    ensures graph[n] == graph0[n].(outdegree := graph[n].outdegree, from := graph[n].from)
  {
  }

  /** Step 2.1; a node without a group has no references. */
  method FillFrom(graph0: Graph) returns (graph: Graph)
    requires Fresh(graph0)
    requires forall n, r | n in graph0 && r in RefsOf(graph0[n]) :: r in graph0
    ensures Recorded(graph0, graph, graph0.Keys)
  {
    graph := graph0;
    ghost var seen := {};
    var left := graph0.Keys;
    while left != {}
      invariant left == graph0.Keys - seen && seen <= graph0.Keys && Recorded(graph0, graph, seen)
      decreases left
    {
      var name :| name in left;
      graph := RecordNode(graph, name, graph0, seen);
      left := left - {name};
      seen := seen + {name};
    }
    assert seen == graph0.Keys;
  }

  ghost predicate QueuedOut(graph: Graph, queue: seq<string>) {
    NoDup(queue) && forall n :: n in queue <==> n in graph && graph[n].outdegree == 0
  }

  method ZeroOutdegree(graph: Graph) returns (queue: seq<string>)
    ensures QueuedOut(graph, queue)
  {
    queue := [];
    var left := graph.Keys;
    while left != {}
      invariant left <= graph.Keys && NoDup(queue)
      invariant forall n :: n in queue <==> n in graph.Keys - left && graph[n].outdegree == 0
      decreases left
    {
      var name :| name in left;
      left := left - {name};
      if graph[name].outdegree == 0 {
        queue := queue + [name];
      }
    }
  }

  /** The loop over `node.from`: no name in it has been deleted. */
  method ReleaseFrom(graph0: Graph, queue0: seq<string>, from: seq<string>) returns (graph: Graph, queue: seq<string>)
    requires QueuedOut(graph0, queue0)
    requires forall n | n in from :: n in graph0
    requires forall n | n in graph0 :: graph0[n].outdegree >= Times(from, n)
    ensures QueuedOut(graph, queue) && queue0 <= queue && graph.Keys == graph0.Keys
    ensures forall n | n in graph0 :: graph[n] == graph0[n].(outdegree := graph0[n].outdegree - Times(from, n))
  {
    hide Times;
    NoTimes(from[..0]);
    graph, queue := graph0, queue0;
    for k := 0 to |from|
      invariant QueuedOut(graph, queue) && queue0 <= queue && graph.Keys == graph0.Keys
      invariant forall n | n in graph0 :: graph[n] == graph0[n].(outdegree := graph0[n].outdegree - Times(from[..k], n))
    {
      TimesSplit(from, k);
      var f := from[k];
      graph := graph[f := graph[f].(outdegree := graph[f].outdegree - 1)];
      if graph[f].outdegree == 0 {
        queue := queue + [f];
      }
    }
    assert from[..|from|] == from;
  }

  lemma NotInTimes(s: seq<string>, n: string)
    ensures n !in s ==> Times(s, n) == 0
  {
  }

  lemma NoTimes(s: seq<string>)
    ensures s == [] ==> forall n :: Times(s, n) == 0
  {
  }

  lemma FrontOfQueueOut(graph: Graph, queue: seq<string>)
    requires QueuedOut(graph, queue) && queue != []
    ensures queue[0] in graph && graph[queue[0]].outdegree == 0
  {
    assert queue[0] in queue;
  }

  lemma PopQueueOut(graph: Graph, queue: seq<string>, name: string)
    requires QueuedOut(graph, queue) && queue != [] && queue[0] == name
    ensures QueuedOut(graph - {name}, queue[1..])
  {
    assert queue == [name] + queue[1..];
  }

  /** The labels of a graph are the edges of the configuration. */
  ghost predicate EdgesOf(gs: seq<Group>, start: Graph) {
    && (forall n, r | n in start :: r in RefsOf(start[n]) <==> Edge(gs, n, r))
    && (forall n, r | n in start && Edge(gs, n, r) :: r in start)
  }

  /** What is left of the graph in step 2.2. */
  ghost predicate Trimming(gs: seq<Group>, start: Graph, graph: Graph) {
    && graph.Keys <= start.Keys
    && (forall n | n in graph :: graph[n].outdegree == OutDeg(RefsOf(start[n]), graph.Keys))
    && (forall n | n in graph :: Namers(start, n, graph[n].from))
    && NoneNamed(gs, start.Keys, graph.Keys)
    && LastingSucc(gs, start.Keys, graph.Keys)
  }

  /** `from` lists each node as often as it names `n`. */
  ghost predicate Namers(start: Graph, n: string, from: seq<string>) {
    forall f :: Times(from, f) == if f in start then Times(RefsOf(start[f]), n) else 0
  }

  lemma TrimStart(gs: seq<Group>, start: Graph, graph: Graph)
    requires EdgesOf(gs, start) && Recorded(start, graph, start.Keys)
    ensures Trimming(gs, start, graph)
  {
    forall n | n in graph
      ensures graph[n].outdegree == OutDeg(RefsOf(start[n]), graph.Keys)
    {
      OutDegAll(RefsOf(start[n]), graph.Keys);
    }
  }

  /** The nodes recorded as naming `name` are all left, with their references to it still counted. */
  lemma FromIsLeft(gs: seq<Group>, start: Graph, graph: Graph, name: string)
    requires EdgesOf(gs, start) && Trimming(gs, start, graph) && name in graph
    ensures forall f | f in graph[name].from :: f in graph
    ensures forall n | n in graph :: Times(graph[name].from, n) == Times(RefsOf(start[n]), name)
    ensures forall n | n in graph ::
      graph[n].outdegree == OutDeg(RefsOf(start[n]), graph.Keys - {name}) + Times(graph[name].from, n)
  {
    assert Namers(start, name, graph[name].from);
    forall f | f in graph[name].from
      ensures f in graph
    {
      assert Times(graph[name].from, f) > 0;
      assert f in start && name in RefsOf(start[f]);
      assert Edge(gs, f, name);
    }
    forall n | n in graph
      ensures graph[n].outdegree == OutDeg(RefsOf(start[n]), graph.Keys - {name}) + Times(graph[name].from, n)
    {
      OutDegWithout(RefsOf(start[n]), graph.Keys, name);
    }
  }

  lemma NoSuccessor(gs: seq<Group>, start: Graph, graph: Graph, name: string)
    requires EdgesOf(gs, start) && Trimming(gs, start, graph) && name in graph && graph[name].outdegree == 0
    ensures forall r | Edge(gs, name, r) :: r !in graph
  {
    hide NoneNamed, LastingSucc;
    OutDegPositive(RefsOf(start[name]), graph.Keys);
  }

  lemma DropLeaf(gs: seq<Group>, start: set<string>, alive: set<string>, name: string)
    requires NoneNamed(gs, start, alive) && LastingSucc(gs, start, alive)
    requires forall r | Edge(gs, name, r) :: r !in alive
    ensures NoneNamed(gs, start, alive - {name}) && LastingSucc(gs, start, alive - {name})
  {
    forall c | SuccClosed(gs, c) && c <= start
      ensures c <= alive - {name}
    {
      assert name in c ==> HasSucc(gs, c, name);
    }
  }

  lemma TrimNext(gs: seq<Group>, start: Graph, graph: Graph, name: string, graph': Graph)
    requires EdgesOf(gs, start) && Trimming(gs, start, graph) && name in graph && graph[name].outdegree == 0
    requires graph'.Keys == graph.Keys - {name}
    requires forall n | n in graph' ::
      graph'[n] == graph[n].(outdegree := graph[n].outdegree - Times(graph[name].from, n))
    ensures Trimming(gs, start, graph')
  {
    hide EdgesOf, NoneNamed, LastingSucc, Namers, OutDeg, RefsOf, Times;
    FromIsLeft(gs, start, graph, name);
    NoSuccessor(gs, start, graph, name);
    DropLeaf(gs, start.Keys, graph.Keys, name);
  }

  /** One round of step 2.2. */
  method RetireOut(graph0: Graph, queue0: seq<string>, ghost gs: seq<Group>, ghost start: Graph)
    returns (graph: Graph, queue: seq<string>)
    requires EdgesOf(gs, start) && Trimming(gs, start, graph0) && QueuedOut(graph0, queue0) && queue0 != []
    ensures Trimming(gs, start, graph) && QueuedOut(graph, queue) && graph.Keys == graph0.Keys - {queue0[0]}
    ensures queue0[0] in graph0
  {
    hide *;
    var name := queue0[0];
    FrontOfQueueOut(graph0, queue0);
    FromIsLeft(gs, start, graph0, name);
    graph, queue := ReleaseFrom(graph0, queue0, graph0[name].from);
    PopQueueOut(graph, queue, name);
    graph := graph - {name};
    queue := queue[1..];
    TrimNext(gs, start, graph0, name, graph);
  }

  /** Step 2.2. */
  method Trim(graph0: Graph, ghost gs: seq<Group>, ghost start: Graph) returns (graph: Graph)
    requires EdgesOf(gs, start) && Recorded(start, graph0, start.Keys)
    ensures graph.Keys <= start.Keys && SuccClosed(gs, graph.Keys)
    ensures NoneNamed(gs, start.Keys, graph.Keys) && LastingSucc(gs, start.Keys, graph.Keys)
  {
    hide Trimming, EdgesOf, QueuedOut, Recorded;
    graph := graph0;
    TrimStart(gs, start, graph);
    var queue := ZeroOutdegree(graph);
    while |queue| > 0
      invariant Trimming(gs, start, graph) && QueuedOut(graph, queue)
      decreases graph.Keys
    {
      graph, queue := RetireOut(graph, queue, gs, start);
    }
    StuckHaveSuccs(gs, start, graph, queue);
  }

  lemma StuckHaveSuccs(gs: seq<Group>, start: Graph, graph: Graph, queue: seq<string>)
    requires EdgesOf(gs, start) && Trimming(gs, start, graph) && QueuedOut(graph, queue) && queue == []
    ensures graph.Keys <= start.Keys && SuccClosed(gs, graph.Keys)
    ensures NoneNamed(gs, start.Keys, graph.Keys) && LastingSucc(gs, start.Keys, graph.Keys)
  {
    hide NoneNamed, LastingSucc;
    forall n | n in graph
      ensures HasSucc(gs, graph.Keys, n)
    {
      assert n !in queue;
      OutDegPositive(RefsOf(start[n]), graph.Keys);
      var m :| m in RefsOf(start[n]) && m in graph.Keys;
      assert Edge(gs, n, m);
    }
  }

  /** Step 2.3. */
  method Collect(graph: Graph) returns (names: seq<string>)
    ensures NoDup(names) && Elements(names) == graph.Keys
  {
    names := [];
    var left := graph.Keys;
    while left != {}
      invariant left <= graph.Keys && NoDup(names)
      invariant forall n :: n in names <==> n in graph.Keys - left
      decreases left
    {
      var name :| name in left;
      assert name !in names;
      names := names + [name];
      left := left - {name};
    }
  }

  // ---------- the whole function ----------

  lemma RemainingEdges(ms: seq<Mapping>, graph0: Graph, graph: Graph)
    requires Remaining(ms, graph0, graph)
    ensures EdgesOf(Groups(ms), graph) && Fresh(graph)
    ensures forall n, r | n in graph && r in RefsOf(graph[n]) :: r in graph
  {
    var gs := Groups(ms);
    forall n, r | n in graph
      ensures r in RefsOf(graph[n]) <==> Edge(gs, n, r)
      ensures Edge(gs, n, r) ==> r in graph
    {
      LabelIsGroup(ms, graph0, n);
      if graph[n].option.Some? {
        EdgeOfGroup(gs, graph[n].option.value, r);
      }
    }
  }

  lemma RemainingLasts(ms: seq<Mapping>, graph0: Graph, graph: Graph)
    requires Remaining(ms, graph0, graph)
    ensures Sane(ms) && Lasting(Groups(ms), graph.Keys)
  {
  }

  /** Step 2: which groups are in loops. */
  method LocateLoops(start: Graph, ghost ms: seq<Mapping>, ghost graph0: Graph) returns (names: seq<string>)
    requires Remaining(ms, graph0, start) && start != map[]
    requires Sane(ms) && PredClosed(Groups(ms), start.Keys)
    ensures LoopReport(Groups(ms), names) && Cyclic(Groups(ms))
  {
    hide Remaining, LoopReport, Cyclic, Trimming, EdgesOf, Recorded, NoDup, Fresh, Elements;
    hide PredClosed, SuccClosed, Lasting, NoneNamed, LastingSucc;
    ghost var gs := Groups(ms);
    RemainingEdges(ms, graph0, start);
    RemainingLasts(ms, graph0, start);
    var graph := FillFrom(start);
    graph := Trim(graph, gs, start);
    names := Collect(graph);
    assert start.Keys != {};
    ReportFromSets(gs, start.Keys, graph.Keys, names);
  }

  /** The answer for the configuration `ms`, which is `out` afterwards.
      No error: the graph has no cycle, and the same entries are in place, references first, in an order
      that a run of the queue gives.
      Loop: there is a cycle, and the names are those of LoopReport.
      Otherwise: the first entry that does not decode or repeats a name; nothing is written. */
  ghost predicate Answer(ms: seq<Mapping>, out: seq<Mapping>, err: Option<Error>) {
    match err
    case None =>
      && Sane(ms) && !Cyclic(Groups(ms))
      && multiset(out) == multiset(ms) && Decoded(out) && RefsFirst(Groups(out)) && ByQueue(ms, out)
    case Some(Loop(names)) => Sane(ms) && Cyclic(Groups(ms)) && LoopReport(Groups(ms), names)
    case Some(e) => out == ms && exists i :: FirstBad(ms, i) && e == ErrorAt(ms, i)
  }

  lemma AnswerError(ms: seq<Mapping>, e: Error, bad: nat)
    requires FirstBad(ms, bad) && e == ErrorAt(ms, bad)
    ensures Answer(ms, ms, Some(e))
  {
  }

  lemma AnswerSorted(ms: seq<Mapping>, out: seq<Mapping>)
    requires Sane(ms) && !Cyclic(Groups(ms))
    requires multiset(out) == multiset(ms) && Decoded(out) && RefsFirst(Groups(out)) && ByQueue(ms, out)
    ensures Answer(ms, out, None)
  {
  }

  lemma AnswerLoop(ms: seq<Mapping>, out: seq<Mapping>, names: seq<string>)
    requires Sane(ms) && Cyclic(Groups(ms)) && LoopReport(Groups(ms), names)
    ensures Answer(ms, out, Some(Loop(names)))
  {
  }

  method ProxyGroupsDagSort(cfg: array<Mapping>) returns (err: Option<Error>)
    modifies cfg
    ensures Answer(old(cfg[..]), cfg[..], err)
  {
    hide *;
    ghost var ms := cfg[..];
    var graph0, e, bad := BuildGraph(cfg[..]);
    if e.Some? {
      AnswerError(ms, e.value, bad);
      return e;
    }
    var graph := TopoSort(cfg, graph0, ms);
    RemainingLasts(ms, graph0, graph);
    if |graph| == 0 {
      assert graph == map[];
      assert graph.Keys == {};
      NothingLastsIfAcyclic(Groups(ms));
      AnswerSorted(ms, cfg[..]);
      return None;
    }
    var names := LocateLoops(graph, ms, graph0);
    AnswerLoop(ms, cfg[..], names);
    return Some(Loop(names));
  }

  lemma SaneIsNeverBad(ms: seq<Mapping>, i: nat)
    ensures Sane(ms) ==> !FirstBad(ms, i)
  {
    if Sane(ms) {
      assert ms[..|ms|] == ms;
      forall j | 0 <= j < |ms|
        ensures !BadAt(ms, j)
      {
        NotBad(ms, |ms|, j);
      }
    }
  }

  /** Sorted configurations are exactly the sane ones without cycles, however the maps are ranged over. */
  lemma AnswerDecides(ms: seq<Mapping>, out: seq<Mapping>, err: Option<Error>)
    requires Answer(ms, out, err)
    ensures err.None? <==> Sane(ms) && !Cyclic(Groups(ms))
    ensures err.Some? && err.value.Loop? <==> Sane(ms) && Cyclic(Groups(ms))
  {
    if err.Some? && !err.value.Loop? {
      var i :| FirstBad(ms, i);
      SaneIsNeverBad(ms, i);
    }
  }

  /** Two answers for the same configuration report the same groups, in some order. */
  lemma LoopReportIsUnique(gs: seq<Group>, a: seq<string>, b: seq<string>)
    requires LoopReport(gs, a) && LoopReport(gs, b)
    ensures Elements(a) == Elements(b)
  {
  }
}
