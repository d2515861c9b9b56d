/** The order in which the queue retires two nodes: the one on the lower level first, and on one level by
    the last groups, in the order of the start, from which a longest walk comes to them. */
module RootOrder {
  import opened Common
  import opened GroupGraph
  import opened QueueOrder
  import opened QueueLaws
  import opened Levels

  // ---------- roots ----------

  /** One of the longest walks to `n` begins in `r`. */
  ghost predicate Root(gs: seq<Group>, r: string, n: string)
    decreases Level(gs, n)
  {
    if Level(gs, n) == 0 then r == n
    else exists m :: Edge(gs, m, n) && Level(gs, m) + 1 == Level(gs, n) && Root(gs, r, m)
  }

  /** One of the longest walks to `n` begins in `r` and ends with `m` and `n`. */
  ghost predicate Namer(gs: seq<Group>, r: string, m: string, n: string) {
    Edge(gs, m, n) && Level(gs, m) + 1 == Level(gs, n) && Root(gs, r, m)
  }

  lemma RootOfNamer(gs: seq<Group>, r: string, m: string, n: string)
    requires Namer(gs, r, m, n)
    ensures Root(gs, r, n)
  {
  }

  lemma RootThroughNamer(gs: seq<Group>, r: string, n: string) returns (m: string)
    requires Root(gs, r, n) && Level(gs, n) > 0
    ensures Namer(gs, r, m, n)
  {
    m :| Edge(gs, m, n) && Level(gs, m) + 1 == Level(gs, n) && Root(gs, r, m);
  }

  /** A node of the graph: a group, or a name that some group refers to. */
  ghost predicate IsNode(gs: seq<Group>, n: string) { IsName(gs, n) || exists m :: Edge(gs, m, n) }

  lemma {:induction false} HasRoot(gs: seq<Group>, start: seq<string>, n: string) returns (r: string)
    requires !Cyclic(gs) && IsStart(gs, start) && IsNode(gs, n)
    ensures Root(gs, r, n) && r in start
    decreases Level(gs, n)
  {
    hide Cyclic;
    if Level(gs, n) == 0 {
      r := n;
      NoNamer(gs, n);
    } else {
      var m := LevelOfNamer(gs, n);
      assert IsName(gs, m);
      r := HasRoot(gs, start, m);
    }
  }

  lemma NoNamer(gs: seq<Group>, n: string)
    requires !Cyclic(gs)
    ensures Level(gs, n) == 0 <==> forall m :: !Edge(gs, m, n)
  {
    if m :| Edge(gs, m, n) {
      LevelOfEdge(gs, m, n);
    }
    if Level(gs, n) > 0 {
      var m := LevelOfNamer(gs, n);
    }
  }

  lemma {:induction false} RootIsStart(gs: seq<Group>, start: seq<string>, r: string, n: string)
    requires !Cyclic(gs) && IsStart(gs, start) && IsNode(gs, n) && Root(gs, r, n)
    ensures r in start
    decreases Level(gs, n)
  {
    hide Cyclic;
    if Level(gs, n) == 0 {
      NoNamer(gs, n);
    } else {
      var m := RootThroughNamer(gs, r, n);
      assert IsName(gs, m);
      RootIsStart(gs, start, r, m);
    }
  }

  /** `start[t]` is the last root of `n`. */
  ghost predicate LastRoot(gs: seq<Group>, start: seq<string>, n: string, t: nat) {
    t < |start| && Root(gs, start[t], n) && forall i | t < i < |start| :: !Root(gs, start[i], n)
  }

  lemma {:induction false} FindLastRoot(gs: seq<Group>, start: seq<string>, n: string, i: nat) returns (t: nat)
    requires i < |start| && Root(gs, start[i], n)
    ensures LastRoot(gs, start, n, t) && i <= t
    decreases |start| - i
  {
    if j :| i < j < |start| && Root(gs, start[j], n) {
      t := FindLastRoot(gs, start, n, j);
    } else {
      t := i;
    }
  }

  lemma HasLastRoot(gs: seq<Group>, start: seq<string>, n: string) returns (t: nat)
    requires !Cyclic(gs) && IsStart(gs, start) && IsNode(gs, n)
    ensures LastRoot(gs, start, n, t)
  {
    hide Root, Cyclic;
    var r := HasRoot(gs, start, n);
    var i :| 0 <= i < |start| && start[i] == r;
    t := FindLastRoot(gs, start, n, i);
  }

  // ---------- every node is retired ----------

  /** The last of some nodes of `done`. */
  lemma {:induction false} LastNamer(gs: seq<Group>, done: seq<string>, n: string, k: nat) returns (i: nat)
    requires k <= |done| && NamersIn(gs, done[..k], n) && exists m :: Edge(gs, m, n)
    ensures i < k && Edge(gs, done[i], n) && NamersIn(gs, done[..i + 1], n)
  {
    if k == 0 {
      assert false;
    } else if Edge(gs, done[k - 1], n) {
      i := k - 1;
    } else {
      forall m | Edge(gs, m, n)
        ensures m in done[..k - 1]
      {
        var j :| 0 <= j < k && done[..k][j] == m;
        assert done[..k - 1][j] == m;
      }
      i := LastNamer(gs, done, n, k - 1);
    }
  }

  lemma NamersRetired(gs: seq<Group>, start: seq<string>, done: seq<string>, n: string)
    requires Queue(gs, start, done) && DistinctNames(gs)
    requires NamersIn(gs, done, n) && exists m :: Edge(gs, m, n)
    ensures n in done
  {
    hide Freed, Batches, DistinctNames, Edge;
    assert done[..|done|] == done;
    var i := LastNamer(gs, done, n, |done|);
    ListOfEdge(gs, done[i], n);
    assert done[..i + 1][i] == done[i];
    FreedIff(gs, done[..i + 1], n);
    var f := Freed(gs, done[..i + 1]);
    var x :| 0 <= x < |f| && f[x] == n;
    BatchAt(gs, start, done, i, x);
  }

  /** Without cycles the queue empties only when every node has been retired. */
  lemma {:induction false} EveryNodeRetires(gs: seq<Group>, start: seq<string>, done: seq<string>, n: string)
    requires Queue(gs, start, done) && DistinctNames(gs) && !Cyclic(gs) && IsNode(gs, n)
    ensures n in done
    decreases Level(gs, n)
  {
    hide Cyclic, Freed, Batches, DistinctNames, Level;
    NoNamer(gs, n);
    StartIsFirst(gs, start, done);
    if Level(gs, n) > 0 {
      forall m | Edge(gs, m, n)
        ensures m in done
      {
        LevelOfEdge(gs, m, n);
        assert IsName(gs, m);
        EveryNodeRetires(gs, start, done, m);
      }
      NamersRetired(gs, start, done, n);
    } else {
      assert n in start;
    }
  }

  // ---------- by level ----------

  lemma StartLevel(gs: seq<Group>, start: seq<string>, n: string)
    requires IsStart(gs, start) && !Cyclic(gs) && IsNode(gs, n)
    ensures n in start <==> Level(gs, n) == 0
  {
    NoNamer(gs, n);
  }

  /** What the queue retires are nodes. */
  lemma RetiredIsNode(gs: seq<Group>, start: seq<string>, done: seq<string>, n: string)
    requires Queue(gs, start, done) && DistinctNames(gs) && n in done
    ensures IsNode(gs, n)
  {
    hide Freed, Batches, DistinctNames;
    if n !in start {
      var i := Releaser(gs, start, done, n);
    }
  }

  /** done[i] frees `n`, and is the last that names it. */
  ghost predicate Frees(gs: seq<Group>, done: seq<string>, i: nat, n: string) {
    && i < |done| && n in done && i < Pos(done, n)
    && n in Freed(gs, done[..i + 1]) && Edge(gs, done[i], n)
    && forall m | Edge(gs, m, n) :: m in done && Pos(done, m) <= i
  }

  lemma FindReleaser(gs: seq<Group>, start: seq<string>, done: seq<string>, n: string) returns (i: nat)
    requires Queue(gs, start, done) && DistinctNames(gs) && !Cyclic(gs) && n in done && Level(gs, n) > 0
    ensures Frees(gs, done, i, n)
  {
    hide Freed, Batches, Level, DistinctNames, Cyclic, Edge, NamersIn;
    RetiredIsNode(gs, start, done, n);
    StartLevel(gs, start, n);
    i := Releaser(gs, start, done, n);
  }

  /** The node that frees `n` is one level below. */
  lemma {:induction false} ReleaserLevel(gs: seq<Group>, start: seq<string>, done: seq<string>, i: nat, n: string)
    requires Queue(gs, start, done) && DistinctNames(gs) && !Cyclic(gs) && Frees(gs, done, i, n)
    ensures Level(gs, done[i]) + 1 == Level(gs, n)
    decreases Pos(done, n), 0
  {
    hide Queue, Freed, Level, DistinctNames, Cyclic, Edge;
    LevelOfEdge(gs, done[i], n);
    var m := LevelOfNamer(gs, n);
    LowerFirst(gs, start, done, Pos(done, m), i);
  }

  /** The queue retires the nodes level by level. */
  lemma {:induction false} LowerFirst(gs: seq<Group>, start: seq<string>, done: seq<string>, i: nat, j: nat)
    requires Queue(gs, start, done) && DistinctNames(gs) && !Cyclic(gs) && i <= j < |done|
    ensures Level(gs, done[i]) <= Level(gs, done[j])
    decreases j, 1
  {
    hide Freed, Batches, Level, DistinctNames, Cyclic, Edge;
    PosIs(done, i);
    PosIs(done, j);
    if i < j && Level(gs, done[i]) > 0 {
      var r := FindReleaser(gs, start, done, done[i]);
      ReleaserLevel(gs, start, done, r, done[i]);
      NotAtStart(gs, start, done, i, j);
      var s := FindReleaser(gs, start, done, done[j]);
      ReleaserLevel(gs, start, done, s, done[j]);
      if s < r {
        LaterBatch(gs, start, done, s, r, done[j], done[i]);
      }
      LowerFirst(gs, start, done, r, s);
    }
  }

  lemma NotAtStart(gs: seq<Group>, start: seq<string>, done: seq<string>, i: nat, j: nat)
    requires Queue(gs, start, done) && DistinctNames(gs) && !Cyclic(gs) && i < j < |done| && Level(gs, done[i]) > 0
    ensures Level(gs, done[j]) > 0
  {
    hide Freed, Batches, Level, DistinctNames, Cyclic;
    StartIsFirst(gs, start, done);
    RetiredIsNode(gs, start, done, done[i]);
    RetiredIsNode(gs, start, done, done[j]);
    StartLevel(gs, start, done[i]);
    StartLevel(gs, start, done[j]);
  }

  /** A node on a lower level is retired before one on a higher level. */
  lemma ByLevel(gs: seq<Group>, start: seq<string>, done: seq<string>, a: string, b: string)
    requires Queue(gs, start, done) && DistinctNames(gs) && !Cyclic(gs) && a in done && b in done
    requires Level(gs, a) < Level(gs, b)
    ensures Pos(done, a) < Pos(done, b)
  {
    hide Queue, Level, Cyclic, DistinctNames;
    if Pos(done, b) <= Pos(done, a) {
      LowerFirst(gs, start, done, Pos(done, b), Pos(done, a));
    }
  }

  // ---------- on one level, by last root ----------

  /** The node that frees `n` has the same last root. */
  lemma {:induction false} ReleaserRoot(
      gs: seq<Group>, start: seq<string>, done: seq<string>, i: nat, n: string, t: nat)
    requires Queue(gs, start, done) && DistinctNames(gs) && !Cyclic(gs)
    requires Frees(gs, done, i, n) && LastRoot(gs, start, n, t) && Level(gs, n) > 0
    ensures Level(gs, done[i]) + 1 == Level(gs, n) && LastRoot(gs, start, done[i], t)
    decreases Level(gs, n), 0
  {
    hide Freed, Batches, Level, DistinctNames, Cyclic, Edge;
    ReleaserLevel(gs, start, done, i, n);
    var p := done[i];
    var m := RootThroughNamer(gs, start[t], n);
    NamersLastRoot(gs, start, m, n, t);
    RetiredIsNode(gs, start, done, p);
    var u := HasLastRoot(gs, start, p);
    assert Namer(gs, start[u], p, n);
    RootOfNamer(gs, start[u], p, n);
    if u < t {
      ByLastRoot(gs, start, done, p, m, u, t);
      PosIs(done, i);
    }
  }

  lemma NamersLastRoot(gs: seq<Group>, start: seq<string>, m: string, n: string, t: nat)
    requires LastRoot(gs, start, n, t) && Namer(gs, start[t], m, n)
    ensures LastRoot(gs, start, m, t)
  {
    hide Level, Edge;
    forall i | t < i < |start|
      ensures !Root(gs, start[i], m)
    {
      if Namer(gs, start[i], m, n) {
        RootOfNamer(gs, start[i], m, n);
      }
    }
  }

  /** Of two nodes on a level, the one with the earlier last root is retired first. */
  lemma {:induction false} ByLastRoot(
      gs: seq<Group>, start: seq<string>, done: seq<string>, a: string, b: string, t: nat, u: nat)
    requires Queue(gs, start, done) && DistinctNames(gs) && !Cyclic(gs) && a in done && b in done
    requires Level(gs, a) == Level(gs, b) && LastRoot(gs, start, a, t) && LastRoot(gs, start, b, u) && t < u
    ensures Pos(done, a) < Pos(done, b)
    decreases Level(gs, a), 1
  {
    hide Freed, Batches, Level, DistinctNames, Cyclic, Edge;
    if Level(gs, a) == 0 {
      StartIsFirst(gs, start, done);
      PosIs(done, t);
      PosIs(done, u);
    } else {
      var i := FindReleaser(gs, start, done, a);
      var j := FindReleaser(gs, start, done, b);
      ReleaserRoot(gs, start, done, i, a, t);
      ReleaserRoot(gs, start, done, j, b, u);
      ByLastRoot(gs, start, done, done[i], done[j], t, u);
      PosIs(done, i);
      PosIs(done, j);
      LaterBatch(gs, start, done, i, j, a, b);
    }
  }

  // ---------- on one level, with one last root ----------

  /** `a` comes after `b`, on the same level, when `r` is the last root of both: the last that names `a`
      comes after all that name `b`, or also names `b` and lists it before. */
  ghost predicate Later(gs: seq<Group>, r: string, a: string, b: string)
    decreases Level(gs, a)
  {
    && 0 < Level(gs, a) == Level(gs, b)
    && exists pa | Namer(gs, r, pa, a) :: forall pb | Namer(gs, r, pb, b) ::
      Later(gs, r, pa, pb) || (pa == pb && ListedBefore(ListOf(gs, pa), b, a))
  }

  lemma {:induction false} LaterOneWay(gs: seq<Group>, r: string, a: string, b: string)
    requires DistinctNames(gs) && Later(gs, r, a, b)
    ensures !Later(gs, r, b, a)
    decreases Level(gs, a)
  {
    hide Level, Edge, Root, ListedBefore, DistinctNames;
    var pa :| Namer(gs, r, pa, a) && forall pb | Namer(gs, r, pb, b) ::
      Later(gs, r, pa, pb) || (pa == pb && ListedBefore(ListOf(gs, pa), b, a));
    if Later(gs, r, b, a) {
      var pb :| Namer(gs, r, pb, b) && forall pa | Namer(gs, r, pa, a) ::
        Later(gs, r, pb, pa) || (pa == pb && ListedBefore(ListOf(gs, pb), a, b));
      NotBothListed(gs, pa, a, b);
      if Later(gs, r, pa, pb) {
        LaterOneWay(gs, r, pa, pb);
      }
    }
  }

  lemma NotBothListed(gs: seq<Group>, p: string, a: string, b: string)
    ensures !(ListedBefore(ListOf(gs, p), a, b) && ListedBefore(ListOf(gs, p), b, a))
  {
    var ps := ListOf(gs, p);
    if a == b {
      assert !ListedBefore(ps, a, b);
    } else if a in ps && b in ps {
      ListedOneWay(ps, a, b);
    }
  }

  /** Which of the two that one node frees comes first. */
  lemma FreedByOne(gs: seq<Group>, start: seq<string>, done: seq<string>, i: nat, a: string, b: string)
    requires Queue(gs, start, done) && DistinctNames(gs) && Frees(gs, done, i, a) && Frees(gs, done, i, b)
    requires Pos(done, a) < Pos(done, b)
    ensures ListedBefore(ListOf(gs, done[i]), a, b)
  {
    hide Queue, DistinctNames, ListedBefore, Freed;
    ListOfEdge(gs, done[i], a);
    ListOfEdge(gs, done[i], b);
    ListedOneWay(ListOf(gs, done[i]), a, b);
    if ListedBefore(ListOf(gs, done[i]), b, a) {
      SameBatch(gs, start, done, i, b, a);
    }
  }

  /** Of two nodes with one last root, the one that is retired later is `Later`. */
  lemma {:induction false} LaterIfAfter(
      gs: seq<Group>, start: seq<string>, done: seq<string>, a: string, b: string, t: nat)
    requires Queue(gs, start, done) && DistinctNames(gs) && !Cyclic(gs) && a in done && b in done
    requires Level(gs, a) == Level(gs, b) && LastRoot(gs, start, a, t) && LastRoot(gs, start, b, t)
    requires Pos(done, b) < Pos(done, a)
    ensures Later(gs, start[t], a, b)
    decreases Level(gs, a)
  {
    hide Freed, Batches, Level, DistinctNames, Cyclic, Edge;
    var r := start[t];
    assert Level(gs, a) > 0;
    var i := FindReleaser(gs, start, done, a);
    var j := FindReleaser(gs, start, done, b);
    ReleaserRoot(gs, start, done, i, a, t);
    if i < j {
      LaterBatch(gs, start, done, i, j, a, b);
    }
    var pa := done[i];
    PosIs(done, i);
    assert Namer(gs, r, pa, a);
    forall pb | Namer(gs, r, pb, b)
      ensures Later(gs, r, pa, pb) || (pa == pb && ListedBefore(ListOf(gs, pa), b, a))
    {
      assert Pos(done, pb) <= j;
      if pa == pb {
        FreedByOne(gs, start, done, i, b, a);
      } else {
        NamersLastRoot(gs, start, pb, b, t);
        LaterIfAfter(gs, start, done, pa, pb, t);
      }
    }
  }

  // ---------- every run ----------

  /** Every run of the queue retires `a` after `b`: `a` is on a higher level, or on the same, and comes
      after `b` whichever root of `b` is last in the start. */
  ghost predicate AlwaysAfter(gs: seq<Group>, a: string, b: string) {
    || Level(gs, a) > Level(gs, b)
    || (Level(gs, a) == Level(gs, b) && forall r | Root(gs, r, b) :: Later(gs, r, a, b))
  }

  /** In every run, if AlwaysAfter says so. */
  lemma AfterInRun(gs: seq<Group>, start: seq<string>, done: seq<string>, a: string, b: string)
    requires Queue(gs, start, done) && DistinctNames(gs) && !Cyclic(gs) && a in done && b in done
    requires AlwaysAfter(gs, a, b)
    ensures Pos(done, b) < Pos(done, a)
  {
    hide Freed, Batches, Level, DistinctNames, Cyclic, Root, Edge, IsNode;
    if Level(gs, a) > Level(gs, b) {
      ByLevel(gs, start, done, b, a);
    } else {
      RetiredIsNode(gs, start, done, b);
      var u := HasLastRoot(gs, start, b);
      var r := start[u];
      LaterHasRoot(gs, r, a, b);
      var t := FindLastRoot(gs, start, a, u);
      LaterOneWay(gs, r, a, b);
      if u < t {
        ByLastRoot(gs, start, done, b, a, u, t);
      } else if Pos(done, a) < Pos(done, b) {
        LaterIfAfter(gs, start, done, b, a, t);
      }
    }
  }

  lemma LaterHasRoot(gs: seq<Group>, r: string, a: string, b: string)
    requires Later(gs, r, a, b)
    ensures Root(gs, r, a)
  {
    hide Level, Edge;
    var pa :| Namer(gs, r, pa, a);
    RootOfNamer(gs, r, pa, a);
  }

  /** Otherwise not in a run whose start ends with the right root. */
  lemma NotAfterInRun(gs: seq<Group>, start: seq<string>, done: seq<string>, a: string, b: string, r: string)
    requires Queue(gs, start, done) && DistinctNames(gs) && !Cyclic(gs) && a in done && b in done
    requires Level(gs, a) <= Level(gs, b)
    requires Level(gs, a) == Level(gs, b) ==>
      Root(gs, r, b) && !Later(gs, r, a, b) && start != [] && start[|start| - 1] == r
    ensures Pos(done, a) <= Pos(done, b)
  {
    hide Freed, Batches, Level, DistinctNames, Cyclic, Root, Edge, IsNode;
    if Level(gs, a) < Level(gs, b) {
      ByLevel(gs, start, done, a, b);
    } else {
      RetiredIsNode(gs, start, done, a);
      var t := HasLastRoot(gs, start, a);
      var u := |start| - 1;
      assert LastRoot(gs, start, b, u);
      if t < u {
        ByLastRoot(gs, start, done, a, b, t, u);
      } else if Pos(done, b) < Pos(done, a) {
        LaterIfAfter(gs, start, done, a, b, t);
      }
    }
  }
}
