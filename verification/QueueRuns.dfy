/** Whatever order the queue starts with, it has a run. */
module QueueRuns {
  import opened Common
  import opened GroupGraph
  import opened QueueOrder
  import opened QueueLaws
  import opened Levels
  import opened RootOrder

  ghost function NodesOf(gs: seq<Group>): set<string> {
    NamesOf(gs) + set g, n | g in gs && n in g.proxies :: n
  }

  lemma {:induction false} FreedOnce(gs: seq<Group>, done: seq<string>, ps: seq<string>, k: nat)
    requires k <= |ps|
    ensures NoDup(FreedUpTo(gs, done, ps, k))
  {
    if k > 0 {
      FreedOnce(gs, done, ps, k - 1);
      FreedMember(gs, done, ps, k - 1, ps[k - 1]);
      forall j | 0 <= j < k - 1
        ensures !(ps[j] == ps[k - 1] && ps[j] !in ps[j + 1..])
      {
        ListedAt(ps, j, k - 1);
      }
    }
  }

  /** What is retired or waiting, so far, is there once. */
  ghost predicate Going(gs: seq<Group>, start: seq<string>, done: seq<string>, queue: seq<string>) {
    && Queueing(gs, start, done, queue) && NoDup(done + queue)
    && forall n | n in done + queue :: n in NodesOf(gs)
  }

  /** What the first of the queue frees has not been freed before: it waited for that one. */
  lemma FreedIsNew(gs: seq<Group>, start: seq<string>, done: seq<string>, queue: seq<string>, n: string)
    requires Going(gs, start, done, queue) && queue != [] && DistinctNames(gs)
    requires n in Freed(gs, done + [queue[0]])
    ensures n !in done + queue && n in NodesOf(gs)
  {
    hide Freed, FreedUpTo, Batches, DistinctNames;
    var x := queue[0];
    var longer := done + [x];
    FreedIff(gs, longer, n);
    ListOfEdge(gs, x, n);
    assert longer[|longer| - 1] == x;
    assert (done + queue)[|done|] == x;
    assert x !in done by {
      assert forall i | 0 <= i < |done| :: (done + queue)[i] == done[i];
    }
    if n in Batches(gs, done, |done|) {
      var i := InSomeBatch(gs, done, |done|, n);
      FreedIff(gs, done[..i + 1], n);
    }
  }

  lemma GoingNext(gs: seq<Group>, start: seq<string>, done: seq<string>, queue: seq<string>)
    requires Going(gs, start, done, queue) && queue != [] && DistinctNames(gs)
    ensures Going(gs, start, done + [queue[0]], queue[1..] + Freed(gs, done + [queue[0]]))
  {
    hide DistinctNames, Queueing;
    var longer := done + [queue[0]];
    var f := Freed(gs, longer);
    assert longer + (queue[1..] + f) == (done + queue) + f;
    assert longer[|longer| - 1] == queue[0];
    assert (done + queue)[|done|] == queue[0];
    assert forall i | 0 <= i < |done| :: (done + queue)[i] == done[i];
    QueueingNext(gs, start, done, queue);
    FreedOnce(gs, longer, ListOf(gs, queue[0]), |ListOf(gs, queue[0])|);
    forall n | n in f
      ensures n !in done + queue && n in NodesOf(gs)
    {
      FreedIsNew(gs, start, done, queue, n);
    }
    NoDupAppend(done + queue, f);
  }

  lemma NoDupAppend<A>(s: seq<A>, t: seq<A>)
    requires NoDup(s) && NoDup(t) && forall x | x in t :: x !in s
    ensures NoDup(s + t)
  {
    forall i, j | 0 <= i < j < |s + t|
      ensures (s + t)[i] != (s + t)[j]
    {
      if i < |s| <= j {
        assert (s + t)[j] in t;
      }
    }
  }

  lemma {:induction false} NoDupFits<A>(s: seq<A>, c: set<A>)
    requires NoDup(s) && forall x | x in s :: x in c
    ensures |s| <= |c|
  {
    if |s| > |c| {
      var i, j := Pigeonhole(s, c);
    }
  }

  lemma {:induction false} RunOn(gs: seq<Group>, start: seq<string>, done: seq<string>, queue: seq<string>)
    returns (all: seq<string>)
    requires Going(gs, start, done, queue) && DistinctNames(gs)
    ensures Queue(gs, start, all)
    decreases |NodesOf(gs)| - |done|
  {
    hide DistinctNames, Queueing, Freed;
    if queue == [] {
      all := done;
    } else {
      NoDupFits(done + queue, NodesOf(gs));
      GoingNext(gs, start, done, queue);
      all := RunOn(gs, start, done + [queue[0]], queue[1..] + Freed(gs, done + [queue[0]]));
    }
  }

  lemma SomeRun(gs: seq<Group>, start: seq<string>) returns (done: seq<string>)
    requires IsStart(gs, start) && DistinctNames(gs)
    ensures Queue(gs, start, done)
  {
    hide DistinctNames;
    QueueingStarts(gs, start);
    assert [] + start == start;
    done := RunOn(gs, start, [], start);
  }

  // ---------- starts ----------

  lemma {:induction false} Listing(c: set<string>) returns (s: seq<string>)
    ensures NoDup(s) && forall n :: n in s <==> n in c
  {
    if c == {} {
      s := [];
    } else {
      var n :| n in c;
      var rest := Listing(c - {n});
      s := rest + [n];
    }
  }

  ghost function Starting(gs: seq<Group>): set<string> {
    set g | g in gs && (forall m :: !Edge(gs, m, g.name)) :: g.name
  }

  /** Some start ends with `r`. */
  lemma StartEndsWith(gs: seq<Group>, r: string) returns (start: seq<string>)
    requires r in Starting(gs)
    ensures IsStart(gs, start) && start != [] && start[|start| - 1] == r
  {
    hide Edge;
    var rest := Listing(Starting(gs) - {r});
    start := rest + [r];
    forall n
      ensures n in start <==> n in Starting(gs)
    {
    }
  }

  lemma SomeStart(gs: seq<Group>) returns (start: seq<string>)
    ensures IsStart(gs, start)
  {
    hide Edge;
    start := Listing(Starting(gs));
  }

  /** Every run of the queue retires `a` after `b`. */
  ghost predicate EveryRunAfter(gs: seq<Group>, a: string, b: string) {
    forall start, done | Queue(gs, start, done) :: a in done && b in done && Pos(done, b) < Pos(done, a)
  }

  /** Exactly when AlwaysAfter says so, for any two nodes. */
  lemma EveryRunAfterIff(gs: seq<Group>, a: string, b: string)
    requires DistinctNames(gs) && !Cyclic(gs) && IsNode(gs, a) && IsNode(gs, b)
    ensures EveryRunAfter(gs, a, b) <==> AlwaysAfter(gs, a, b)
  {
    hide Queue, DistinctNames, Cyclic, AlwaysAfter, Later, Level, Edge;
    if AlwaysAfter(gs, a, b) {
      forall start, done | Queue(gs, start, done)
        ensures a in done && b in done && Pos(done, b) < Pos(done, a)
      {
        EveryNodeRetires(gs, start, done, a);
        EveryNodeRetires(gs, start, done, b);
        AfterInRun(gs, start, done, a, b);
      }
    } else {
      var start, done := RunAgainst(gs, a, b);
    }
  }

  /** A run that does not retire `a` after `b`. */
  lemma RunAgainst(gs: seq<Group>, a: string, b: string) returns (start: seq<string>, done: seq<string>)
    requires DistinctNames(gs) && !Cyclic(gs) && IsNode(gs, a) && IsNode(gs, b) && !AlwaysAfter(gs, a, b)
    ensures Queue(gs, start, done) && a in done && b in done && Pos(done, a) <= Pos(done, b)
  {
    hide Queue, DistinctNames, Cyclic, Later, Level, Edge, IsNode, Root;
    start := SomeStart(gs);
    var r := b;
    if Level(gs, a) == Level(gs, b) {
      r :| Root(gs, r, b) && !Later(gs, r, a, b);
      RootIsStart(gs, start, r, b);
      start := StartEndsWith(gs, r);
    }
    done := SomeRun(gs, start);
    EveryNodeRetires(gs, start, done, a);
    EveryNodeRetires(gs, start, done, b);
    NotAfterInRun(gs, start, done, a, b, r);
  }
}
