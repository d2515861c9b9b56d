/** The order in which the first-in first-out queue of the sort retires the nodes: the nodes that nobody names,
    in any order, and then what each retired node frees in its turn. */
module QueueOrder {
  import opened Common
  import opened GroupGraph

  /** The references of the group `n`; a node that is no group has none. */
  function ListOf(gs: seq<Group>, n: string): seq<string> {
    if gs == [] then []
    else if gs[|gs| - 1].name == n then gs[|gs| - 1].proxies
    else ListOf(gs[..|gs| - 1], n)
  }

  lemma {:induction false} ListOfGroup(gs: seq<Group>, g: Group)
    requires DistinctNames(gs) && g in gs
    ensures ListOf(gs, g.name) == g.proxies
  {
    var n := |gs| - 1;
    if gs[n] != g {
      assert gs == gs[..n] + [gs[n]];
      assert g in gs[..n];
      ListOfGroup(gs[..n], g);
      var i :| 0 <= i < n && gs[i] == g;
    }
  }

  lemma {:induction false} ListOfStranger(gs: seq<Group>, n: string)
    requires !IsName(gs, n)
    ensures ListOf(gs, n) == []
  {
    if gs != [] {
      assert gs[|gs| - 1] in gs;
      assert forall g | g in gs[..|gs| - 1] :: g in gs;
      ListOfStranger(gs[..|gs| - 1], n);
    }
  }

  lemma ListOfEdge(gs: seq<Group>, m: string, n: string)
    requires DistinctNames(gs)
    ensures Edge(gs, m, n) <==> n in ListOf(gs, m)
  {
    if g :| g in gs && g.name == m {
      ListOfGroup(gs, g);
      EdgeOfGroup(gs, g, n);
    } else {
      ListOfStranger(gs, m);
    }
  }

  /** All that name `n` are among `done`. */
  ghost predicate NamersIn(gs: seq<Group>, done: seq<string>, n: string) {
    forall m | Edge(gs, m, n) :: m in done
  }

  /** Of the first k references, those that are listed for the last time and have no other namer left. */
  ghost function FreedUpTo(gs: seq<Group>, done: seq<string>, ps: seq<string>, k: nat): seq<string>
    requires k <= |ps|
  {
    if k == 0 then []
    else
      var n := ps[k - 1];
      FreedUpTo(gs, done, ps, k - 1) + (if n !in ps[k..] && NamersIn(gs, done, n) then [n] else [])
  }

  /** What the last node of `done` frees. */
  ghost function Freed(gs: seq<Group>, done: seq<string>): seq<string>
    requires done != []
  {
    var ps := ListOf(gs, done[|done| - 1]);
    FreedUpTo(gs, done, ps, |ps|)
  }

  /** What the first k nodes of `done` free, in turn. */
  ghost function Batches(gs: seq<Group>, done: seq<string>, k: nat): seq<string>
    requires k <= |done|
  {
    if k == 0 then [] else Batches(gs, done, k - 1) + Freed(gs, done[..k])
  }

  /** The groups that nobody names, each once. */
  ghost predicate IsStart(gs: seq<Group>, start: seq<string>) {
    NoDup(start) && forall n :: n in start <==> IsName(gs, n) && forall m :: !Edge(gs, m, n)
  }

  /** `done` has been retired and `queue` is waiting.  The last line says that each node was waiting when
      it was retired. */
  ghost predicate Queueing(gs: seq<Group>, start: seq<string>, done: seq<string>, queue: seq<string>) {
    && IsStart(gs, start) && NoDup(done) && done + queue == start + Batches(gs, done, |done|)
    && forall i | 0 <= i < |done| :: i < |start| + |Batches(gs, done, i)|
  }

  /** A whole run of the queue. */
  ghost predicate Queue(gs: seq<Group>, start: seq<string>, done: seq<string>) {
    Queueing(gs, start, done, [])
  }

  /** The groups of `done`, the last first: the order in which they are written. */
  ghost function Output(gs: seq<Group>, done: seq<string>): seq<string> {
    if done == [] then []
    else
      var n := |done| - 1;
      (if IsName(gs, done[n]) then [done[n]] else []) + Output(gs, done[..n])
  }

  lemma {:induction false} BatchesOfPrefix(gs: seq<Group>, done: seq<string>, x: string, k: nat)
    requires k <= |done|
    ensures Batches(gs, done + [x], k) == Batches(gs, done, k)
  {
    if k > 0 {
      BatchesOfPrefix(gs, done, x, k - 1);
      assert (done + [x])[..k] == done[..k];
    }
  }

  lemma OutputNext(gs: seq<Group>, done: seq<string>, x: string)
    ensures Output(gs, done + [x]) == (if IsName(gs, x) then [x] else []) + Output(gs, done)
  {
    assert (done + [x])[..|done|] == done;
  }

  lemma QueueingStarts(gs: seq<Group>, start: seq<string>)
    requires IsStart(gs, start)
    ensures Queueing(gs, start, [], start)
  {
    assert NoDup<string>([]);
  }

  /** One round: the first of the queue is retired and what it frees joins the queue. */
  lemma QueueingNext(gs: seq<Group>, start: seq<string>, done: seq<string>, queue: seq<string>)
    requires Queueing(gs, start, done, queue) && queue != [] && queue[0] !in done
    ensures Queueing(gs, start, done + [queue[0]], queue[1..] + Freed(gs, done + [queue[0]]))
  {
    hide Freed;
    var x := queue[0];
    var longer := done + [x];
    forall k | 0 <= k <= |done|
      ensures Batches(gs, longer, k) == Batches(gs, done, k)
    {
      BatchesOfPrefix(gs, done, x, k);
    }
    assert |done + queue| == |start + Batches(gs, done, |done|)|;
    assert longer[..|longer|] == longer;
    assert done + queue == longer + queue[1..];
    assert longer + (queue[1..] + Freed(gs, longer)) == (longer + queue[1..]) + Freed(gs, longer);
    assert (start + Batches(gs, done, |done|)) + Freed(gs, longer)
        == start + (Batches(gs, done, |done|) + Freed(gs, longer));
  }
}
