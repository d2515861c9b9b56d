/** Where a run of the queue puts a node: after the last of those that name it, in the order in which that
    one lists what it frees. */
module QueueLaws {
  import opened Common
  import opened GroupGraph
  import opened QueueOrder
  import opened Levels

  /** The place of `x`. */
  function Pos(s: seq<string>, x: string): (i: nat)
    requires x in s
    ensures i < |s| && s[i] == x
  {
    if s[0] == x then 0 else 1 + Pos(s[1..], x)
  }

  lemma PosIs(s: seq<string>, i: nat)
    requires NoDup(s) && i < |s|
    ensures Pos(s, s[i]) == i
  {
  }

  /** The last time `a` is listed comes before the last time `b` is. */
  ghost predicate ListedBefore(ps: seq<string>, a: string, b: string) {
    exists k | 0 <= k < |ps| :: ps[k] == a && a !in ps[k + 1..] && b in ps[k + 1..]
  }

  lemma {:induction false} LastListing(ps: seq<string>, x: string) returns (k: nat)
    requires x in ps
    ensures k < |ps| && ps[k] == x && x !in ps[k + 1..]
  {
    var n := |ps| - 1;
    if ps[n] == x {
      k := n;
    } else {
      k := LastListing(ps[..n], x);
      assert ps[k + 1..] == ps[..n][k + 1..] + [ps[n]];
    }
  }

  lemma ListedAt(ps: seq<string>, i: nat, k: nat)
    requires i < |ps| && k < |ps|
    ensures i < k ==> ps[k] in ps[i + 1..]
  {
    if i < k {
      assert ps[i + 1..][k - i - 1] == ps[k];
    }
  }

  /** A place of `x` after which it is not listed is the last. */
  lemma LastListingIs(ps: seq<string>, x: string, i: nat, k: nat)
    requires i < |ps| && k < |ps| && ps[i] == ps[k] == x && x !in ps[i + 1..] && x !in ps[k + 1..]
    ensures i == k
  {
    ListedAt(ps, i, k);
    ListedAt(ps, k, i);
  }

  lemma ListedBeforeIff(ps: seq<string>, a: string, b: string, i: nat, j: nat)
    requires i < |ps| && ps[i] == a && a !in ps[i + 1..]
    requires j < |ps| && ps[j] == b && b !in ps[j + 1..] && a != b
    ensures ListedBefore(ps, a, b) <==> i < j
  {
    ListedAt(ps, i, j);
    if k :| 0 <= k < |ps| && ps[k] == a && a !in ps[k + 1..] && b in ps[k + 1..] {
      LastListingIs(ps, a, i, k);
      ListedAfter(ps, b, k, j);
    }
  }

  lemma ListedOneWay(ps: seq<string>, a: string, b: string)
    requires a in ps && b in ps && a != b
    ensures ListedBefore(ps, a, b) <==> !ListedBefore(ps, b, a)
  {
    var i := LastListing(ps, a);
    var j := LastListing(ps, b);
    ListedBeforeIff(ps, a, b, i, j);
    ListedBeforeIff(ps, b, a, j, i);
  }

  // ---------- what a node frees ----------

  lemma {:induction false} FreedMember(gs: seq<Group>, done: seq<string>, ps: seq<string>, k: nat, x: string)
    requires k <= |ps|
    ensures x in FreedUpTo(gs, done, ps, k)
       <==> NamersIn(gs, done, x) && exists j | 0 <= j < k :: ps[j] == x && x !in ps[j + 1..]
  {
    if k > 0 {
      FreedMember(gs, done, ps, k - 1, x);
    }
  }

  lemma FreedIff(gs: seq<Group>, done: seq<string>, x: string)
    requires done != []
    ensures x in Freed(gs, done) <==> x in ListOf(gs, done[|done| - 1]) && NamersIn(gs, done, x)
  {
    var ps := ListOf(gs, done[|done| - 1]);
    FreedMember(gs, done, ps, |ps|, x);
    if x in ps {
      var k := LastListing(ps, x);
    }
  }

  lemma {:induction false} FreedInOrder(gs: seq<Group>, done: seq<string>, ps: seq<string>, k: nat,
                                        a: string, b: string, i: nat, j: nat) returns (x: nat, y: nat)
    requires i < j < k <= |ps| && ps[i] == a && a !in ps[i + 1..] && ps[j] == b && b !in ps[j + 1..]
    requires NamersIn(gs, done, a) && NamersIn(gs, done, b)
    ensures var f := FreedUpTo(gs, done, ps, k); x < y < |f| && f[x] == a && f[y] == b
  {
    var before := FreedUpTo(gs, done, ps, k - 1);
    if j == k - 1 {
      FreedMember(gs, done, ps, k - 1, a);
      x :| 0 <= x < |before| && before[x] == a;
      y := |before|;
    } else {
      x, y := FreedInOrder(gs, done, ps, k - 1, a, b, i, j);
    }
  }

  // ---------- where the batches are ----------

  lemma {:induction false} BatchesPrefix(gs: seq<Group>, done: seq<string>, i: nat, j: nat)
    requires i <= j <= |done|
    ensures Batches(gs, done, i) <= Batches(gs, done, j)
  {
    if i < j {
      BatchesPrefix(gs, done, i, j - 1);
    }
  }

  /** The x-th node that done[i] frees. */
  lemma BatchAt(gs: seq<Group>, start: seq<string>, done: seq<string>, i: nat, x: nat)
    requires Queue(gs, start, done) && i < |done| && x < |Freed(gs, done[..i + 1])|
    ensures var p := |start| + |Batches(gs, done, i)| + x;
      && i < p < |start| + |Batches(gs, done, i + 1)| <= |done|
      && done[p] == Freed(gs, done[..i + 1])[x] && Pos(done, done[p]) == p
  {
    hide Freed;
    BatchesPrefix(gs, done, i + 1, |done|);
    var p := |start| + |Batches(gs, done, i)| + x;
    assert done + [] == done;
    assert Batches(gs, done, i + 1)[|Batches(gs, done, i)| + x] == Freed(gs, done[..i + 1])[x];
    PosIs(done, p);
  }

  lemma {:induction false} InSomeBatch(gs: seq<Group>, done: seq<string>, k: nat, n: string) returns (i: nat)
    requires k <= |done| && n in Batches(gs, done, k)
    ensures i < k && n in Freed(gs, done[..i + 1])
  {
    hide Freed;
    if n in Freed(gs, done[..k]) {
      i := k - 1;
    } else {
      i := InSomeBatch(gs, done, k - 1, n);
    }
  }

  /** A node that did not wait from the start was freed by the last of those that name it. */
  lemma Releaser(gs: seq<Group>, start: seq<string>, done: seq<string>, n: string) returns (i: nat)
    requires Queue(gs, start, done) && DistinctNames(gs) && n in done && n !in start
    ensures i < |done| && n in Freed(gs, done[..i + 1]) && Edge(gs, done[i], n) && NamersIn(gs, done[..i + 1], n)
    ensures i < Pos(done, n)
    ensures forall m | Edge(gs, m, n) :: m in done && Pos(done, m) <= i
  {
    hide Freed;
    assert done + [] == done;
    i := InSomeBatch(gs, done, |done|, n);
    var f := Freed(gs, done[..i + 1]);
    var x :| 0 <= x < |f| && f[x] == n;
    BatchAt(gs, start, done, i, x);
    FreedIff(gs, done[..i + 1], n);
    assert done[..i + 1][i] == done[i];
    ListOfEdge(gs, done[i], n);
    forall m | Edge(gs, m, n)
      ensures m in done && Pos(done, m) <= i
    {
      var k :| 0 <= k < i + 1 && done[..i + 1][k] == m;
      assert done[k] == m;
      PosIs(done, k);
    }
  }

  /** What is freed later comes later. */
  lemma LaterBatch(gs: seq<Group>, start: seq<string>, done: seq<string>, i: nat, j: nat, a: string, b: string)
    requires Queue(gs, start, done) && i < j < |done|
    requires a in Freed(gs, done[..i + 1]) && b in Freed(gs, done[..j + 1])
    ensures a in done && b in done && Pos(done, a) < Pos(done, b)
  {
    hide Freed, Batches;
    var f, g := Freed(gs, done[..i + 1]), Freed(gs, done[..j + 1]);
    var x :| 0 <= x < |f| && f[x] == a;
    var y :| 0 <= y < |g| && g[y] == b;
    BatchAt(gs, start, done, i, x);
    BatchAt(gs, start, done, j, y);
    BatchesPrefix(gs, done, i + 1, j);
  }

  /** What one node frees comes in the order in which it lists it. */
  lemma SameBatch(gs: seq<Group>, start: seq<string>, done: seq<string>, i: nat, a: string, b: string)
    requires Queue(gs, start, done) && i < |done|
    requires a in Freed(gs, done[..i + 1]) && b in Freed(gs, done[..i + 1])
    requires ListedBefore(ListOf(gs, done[i]), a, b)
    ensures a in done && b in done && Pos(done, a) < Pos(done, b)
  {
    var ps := ListOf(gs, done[i]);
    var now := done[..i + 1];
    assert now[i] == done[i];
    FreedIff(gs, now, a);
    FreedIff(gs, now, b);
    var k :| 0 <= k < |ps| && ps[k] == a && a !in ps[k + 1..] && b in ps[k + 1..];
    var l := LastListing(ps, b);
    ListedAfter(ps, b, k, l);
    var x, y := FreedInOrder(gs, now, ps, |ps|, a, b, k, l);
    BatchAt(gs, start, done, i, x);
    BatchAt(gs, start, done, i, y);
  }

  lemma ListedAfter(ps: seq<string>, b: string, k: nat, l: nat)
    requires k < |ps| && b in ps[k + 1..] && l < |ps| && ps[l] == b && b !in ps[l + 1..]
    ensures k < l
  {
    var j :| 0 <= j < |ps[k + 1..]| && ps[k + 1..][j] == b;
    ListedAt(ps, l, k + 1 + j);
  }

  lemma StartIsFirst(gs: seq<Group>, start: seq<string>, done: seq<string>)
    requires Queue(gs, start, done)
    ensures start <= done
    ensures forall i | 0 <= i < |done| :: done[i] in start <==> i < |start|
  {
    assert done + [] == done;
    forall i | 0 <= i < |done|
      ensures done[i] in start <==> i < |start|
    {
      if i < |start| {
        assert done[i] == start[i];
      } else {
        assert forall k | 0 <= k < |start| :: done[k] == start[k];
      }
    }
  }
}
