/** The level of a node: the length of the longest walk of references that ends in it. */
module Levels {
  import opened Common
  import opened GroupGraph

  /** Some walk of k references ends in `n`. */
  ghost predicate Deep(gs: seq<Group>, n: string, k: nat)
    decreases k
  {
    k == 0 || exists m :: Edge(gs, m, n) && Deep(gs, m, k - 1)
  }

  ghost function LevelUpTo(gs: seq<Group>, n: string, b: nat): (k: nat)
    ensures k <= b && Deep(gs, n, k)
    ensures k < b ==> !Deep(gs, n, k + 1)
    decreases b
  {
    if Deep(gs, n, b) then b else LevelUpTo(gs, n, b - 1)
  }

  /** No walk has more references than there are groups, unless it goes in a circle. */
  ghost function Level(gs: seq<Group>, n: string): nat { LevelUpTo(gs, n, |NamesOf(gs)|) }

  lemma {:induction false} DeepWalk(gs: seq<Group>, n: string, k: nat) returns (p: seq<string>)
    requires Deep(gs, n, k)
    ensures |p| == k + 1 && p[k] == n && forall i | 0 <= i < k :: EdgeAt(gs, p, i)
    decreases k
  {
    if k == 0 {
      p := [n];
    } else {
      var m :| Edge(gs, m, n) && Deep(gs, m, k - 1);
      var q := DeepWalk(gs, m, k - 1);
      p := q + [n];
      forall i | 0 <= i < k
        ensures EdgeAt(gs, p, i)
      {
        assert i < k - 1 ==> EdgeAt(gs, q, i);
      }
    }
  }

  lemma NotTooDeep(gs: seq<Group>, n: string, k: nat)
    requires !Cyclic(gs) && k > |NamesOf(gs)|
    ensures !Deep(gs, n, k)
  {
    if Deep(gs, n, k) {
      var p := DeepWalk(gs, n, k);
      var c := NamesOf(gs);
      forall x | x in p[..k]
        ensures x in c
      {
        var i :| 0 <= i < k && p[i] == x;
        assert EdgeAt(gs, p, i);
      }
      var i, j := Pigeonhole(p[..k], c);
      var q := p[i..j + 1];
      forall x | 0 <= x < |q| - 1
        ensures EdgeAt(gs, q, x)
      {
        assert EdgeAt(gs, p, i + x);
      }
      assert Cycle(gs, q);
    }
  }

  lemma {:induction false} DeepDown(gs: seq<Group>, n: string, k: nat)
    requires Deep(gs, n, k + 1)
    ensures Deep(gs, n, k)
    decreases k
  {
    if k > 0 {
      var m :| Edge(gs, m, n) && Deep(gs, m, k);
      DeepDown(gs, m, k - 1);
    }
  }

  lemma {:induction false} DeepBelow(gs: seq<Group>, n: string, k: nat, j: nat)
    requires Deep(gs, n, k) && j <= k
    ensures Deep(gs, n, j)
    decreases k
  {
    if j < k {
      DeepDown(gs, n, k - 1);
      DeepBelow(gs, n, k - 1, j);
    }
  }

  /** The level is the length of the longest walk that ends in `n`. */
  lemma LevelIsLongestWalk(gs: seq<Group>, n: string, k: nat)
    requires !Cyclic(gs)
    ensures Deep(gs, n, k) <==> k <= Level(gs, n)
  {
    var l := Level(gs, n);
    if k <= l {
      DeepBelow(gs, n, l, k);
    } else if Deep(gs, n, k) {
      DeepBelow(gs, n, k, l + 1);
      if l == |NamesOf(gs)| {
        NotTooDeep(gs, n, l + 1);
      }
    }
  }

  lemma LevelOfEdge(gs: seq<Group>, m: string, n: string)
    requires !Cyclic(gs) && Edge(gs, m, n)
    ensures Level(gs, m) < Level(gs, n)
  {
    LevelIsLongestWalk(gs, n, Level(gs, m) + 1);
  }

  lemma LevelOfNamer(gs: seq<Group>, n: string) returns (m: string)
    requires !Cyclic(gs) && Level(gs, n) > 0
    ensures Edge(gs, m, n) && Level(gs, m) + 1 == Level(gs, n)
  {
    var l := Level(gs, n);
    m :| Edge(gs, m, n) && Deep(gs, m, l - 1);
    LevelIsLongestWalk(gs, m, l - 1);
    LevelOfEdge(gs, m, n);
  }

  /** What a walk reaches is on a higher level. */
  lemma {:induction false} LevelOfWalk(gs: seq<Group>, p: seq<string>, i: nat)
    requires !Cyclic(gs) && Walk(gs, p) && 0 < i < |p|
    ensures Level(gs, p[0]) < Level(gs, p[i])
  {
    assert EdgeAt(gs, p, i - 1);
    LevelOfEdge(gs, p[i - 1], p[i]);
    if i > 1 {
      LevelOfWalk(gs, p, i - 1);
    }
  }
}
