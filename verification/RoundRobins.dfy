/** The round-robin strategy of the load-balance group. */
module RoundRobins {
  import opened Common
  import opened Modulus

  // ---------- one call ----------

  /** How many proxies are passed over before the first live one from idx on; n if there is none. */
  function Skip(alive: seq<bool>, idx: nat, i: nat): (r: nat)
    requires i <= |alive| && alive != []
    ensures i <= r <= |alive|
    ensures r < |alive| ==> alive[Onward(idx, r, |alive|)]
    ensures forall k | i <= k < r :: !alive[Onward(idx, k, |alive|)]
    decreases |alive| - i
  {
    if i == |alive| || alive[Onward(idx, i, |alive|)] then i else Skip(alive, idx, i + 1)
  }

  /** The index chosen, and the next starting index after a touched call. */
  function Pick(alive: seq<bool>, idx: nat): (nat, nat)
    requires alive != []
  {
    var i := Skip(alive, idx, 0);
    if i < |alive| then (Onward(idx, i, |alive|), Onward(idx, i + 1, |alive|)) else (0, Onward(idx, i, |alive|))
  }

  class RoundRobin {
    var idx: nat

    constructor ()
      ensures idx == 0
    {
      idx := 0;
    }

    method Choose(alive: seq<bool>, touch: bool) returns (id: nat)
      requires alive != []
      modifies this
      ensures id == Pick(alive, old(idx)).0
      ensures idx == if touch then Pick(alive, old(idx)).1 else old(idx)
    {
      var i := 0;
      var length := |alive|;
      while i < length
        invariant i <= length && Skip(alive, idx, 0) == Skip(alive, idx, i)
        invariant idx == old(idx)
      {
        id := Onward(idx, i, length);
        if alive[id] {
          i := i + 1;
          if touch {
            idx := Onward(idx, i, length);
          }
          return;
        }
        i := i + 1;
      }
      if touch {
        idx := Onward(idx, i, length);
      }
      id := 0;
    }
  }

  /** The index d places up from `from`, around the end. */
  ghost function Up(from: nat, d: nat, n: nat): nat
    requires n > 0
  {
    (from + d) % n
  }

  /** `id` is the first live proxy at or after index `from`, going up and around the end once. */
  ghost predicate NextAlive(alive: seq<bool>, from: nat, id: nat)
    requires alive != []
  {
    exists d: nat :: NextAliveAt(alive, from, d) && id == Up(from, d, |alive|)
  }

  ghost predicate NextAliveAt(alive: seq<bool>, from: nat, d: nat)
    requires alive != []
  {
    d < |alive| && alive[Up(from, d, |alive|)] && forall i: nat | i < d :: !alive[Up(from, i, |alive|)]
  }

  /** With a live proxy a touched call chooses the next live one at or after the index, and the index moves
      to the one after it. */
  lemma PickIsNextAlive(alive: seq<bool>, idx: nat)
    requires true in alive
    ensures var (id, next) := Pick(alive, idx);
      id < |alive| && NextAlive(alive, idx, id) && next == (id + 1) % |alive|
  {
    var n, i := |alive|, Skip(alive, idx, 0);
    var live :| 0 <= live < n && alive[live];
    var d := ReachesEvery(idx, live, n);
    assert !(d < i);
    OnwardTwice(idx, i, 1, n);
    assert forall j: nat :: Up(idx, j, n) == Onward(idx, j, n);
    assert NextAliveAt(alive, idx, i);
  }

  lemma ReachesEvery(from: nat, to: nat, n: nat) returns (d: nat)
    requires to < n
    ensures d < n && Onward(from, d, n) == to
  {
    var back := -(from as int);
    d := Onward(to, back, n);
    OnwardTwice(to, back, from, n);
    OnwardZero(to, n);
  }

  lemma UpTwice(id: nat, j: nat, n: nat)
    requires n > 0
    ensures Up(Up(id, 1, n), j, n) == Up(id + 1, j, n)
  {
    OnwardTwice(id, 1, j, n);
  }

  /** So the next touched call chooses the first live proxy after the last choice. */
  lemma NextChoiceFollows(alive: seq<bool>, idx: nat)
    requires true in alive
    ensures var (id, next) := Pick(alive, idx); NextAlive(alive, id + 1, Pick(alive, next).0)
  {
    hide Pick, Up;
    var n := |alive|;
    var (id, next) := Pick(alive, idx);
    PickIsNextAlive(alive, idx);
    PickIsNextAlive(alive, next);
    assert next == Up(id, 1, n) by { UpIs(id, 1, n); }
    var d: nat :| NextAliveAt(alive, next, d) && Pick(alive, next).0 == Up(next, d, n);
    var after := id + 1;
    forall j: nat
      ensures Up(next, j, n) == Up(after, j, n)
    {
      UpTwice(id, j, n);
    }
    SameWay(alive, next, after, d);
  }

  lemma SameWay(alive: seq<bool>, a: nat, b: nat, d: nat)
    requires alive != [] && NextAliveAt(alive, a, d) && forall j: nat :: Up(a, j, |alive|) == Up(b, j, |alive|)
    ensures NextAliveAt(alive, b, d) && Up(a, d, |alive|) == Up(b, d, |alive|)
  {
    hide Up;
  }

  lemma UpIs(from: nat, d: nat, n: nat)
    requires n > 0
    ensures Up(from, d, n) == (from + d) % n
  {
  }

  // ---------- many calls ----------

  /** The indexes that k touched calls choose, and the index after them. */
  function Picks(alive: seq<bool>, idx: nat, k: nat): (seq<nat>, nat)
    requires alive != []
    decreases k
  {
    if k == 0 then ([], idx)
    else
      var (id, next) := Pick(alive, idx);
      var (rest, last) := Picks(alive, next, k - 1);
      ([id] + rest, last)
  }

  /** The live proxies met on the way once around from s, starting t steps on. */
  function Around(alive: seq<bool>, s: nat, t: nat): (r: seq<nat>)
    requires t <= |alive| && alive != []
    ensures forall id | id in r :: id < |alive| && alive[id]
    decreases |alive| - t
  {
    if t == |alive| then []
    else
      var id := Onward(s, t, |alive|);
      (if alive[id] then [id] else []) + Around(alive, s, t + 1)
  }

  lemma {:induction false} AroundSkips(alive: seq<bool>, s: nat, t: nat)
    requires t <= |alive| && alive != []
    ensures var r := Skip(alive, s, t);
      Around(alive, s, t) == (if r < |alive| then [Onward(s, r, |alive|)] + Around(alive, s, r + 1) else [])
    decreases |alive| - t
  {
    hide *;
    Unfold(alive, s, t);
    if t < |alive| && !alive[Onward(s, t, |alive|)] {
      AroundSkips(alive, s, t + 1);
      assert [] + Around(alive, s, t + 1) == Around(alive, s, t + 1);
    }
  }

  lemma Unfold(alive: seq<bool>, s: nat, t: nat)
    requires t <= |alive| && alive != []
    ensures t == |alive| ==> Skip(alive, s, t) == t && Around(alive, s, t) == []
    ensures t < |alive| ==> var id := Onward(s, t, |alive|);
      && Skip(alive, s, t) == (if alive[id] then t else Skip(alive, s, t + 1))
      && Around(alive, s, t) == (if alive[id] then [id] else []) + Around(alive, s, t + 1)
  {
  }

  /** Starting t steps on is starting at index Onward(s, t, n), as long as a live proxy is still ahead. */
  lemma {:induction false} SkipShifts(alive: seq<bool>, s: nat, t: nat, i: nat)
    requires alive != [] && t + i <= |alive|
    requires Skip(alive, s, t + i) < |alive|
    ensures t + Skip(alive, Onward(s, t, |alive|), i) == Skip(alive, s, t + i)
    decreases |alive| - t - i
  {
    var n := |alive|;
    OnwardTwice(s, t, i, n);
    if t + i < n && !alive[Onward(s, t + i, n)] {
      SkipShifts(alive, s, t, i + 1);
    }
  }

  /** From t steps on, one call per live proxy ahead chooses each of them, in the order of the round. */
  lemma {:induction false} PicksGoAround(alive: seq<bool>, s: nat, t: nat, idx: nat)
    requires alive != [] && t <= |alive| && (idx == Onward(s, t, |alive|) || (t == 0 && idx == s))
    ensures Picks(alive, idx, |Around(alive, s, t)|).0 == Around(alive, s, t)
    decreases |alive| - t
  {
    hide *;
    var n := |alive|;
    var r := Skip(alive, s, t);
    AroundSkips(alive, s, t);
    PicksUnfold(alive, idx, |Around(alive, s, t)|);
    if r < n {
      PickAhead(alive, s, t, idx);
      PicksGoAround(alive, s, r + 1, Onward(s, r + 1, n));
    }
  }

  lemma PicksUnfold(alive: seq<bool>, idx: nat, k: nat)
    requires alive != []
    ensures k == 0 ==> Picks(alive, idx, k).0 == []
    ensures k > 0 ==> Picks(alive, idx, k).0 == [Pick(alive, idx).0] + Picks(alive, Pick(alive, idx).1, k - 1).0
  {
  }

  lemma PickAhead(alive: seq<bool>, s: nat, t: nat, idx: nat)
    requires alive != [] && t <= |alive| && (idx == Onward(s, t, |alive|) || (t == 0 && idx == s))
    requires Skip(alive, s, t) < |alive|
    ensures var r := Skip(alive, s, t); Pick(alive, idx) == (Onward(s, r, |alive|), Onward(s, r + 1, |alive|))
  {
    var n, r := |alive|, Skip(alive, s, t);
    if idx == Onward(s, t, n) {
      SkipShifts(alive, s, t, 0);
      var i := Skip(alive, idx, 0);
      OnwardTwice(s, t, i, n);
      OnwardTwice(s, t, i + 1, n);
    }
  }

  lemma {:induction false} AroundContains(alive: seq<bool>, s: nat, t: nat, u: nat)
    requires t <= |alive| && u < |alive| && alive != []
    ensures Onward(s, u, |alive|) in Around(alive, s, t) <==> t <= u && alive[Onward(s, u, |alive|)]
    decreases |alive| - t
  {
    if t < |alive| {
      AroundContains(alive, s, t + 1, u);
      var id := Onward(s, t, |alive|);
      if id == Onward(s, u, |alive|) {
        OnwardInjective(s, t, u, |alive|);
      }
      AroundNext(alive, s, t);
    }
  }

  lemma AroundNext(alive: seq<bool>, s: nat, t: nat)
    requires t < |alive| && alive != []
    ensures var id := Onward(s, t, |alive|);
      forall x :: x in Around(alive, s, t) <==> (x == id && alive[id]) || x in Around(alive, s, t + 1)
  {
  }

  lemma {:induction false} AroundNoDup(alive: seq<bool>, s: nat, t: nat)
    requires t <= |alive| && alive != []
    ensures NoDup(Around(alive, s, t))
    decreases |alive| - t
  {
    if t < |alive| {
      AroundNoDup(alive, s, t + 1);
      AroundContains(alive, s, t + 1, t);
    }
  }

  /** As many touched calls as there are live proxies choose each live proxy exactly once, from any
      starting index, even one left over from a longer list. */
  lemma EachOnce(alive: seq<bool>, idx: nat)
    requires alive != []
    ensures var k := |set i | 0 <= i < |alive| && alive[i]|;
      var ids := Picks(alive, idx, k).0;
      |ids| == k && NoDup(ids) && forall id :: id in ids <==> 0 <= id < |alive| && alive[id]
  {
    var n := |alive|;
    var ids := Around(alive, idx, 0);
    AroundNoDup(alive, idx, 0);
    forall id: nat | id < n && alive[id]
      ensures id in ids
    {
      var back: int := 0 - (idx as int);
      var u := Onward(id, back, n);
      OnwardTwice(id, back, idx, n);
      OnwardZero(id, n);
      AroundContains(alive, idx, 0, u);
    }
    var live := set i | 0 <= i < n && alive[i];
    CountNoDup(ids, live);
    PicksGoAround(alive, idx, 0, idx);
  }

  lemma {:induction false} CountNoDup(s: seq<nat>, x: set<int>)
    requires NoDup(s) && forall a :: a in x <==> a in s
    ensures |s| == |x|
    decreases |s|
  {
    if s == [] {
      assert forall a :: a !in x;
      assert x == {};
    } else {
      var last := s[|s| - 1];
      assert s == s[..|s| - 1] + [last];
      assert last in s;
      CountNoDup(s[..|s| - 1], x - {last});
    }
  }

  /** With no live proxy a touched call answers the first and only reduces the index. */
  lemma NoneAlive(alive: seq<bool>, idx: nat)
    requires alive != [] && (forall i | 0 <= i < |alive| :: !alive[i])
    ensures Pick(alive, idx) == (0, idx % |alive|)
  {
    var i := Skip(alive, idx, 0);
    OnwardFull(idx, |alive|);
  }
}
