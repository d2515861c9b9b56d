/** Recency: t1 followed by b1, and t2 followed by b2, are each in order of last use.
    Demoting the oldest live entry of a list to the front of its ghost list leaves the
    concatenation as it is, so a request changes it only at its two ends and at the key. */
module ArcRecency {
  import opened Common
  import opened ArcSpec
  import opened ArcLaws
  import opened ArcRuns

  function Once<K>(l: Lists<K>): seq<K> { l.t1 + l.b1 }

  function Often<K>(l: Lists<K>): seq<K> { l.t2 + l.b2 }

  lemma {:induction false} WithoutPrefix<A>(a: seq<A>, b: seq<A>, x: A)
    requires x in a
    ensures Without(a + b, x) == Without(a, x) + b
  {
    assert (a + b)[1..] == a[1..] + b;
    if a[0] != x {
      WithoutPrefix(a[1..], b, x);
      assert [a[0]] + (Without(a[1..], x) + b) == ([a[0]] + Without(a[1..], x)) + b;
    }
  }

  lemma {:induction false} WithoutSuffix<A>(a: seq<A>, b: seq<A>, x: A)
    requires x !in a
    ensures Without(a + b, x) == a + Without(b, x)
  {
    if a == [] {
      assert a + b == b;
    } else {
      assert (a + b)[1..] == a[1..] + b;
      WithoutSuffix(a[1..], b, x);
      assert [a[0]] + (a[1..] + Without(b, x)) == a + Without(b, x);
    }
  }

  lemma WithoutConcat<A>(a: seq<A>, b: seq<A>, x: A)
    requires x !in a || x !in b
    ensures Without(a + b, x) == (if x in a then Without(a, x) else a) + (if x in b then Without(b, x) else b)
  {
    if x in a {
      WithoutPrefix(a, b, x);
    } else {
      WithoutSuffix(a, b, x);
      if x !in b {
        WithoutAbsent(b, x);
      }
    }
  }

  lemma DemoteOrder<K(!new)>(l: Lists<K>, f: Which, w: Which)
    requires Disjoint(l) && Members(l, f) != [] && ((f == T1 && w == B1) || (f == T2 && w == B2))
    ensures var r := SetMRU(l, Back(Members(l, f)), w); Once(r) == Once(l) && Often(r) == Often(l)
  {
    var m := Members(l, f);
    DropBack(l, f);
    WithoutBack(m);
    assert m == m[..|m| - 1] + [Back(m)];
    assert m[..|m| - 1] + ([Back(m)] + Members(l, w)) == m + Members(l, w);
  }

  lemma ReplaceOrder<K(!new), V>(s: State<K, V>, k: K)
    requires Disjoint(s.l) && Replace(s, k).Some?
    ensures var r := Replace(s, k).value; Once(r.l) == Once(s.l) && Often(r.l) == Often(s.l)
  {
    if FromT1(s.l, s.p, k) {
      DemoteOrder(s.l, T1, B1);
    } else {
      DemoteOrder(s.l, T2, B2);
    }
  }

  lemma MoveOrder<K(!new)>(l: Lists<K>, k: K, w: Which)
    requires Disjoint(l) && (w == T1 || w == T2)
    ensures var r := SetMRU(l, k, w);
      && Once(r) == (if w == T1 then [k] else []) + Without(Once(l), k)
      && Often(r) == (if w == T2 then [k] else []) + Without(Often(l), k)
  {
    WithoutConcat(l.t1, l.b1, k);
    WithoutConcat(l.t2, l.b2, k);
    var d := match Place(l, k)
      case None => l
      case Some(v) => Update(l, v, Without(Members(l, v), k));
    assert Once(d) == Without(Once(l), k) && Often(d) == Without(Often(l), k);
    PushOrder(d, k, w);
  }

  lemma PushOrder<K>(d: Lists<K>, k: K, w: Which)
    requires w == T1 || w == T2
    ensures var r := Update(d, w, [k] + Members(d, w));
      && Once(r) == (if w == T1 then [k] else []) + Once(d)
      && Often(r) == (if w == T2 then [k] else []) + Often(d)
  {
  }

  lemma ReplaceThenMoveOrder<K(!new), V>(d: State<K, V>, k: K, w: Which)
    requires Disjoint(d.l) && TaggedBut(d.l, d.slots, k) && (w == T1 || w == T2)
    requires k !in d.l.t1 && k !in d.l.t2 && Replace(d, k).Some?
    ensures var r := Then(Replace(d, k), k, w).value.l;
      && Once(r) == (if w == T1 then [k] else []) + Without(Once(d.l), k)
      && Often(r) == (if w == T2 then [k] else []) + Without(Often(d.l), k)
  {
    ReplaceOrder(d, k);
    ReplaceKeeps(d, k);
    MoveOrder(Replace(d, k).value.l, k, w);
  }

  function DropLast<A>(s: seq<A>, drop: bool): seq<A>
    requires drop ==> s != []
  {
    if drop then s[..|s| - 1] else s
  }

  lemma DelLRUOrder<K(!new), V>(s: State<K, V>, w: Which)
    requires DelLRU(s, w).Some? && (w == B1 || w == B2 || (w == T1 && s.l.b1 == []))
    ensures var r := DelLRU(s, w).value.l;
      && (w == B2 ==> Once(r) == Once(s.l) && Often(s.l) != [] && Often(r) == DropLast(Often(s.l), true))
      && (w != B2 ==> Often(r) == Often(s.l) && Once(s.l) != [] && Once(r) == DropLast(Once(s.l), true))
  {
  }

  /** A request for a known key takes it out of both orders and puts it first among the keys used
      twice.  A request for a new key puts it first among the keys used once; the oldest such key
      goes if there were already `c` of them, otherwise the oldest of the others if 2c are held. */
  lemma RequestOrder<K(!new), V>(s: State<K, V>, k: K)
    requires MayRequest(s, k)
    ensures Req(s, k).Some?
    ensures var r := Req(s, k).value.l;
      if k in s.slots then
        Once(r) == Without(Once(s.l), k) && Often(r) == [k] + Without(Often(s.l), k)
      else
        && Once(r) == [k] + DropLast(Once(s.l), |Once(s.l)| == s.c)
        && (|Once(s.l)| < s.c && Total(s.l) == 2 * s.c ==> Often(s.l) != [])
        && Often(r) == DropLast(Often(s.l), |Once(s.l)| < s.c && Total(s.l) == 2 * s.c)
  {
    ReqKeeps(s, k);
    if k in s.l.t1 || k in s.l.t2 {
      MoveOrder(s.l, k, T2);
    } else if k in s.l.b1 || k in s.l.b2 {
      GhostHitCanReplace(s.l, s.p, s.c, k);
      ReplaceThenMoveOrder(s.(p := Adapt(s.l, s.p, s.c, k)), k, T2);
    } else {
      NewKeyOrder(s, k);
    }
  }

  lemma NewKeyOrder<K(!new), V>(s: State<K, V>, k: K)
    requires MayRequest(s, k) && k !in s.slots && Req(s, k).Some?
    ensures var r := Req(s, k).value.l;
      && Once(r) == [k] + DropLast(Once(s.l), |Once(s.l)| == s.c)
      && (|Once(s.l)| < s.c && Total(s.l) == 2 * s.c ==> Often(s.l) != [])
      && Often(r) == DropLast(Often(s.l), |Once(s.l)| < s.c && Total(s.l) == 2 * s.c)
  {
    var w := if |s.l.t1| == s.c then T1 else if |Once(s.l)| == s.c then B1 else B2;
    var d := s;
    if |Once(s.l)| == s.c || Total(s.l) == 2 * s.c {
      DropBack(s.l, w);
      assert TaggedAt(s.l, s.slots, Back(Members(s.l, w)));
      DelLRUKeeps(s, w, k);
      DelLRUOrder(s, w);
      d := DelLRU(s, w).value;
    }
    AbsentFromBoth(d.l, k);
    if |s.l.t1| < s.c && Total(s.l) >= s.c {
      ReplaceThenMoveOrder(d, k, T1);
    } else {
      MoveOrder(d.l, k, T1);
    }
  }

  lemma AbsentFromBoth<K(!new)>(l: Lists<K>, k: K)
    requires Place(l, k).None?
    ensures Without(Once(l), k) == Once(l) && Without(Often(l), k) == Often(l)
  {
    WithoutAbsent(Once(l), k);
    WithoutAbsent(Often(l), k);
  }

  // ---------- recency over a run ----------

  /** The position in the run of the last Set or Get of `k`, or -1. */
  function LastUse<K(==), V>(ops: seq<Op<K, V>>, k: K): int {
    if ops == [] then -1
    else if !Back(ops).ClearOp? && Back(ops).key == k then |ops| - 1
    else LastUse(ops[..|ops| - 1], k)
  }

  ghost predicate NewestFirst<K(!new), V>(ops: seq<Op<K, V>>, s: seq<K>) {
    forall i, j | 0 <= i < j < |s| :: LastUse(ops, s[i]) > LastUse(ops, s[j])
  }

  lemma {:induction false} LastUseBound<K(!new), V>(ops: seq<Op<K, V>>, k: K)
    ensures -1 <= LastUse(ops, k) < |ops|
  {
    if ops != [] {
      LastUseBound(ops[..|ops| - 1], k);
    }
  }

  lemma OthersKeepOrder<K(!new), V>(ops: seq<Op<K, V>>, s: seq<K>, k: K)
    requires ops != [] && !Back(ops).ClearOp? && Back(ops).key == k
    requires NewestFirst(ops[..|ops| - 1], s) && k !in s
    ensures NewestFirst(ops, s) && NewestFirst(ops, [k] + s)
  {
    var before := ops[..|ops| - 1];
    forall x
      ensures LastUse(before, x) < |ops| - 1
    {
      LastUseBound(before, x);
    }
    assert forall x | x in s :: LastUse(ops, x) == LastUse(before, x);
  }

  lemma NewestIsNoDup<K(!new), V>(ops: seq<Op<K, V>>, s: seq<K>)
    requires NewestFirst(ops, s)
    ensures NoDup(s)
  {
    hide LastUse;
    forall i, j | 0 <= i < j < |s|
      ensures s[i] != s[j]
    {
      assert LastUse(ops, s[i]) > LastUse(ops, s[j]);
    }
  }

  lemma LeftOutKeepsOrder<K(!new), V>(ops: seq<Op<K, V>>, s: seq<K>, i: nat)
    requires NewestFirst(ops, s) && i < |s|
    ensures NewestFirst(ops, s[..i] + s[i + 1..])
  {
    hide LastUse;
    var r := s[..i] + s[i + 1..];
    forall a, b | 0 <= a < b < |r|
      ensures LastUse(ops, r[a]) > LastUse(ops, r[b])
    {
      assert r[a] == s[if a < i then a else a + 1];
      assert r[b] == s[if b < i then b else b + 1];
    }
  }

  lemma WithoutKeepsOrder<K(!new), V>(ops: seq<Op<K, V>>, s: seq<K>, k: K)
    requires NewestFirst(ops, s)
    ensures NewestFirst(ops, Without(s, k)) && k !in Without(s, k)
  {
    hide NewestFirst, Without;
    NewestIsNoDup(ops, s);
    if k in s {
      var i := WithoutAt(s, k);
      LeftOutKeepsOrder(ops, s, i);
    } else {
      WithoutAbsent(s, k);
    }
  }

  lemma RequestRecency<K(!new), V>(s: State<K, V>, ops: seq<Op<K, V>>, k: K)
    requires MayRequest(s, k) && ops != [] && !Back(ops).ClearOp? && Back(ops).key == k
    requires NewestFirst(ops[..|ops| - 1], Once(s.l)) && NewestFirst(ops[..|ops| - 1], Often(s.l))
    ensures Req(s, k).Some?
    ensures var r := Req(s, k).value.l; NewestFirst(ops, Once(r)) && NewestFirst(ops, Often(r))
  {
    RequestOrder(s, k);
    var before := ops[..|ops| - 1];
    if k in s.slots {
      WithoutKeepsOrder(before, Once(s.l), k);
      WithoutKeepsOrder(before, Often(s.l), k);
      OthersKeepOrder(ops, Without(Once(s.l), k), k);
      OthersKeepOrder(ops, Without(Often(s.l), k), k);
    } else {
      assert Place(s.l, k).None?;
      var once := DropLast(Once(s.l), |Once(s.l)| == s.c);
      var often := DropLast(Often(s.l), |Once(s.l)| < s.c && Total(s.l) == 2 * s.c);
      assert k !in once && k !in often;
      OthersKeepOrder(ops, once, k);
      OthersKeepOrder(ops, often, k);
    }
  }

  /** In every run both orders are by last use, newest first.  So whatever a request demotes or
      drops is the least recently used entry of its list. */
  lemma {:induction false} EveryRunIsByRecency<K(!new), V>(c: int, empty: V, ops: seq<Op<K, V>>)
    requires c >= 1
    ensures Run(c, empty, ops).Some?
    ensures var l := Run(c, empty, ops).value.l; NewestFirst(ops, Once(l)) && NewestFirst(ops, Often(l))
  {
    EveryRun(c, empty, ops);
    if ops != [] {
      var before := ops[..|ops| - 1];
      EveryRunIsByRecency(c, empty, before);
      EveryRun(c, empty, before);
      var s := Run(c, empty, before).value;
      match Back(ops)
      case SetOp(k, v, e) =>
        Prepared(s, k, v, e);
        RequestRecency(Prepare(s, k, v, e), ops, k);
      case GetOp(k) =>
        assert TaggedAt(s.l, s.slots, k);
        if k in s.slots {
          RequestRecency(s, ops, k);
        } else {
          AbsentKeepsOrder(s, ops, k);
        }
      case ClearOp =>
    }
  }

  lemma AbsentKeepsOrder<K(!new), V>(s: State<K, V>, ops: seq<Op<K, V>>, k: K)
    requires Place(s.l, k).None? && ops != [] && Back(ops) == GetOp(k)
    requires NewestFirst(ops[..|ops| - 1], Once(s.l)) && NewestFirst(ops[..|ops| - 1], Often(s.l))
    ensures NewestFirst(ops, Once(s.l)) && NewestFirst(ops, Often(s.l))
  {
    OthersKeepOrder(ops, Once(s.l), k);
    OthersKeepOrder(ops, Often(s.l), k);
  }
}
