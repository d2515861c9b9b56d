/** Whole runs of the cache: safety, what a hit returns, and what `Len` counts. */
module ArcRuns {
  import opened Common
  import opened ArcSpec
  import opened ArcLaws

  // ---------- one operation ----------

  lemma Prepared<K(!new), V>(s: State<K, V>, k: K, v: V, e: int)
    requires Inv(s)
    ensures var a := Prepare(s, k, v, e);
      && MayRequest(a, k) && a.l == s.l && a.p == s.p && a.slots.Keys == s.slots.Keys && SameConfig(s, a)
      && (forall x | x in s.slots && x != k :: a.slots[x] == s.slots[x])
      && (k in s.slots ==> a.slots[k] == Slot(v, false, e))
      && Drift(a) == Drift(s) - One(k !in s.slots)
      && Waste(a, k) == Waste(s, k)
  {
    var a := Prepare(s, k, v, e);
    assert TaggedAt(s.l, s.slots, k);
    forall x | x != k
      ensures TaggedAt(a.l, a.slots, x)
    {
      assert TaggedAt(s.l, s.slots, x);
    }
    assert Live(a.slots) == if k in s.slots then Live(s.slots) + {k} else Live(s.slots);
    assert k in Live(s.slots) ==> Live(s.slots) + {k} == Live(s.slots);
    if k !in s.l.t2 && s.l.t2 != [] {
      assert Back(s.l.t2) in s.l.t2;
      assert Waste1(a.slots, a.l.t2) == Waste1(s.slots, s.l.t2);
    }
  }

  lemma StoredNew<K(!new), V>(a: State<K, V>, b: State<K, V>, k: K, v: V, e: int)
    requires k !in a.slots && Requested(a, b, k)
    ensures var r := b.(slots := b.slots[k := Slot(v, false, e)]);
      Tagged(r.l, r.slots) && Drift(r) == Drift(b) + 1
  {
    hide Place, Survive, Disjoint, Sizes, SameConfig;
    var r := b.(slots := b.slots[k := Slot(v, false, e)]);
    assert Live(r.slots) == Live(b.slots) + {k} && k !in Live(b.slots);
    forall x
      ensures TaggedAt(r.l, r.slots, x)
    {
      assert x != k ==> TaggedAt(b.l, b.slots, x);
    }
  }

  lemma StoredKnown<K(!new), V>(a: State<K, V>, r: State<K, V>, k: K)
    requires k in a.slots && Requested(a, r, k)
    ensures Tagged(r.l, r.slots)
  {
    forall x
      ensures TaggedAt(r.l, r.slots, x)
    {
      assert x != k ==> TaggedAt(r.l, r.slots, x);
    }
  }

  /** Set keeps the invariant, stores exactly what it was given, alters no other live entry,
      and puts a new key at the front of t1 and a known one at the front of t2. */
  lemma SetKeeps<K(!new), V>(s: State<K, V>, k: K, v: V, e: int)
    requires Inv(s)
    ensures Set(s, k, v, e).Some?
    ensures var r := Set(s, k, v, e).value;
      && Inv(r) && SameConfig(s, r) && Place(r.l, k) == Some(if k in s.slots then T2 else T1)
      && k in r.slots && r.slots[k] == Slot(v, false, e)
      && Survive(s.slots[k := Slot(v, false, e)], r.slots)
      && Drift(r) == Drift(s) + Waste(s, k)
  {
    var a := Prepare(s, k, v, e);
    Prepared(s, k, v, e);
    ReqKeeps(a, k);
    var b := Req(a, k).value;
    if k in s.slots {
      StoredKnown(a, b, k);
    } else {
      StoredNew(a, b, k, v, e);
    }
  }

  /** Get answers for exactly the live keys, with their value and expiry, and makes any key the map
      knows, ghost or not, the newest of t2. */
  lemma GetKeeps<K(!new), V>(s: State<K, V>, k: K)
    requires Inv(s)
    ensures Get(s, k).Some?
    ensures var (r, answer) := Get(s, k).value;
      && Inv(r) && SameConfig(s, r) && Survive(s.slots, r.slots)
      && (answer.Some? <==> k in Live(s.slots))
      && (answer.Some? ==> answer.value == (s.slots[k].value, s.slots[k].expires))
      && (k in s.slots ==> Place(r.l, k) == Some(T2))
      && (k !in s.slots ==> r == s)
      && Drift(r) == Drift(s) + (if k in s.slots then Waste(s, k) else 0)
  {
    assert TaggedAt(s.l, s.slots, k);
    if k in s.slots {
      ReqKeeps(s, k);
      StoredKnown(s, Req(s, k).value, k);
    }
  }

  // ---------- runs ----------

  datatype Op<K, V> = SetOp(key: K, value: V, expires: int) | GetOp(key: K) | ClearOp

  function Step<K(==), V>(s: State<K, V>, op: Op<K, V>): Option<State<K, V>> {
    match op
    case SetOp(k, v, e) => Set(s, k, v, e)
    case GetOp(k) => var g := Get(s, k); if g.None? then None else Some(g.value.0)
    case ClearOp => Some(Empty(s.c, s.empty))
  }

  function Run<K(==), V>(c: int, empty: V, ops: seq<Op<K, V>>): Option<State<K, V>> {
    if ops == [] then Some(Empty(c, empty))
    else
      var s := Run(c, empty, ops[..|ops| - 1]);
      if s.None? then None else Step(s.value, Back(ops))
  }

  /** The value and expiry given by the last Set of `k` since the last Clear. */
  function LastSet<K(==), V>(ops: seq<Op<K, V>>, k: K): Option<(V, int)> {
    if ops == [] then None
    else match Back(ops)
      case SetOp(k', v, e) => if k' == k then Some((v, e)) else LastSet(ops[..|ops| - 1], k)
      case GetOp(_) => LastSet(ops[..|ops| - 1], k)
      case ClearOp => None
  }

  ghost function StepWaste<K, V>(s: State<K, V>, op: Op<K, V>): nat {
    match op
    case SetOp(k, _, _) => Waste(s, k)
    case GetOp(k) => if k in s.slots then Waste(s, k) else 0
    case ClearOp => 0
  }

  /** Double-counted departures over a run, since the last Clear. */
  ghost function RunWaste<K, V>(c: int, empty: V, ops: seq<Op<K, V>>): nat {
    if ops == [] then 0
    else
      var s := Run(c, empty, ops[..|ops| - 1]);
      if s.None? || Back(ops).ClearOp? then 0
      else RunWaste(c, empty, ops[..|ops| - 1]) + StepWaste(s.value, Back(ops))
  }

  ghost predicate Faithful<K(!new), V>(s: State<K, V>, ops: seq<Op<K, V>>) {
    forall k | k in Live(s.slots) :: LastSet(ops, k) == Some((s.slots[k].value, s.slots[k].expires))
  }

  lemma EmptyInv<K(!new), V>(c: int, empty: V)
    requires c >= 1
    ensures var s := Empty<K, V>(c, empty); Inv(s) && Drift(s) == 0 && Live(s.slots) == {}
  {
    assert Live(Empty<K, V>(c, empty).slots) == {};
  }

  lemma StepFaithful<K(!new), V>(s: State<K, V>, ops: seq<Op<K, V>>)
    requires Inv(s) && ops != [] && Faithful(s, ops[..|ops| - 1])
    ensures Step(s, Back(ops)).Some?
    ensures var r := Step(s, Back(ops)).value;
      && Inv(r) && SameConfig(s, r) && Faithful(r, ops)
      && Drift(r) == (if Back(ops).ClearOp? then 0 else Drift(s) + StepWaste(s, Back(ops)))
  {
    match Back(ops)
    case SetOp(k, v, e) => SetKeeps(s, k, v, e);
    case GetOp(k) => GetKeeps(s, k);
    case ClearOp => EmptyInv<K, V>(s.c, s.empty);
  }

  /** Every run succeeds and keeps the invariant; a live entry holds what the last Set of its key
      since Clear gave it; and the live count exceeds `len` by exactly the double-counted departures. */
  lemma {:induction false} EveryRun<K(!new), V>(c: int, empty: V, ops: seq<Op<K, V>>)
    requires c >= 1
    ensures Run(c, empty, ops).Some?
    ensures var s := Run(c, empty, ops).value;
      && Inv(s) && s.c == c && s.empty == empty && Faithful(s, ops)
      && s.len == |Live(s.slots)| - RunWaste(c, empty, ops)
  {
    if ops == [] {
      EmptyInv<K, V>(c, empty);
    } else {
      EveryRun(c, empty, ops[..|ops| - 1]);
      StepFaithful(Run(c, empty, ops[..|ops| - 1]).value, ops);
    }
  }

  /** A hit after any run returns the last Set of that key since Clear. */
  lemma HitIsLastSet<K(!new), V>(c: int, empty: V, ops: seq<Op<K, V>>, k: K)
    requires c >= 1
    ensures Run(c, empty, ops).Some? && Get(Run(c, empty, ops).value, k).Some?
    ensures var answer := Get(Run(c, empty, ops).value, k).value.1;
      answer.Some? ==> LastSet(ops, k) == answer
  {
    EveryRun(c, empty, ops);
    GetKeeps(Run(c, empty, ops).value, k);
  }

  /** A Get right after a Set of the same key always hits, whatever came before. */
  lemma SetThenGet<K(!new), V>(c: int, empty: V, ops: seq<Op<K, V>>, k: K, v: V, e: int)
    requires c >= 1
    ensures var s := Run(c, empty, ops + [SetOp(k, v, e)]);
      s.Some? && Get(s.value, k).Some? && Get(s.value, k).value.1 == Some((v, e))
  {
    EveryRun(c, empty, ops);
    var s := Run(c, empty, ops).value;
    SetKeeps(s, k, v, e);
    RunSnoc(c, empty, ops, SetOp(k, v, e), s, Set(s, k, v, e).value);
    GetKeeps(Set(s, k, v, e).value, k);
  }

  lemma RunSnoc<K, V>(c: int, empty: V, ops: seq<Op<K, V>>, op: Op<K, V>, s: State<K, V>, r: State<K, V>)
    requires Run(c, empty, ops) == Some(s) && Step(s, op) == Some(r)
    ensures Run(c, empty, ops + [op]) == Some(r)
  {
    assert (ops + [op])[..|ops|] == ops;
  }

  lemma {:induction false} SubsetOfList<A(!new)>(x: set<A>, l: seq<A>)
    requires forall a | a in x :: a in l
    ensures |x| <= |l|
    decreases |l|
  {
    if l == [] {
      assert x == {};
    } else {
      SubsetOfList(x - {l[0]}, l[1..]);
      assert x <= (x - {l[0]}) + {l[0]};
    }
  }

  /** At most `c` live entries, and `Len` reports their number exactly when no ghost's departure
      was ever counted twice; otherwise it reports fewer. */
  lemma CapacityAndLen<K(!new), V>(c: int, empty: V, ops: seq<Op<K, V>>)
    requires c >= 1
    ensures Run(c, empty, ops).Some?
    ensures var s := Run(c, empty, ops).value;
      && s.len <= |Live(s.slots)| <= |s.l.t1| + |s.l.t2| <= c
      && (s.len == |Live(s.slots)| <==> RunWaste(c, empty, ops) == 0)
  {
    EveryRun(c, empty, ops);
    var s := Run(c, empty, ops).value;
    forall k | k in Live(s.slots)
      ensures k in s.l.t1 + s.l.t2
    {
      assert TaggedAt(s.l, s.slots, k);
    }
    SubsetOfList(Live(s.slots), s.l.t1 + s.l.t2);
  }

  // ---------- where the promises stop ----------

  const SHORT_RUN: seq<Op<int, int>> :=
    [SetOp(1, 10, 0), GetOp(1), SetOp(2, 20, 0), SetOp(3, 30, 0), GetOp(3), SetOp(4, 40, 0)]

  /** `Len` does go below the live count: six operations on a cache of one entry. */
  lemma LenUndercounts()
    ensures var s := Run(1, 0, SHORT_RUN);
      s.Some? && Live(s.value.slots) == {4} && s.value.len == 0
  {
    var s3 := FirstThree();
    var ops := SHORT_RUN[..3];
    var s6 := ThreeMore(ops, s3);
    assert SHORT_RUN == ops + [SetOp(3, 30, 0)] + [GetOp(3)] + [SetOp(4, 40, 0)];
    assert Live(s6.slots) == {4};
  }

  lemma FirstThree() returns (s3: State<int, int>)
    ensures s3 == State(1, 0, 0, 1, Lists([2], [], [], [1]), map[1 := Slot(0, true, 0), 2 := Slot(20, false, 0)])
    ensures Run(1, 0, SHORT_RUN[..3]) == Some(s3)
  {
    var s0 := Empty<int, int>(1, 0);
    var s1 := State(1, 0, 0, 1, Lists([1], [], [], []), map[1 := Slot(10, false, 0)]);
    assert SetMRU(s0.l, 1, T1) == s1.l;
    var ops: seq<Op<int, int>> := [];
    RunSnoc(1, 0, ops, SetOp(1, 10, 0), s0, s1);
    var s2 := s1.(l := Lists([], [1], [], []));
    assert SetMRU(s1.l, 1, T2) == s2.l;
    RunSnoc(1, 0, ops + [SetOp(1, 10, 0)], GetOp(1), s1, s2);
    s3 := State(1, 0, 0, 1, Lists([2], [], [], [1]), map[1 := Slot(0, true, 0), 2 := Slot(20, false, 0)]);
    DemoteThenInsert(s2, s3);
    RunSnoc(1, 0, ops + [SetOp(1, 10, 0)] + [GetOp(1)], SetOp(2, 20, 0), s2, s3);
    assert SHORT_RUN[..3] == ops + [SetOp(1, 10, 0)] + [GetOp(1)] + [SetOp(2, 20, 0)];
  }

  lemma ThreeMore(ops: seq<Op<int, int>>, s3: State<int, int>) returns (s6: State<int, int>)
    requires s3 == State(1, 0, 0, 1, Lists([2], [], [], [1]), map[1 := Slot(0, true, 0), 2 := Slot(20, false, 0)])
    requires Run(1, 0, ops) == Some(s3)
    ensures s6 == State(1, 0, 0, 0, Lists([4], [], [], [3]), map[3 := Slot(0, true, 0), 4 := Slot(40, false, 0)])
    ensures Run(1, 0, ops + [SetOp(3, 30, 0)] + [GetOp(3)] + [SetOp(4, 40, 0)]) == Some(s6)
  {
    var s4 := s3.(l := Lists([3], [], [], [1]), slots := map[1 := Slot(0, true, 0), 3 := Slot(30, false, 0)]);
    DropThenInsert(s3, s4);
    RunSnoc(1, 0, ops, SetOp(3, 30, 0), s3, s4);
    var s5 := s4.(l := Lists([], [3], [], [1]));
    assert SetMRU(s4.l, 3, T2) == s5.l;
    RunSnoc(1, 0, ops + [SetOp(3, 30, 0)], GetOp(3), s4, s5);
    s6 := State(1, 0, 0, 0, Lists([4], [], [], [3]), map[3 := Slot(0, true, 0), 4 := Slot(40, false, 0)]);
    TrimThenInsert(s5, s6);
    RunSnoc(1, 0, ops + [SetOp(3, 30, 0)] + [GetOp(3)], SetOp(4, 40, 0), s5, s6);
  }

  lemma DemoteThenInsert(s: State<int, int>, r: State<int, int>)
    requires s == State(1, 0, 0, 1, Lists([], [1], [], []), map[1 := Slot(10, false, 0)])
    requires r == State(1, 0, 0, 1, Lists([2], [], [], [1]), map[1 := Slot(0, true, 0), 2 := Slot(20, false, 0)])
    ensures Set(s, 2, 20, 0) == Some(r)
  {
    var a := s.(len := 2);
    assert SetMRU(s.l, 1, B2) == Lists([], [], [], [1]);
    var b := State(1, 0, 0, 1, Lists([], [], [], [1]), map[1 := Slot(0, true, 0)]);
    assert Wipe(s.slots, 1, 0) == b.slots;
    assert Replace(a, 2) == Some(b);
    assert SetMRU(b.l, 2, T1) == r.l;
  }

  lemma DropThenInsert(s: State<int, int>, r: State<int, int>)
    requires s == State(1, 0, 0, 1, Lists([2], [], [], [1]), map[1 := Slot(0, true, 0), 2 := Slot(20, false, 0)])
    requires r == State(1, 0, 0, 1, Lists([3], [], [], [1]), map[1 := Slot(0, true, 0), 3 := Slot(30, false, 0)])
    ensures Set(s, 3, 30, 0) == Some(r)
  {
    var a := s.(len := 2);
    var d := State(1, 0, 0, 1, Lists([], [], [], [1]), map[1 := Slot(0, true, 0)]);
    assert a.slots - {2} == d.slots && [2][..0] == [];
    assert DelLRU(a, T1) == Some(d);
    assert SetMRU(d.l, 3, T1) == r.l;
  }

  lemma TrimThenInsert(s: State<int, int>, r: State<int, int>)
    requires s == State(1, 0, 0, 1, Lists([], [3], [], [1]), map[1 := Slot(0, true, 0), 3 := Slot(30, false, 0)])
    requires r == State(1, 0, 0, 0, Lists([4], [], [], [3]), map[3 := Slot(0, true, 0), 4 := Slot(40, false, 0)])
    ensures Set(s, 4, 40, 0) == Some(r)
  {
    var a := s.(len := 2);
    var d := State(1, 0, 0, 1, Lists([], [3], [], []), map[3 := Slot(30, false, 0)]);
    assert a.slots - {1} == d.slots && [1][..0] == [];
    assert DelLRU(a, B2) == Some(d);
    assert SetMRU(d.l, 3, B2) == Lists([], [], [], [3]);
    var b := State(1, 0, 0, 0, Lists([], [], [], [3]), map[3 := Slot(0, true, 0)]);
    assert Wipe(d.slots, 3, 0) == b.slots;
    assert Replace(d, 4) == Some(b);
    assert SetMRU(b.l, 4, T1) == r.l;
  }
}
