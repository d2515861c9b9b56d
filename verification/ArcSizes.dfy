/** The cache for every size a caller may give, zero and negative ones too. */
module ArcSizes {
  import opened Common
  import opened ArcSpec
  import opened ArcLaws
  import opened ArcRuns

  /** What holds of a cache of any size between operations.  One of size zero never gets an entry. */
  ghost predicate Fit<K(!new), V>(s: State<K, V>) {
    if s.c >= 1 then Inv(s)
    else if s.c == 0 then s.slots == map[] && s.l == Lists([], [], [], [])
    else Disjoint(s.l) && Tagged(s.l, s.slots) && s.l.b1 == [] && s.l.b2 == [] && Drift(s) == 0 && AllLive(s)
  }

  ghost predicate AllLive<K(!new), V>(s: State<K, V>) {
    forall k | k in s.slots :: !s.slots[k].evicted
  }

  lemma EmptyFits<K(!new), V>(c: int, empty: V)
    ensures Fit(Empty<K, V>(c, empty))
  {
    if c >= 1 {
      EmptyInv<K, V>(c, empty);
    } else {
      assert Live(Empty<K, V>(c, empty).slots) == {};
    }
  }

  /** A request in a cache of negative size moves one key to the front of a list and that is all. */
  lemma NegativeRequest<K(!new), V>(s: State<K, V>, k: K)
    requires s.c < 0 && s.l.b1 == [] && s.l.b2 == []
    ensures var w := if k in s.l.t1 || k in s.l.t2 then T2 else T1;
      Req(s, k) == Some(s.(l := SetMRU(s.l, k, w)))
  {
  }

  lemma NegativeSetIs<K(!new), V>(s: State<K, V>, k: K, v: V, e: int)
    requires s.c < 0 && Fit(s)
    ensures k in s.slots <==> Place(s.l, k).Some?
    ensures var w := if k in s.slots then T2 else T1;
      Set(s, k, v, e) == Some(s.(len := s.len + One(k !in s.slots), l := SetMRU(s.l, k, w),
                                 slots := s.slots[k := Slot(v, false, e)]))
  {
    hide SetMRU;
    assert TaggedAt(s.l, s.slots, k);
    NegativeRequest(Prepare(s, k, v, e), k);
  }

  lemma MovedIsTagged<K(!new), V>(l: Lists<K>, slots: map<K, Slot<V>>, r: Lists<K>, slots': map<K, Slot<V>>, k: K)
    requires Tagged(l, slots) && SameBut(l, r, k) && (Place(r, k) == Some(T1) || Place(r, k) == Some(T2))
    requires k in slots' && !slots'[k].evicted
    requires forall x | x != k :: (x in slots' <==> x in slots) && (x in slots ==> slots'[x] == slots[x])
    ensures Tagged(r, slots')
  {
    hide Place;
    forall x
      ensures TaggedAt(r, slots', x)
    {
      assert TaggedAt(l, slots, x);
    }
  }

  lemma NegativeSet<K(!new), V>(s: State<K, V>, k: K, v: V, e: int)
    requires s.c < 0 && Fit(s)
    ensures var r := Set(s, k, v, e);
      && r.Some? && Fit(r.value) && SameConfig(s, r.value) && r.value.slots == s.slots[k := Slot(v, false, e)]
      && Place(r.value.l, k).Some?
  {
    hide ArcSpec.Set, Place, SetMRU, Disjoint, Tagged, SameBut;
    NegativeSetIs(s, k, v, e);
    MoveToFront(s.l, k, if k in s.slots then T2 else T1);
    var r := Set(s, k, v, e).value;
    MovedIsTagged(s.l, s.slots, r.l, r.slots, k);
    assert Live(r.slots) == Live(s.slots) + {k} && (k in s.slots <==> k in Live(s.slots));
  }

  lemma NegativeGet<K(!new), V>(s: State<K, V>, k: K)
    requires s.c < 0 && Fit(s)
    ensures var r := Get(s, k);
      && r.Some? && Fit(r.value.0) && SameConfig(s, r.value.0) && r.value.0.slots == s.slots
      && r.value.1 == if k in s.slots then Some((s.slots[k].value, s.slots[k].expires)) else None
  {
    assert TaggedAt(s.l, s.slots, k);
    if k in s.slots {
      NegativeRequest(s, k);
      MoveToFront(s.l, k, T2);
      MovedIsTagged(s.l, s.slots, Get(s, k).value.0.l, s.slots, k);
    }
  }

  /** A Set fails, on the back of an empty list, exactly in a cache of size zero. */
  lemma SetFits<K(!new), V>(s: State<K, V>, k: K, v: V, e: int)
    requires Fit(s)
    ensures Set(s, k, v, e).None? <==> s.c == 0
    ensures s.c != 0 ==> var r := Set(s, k, v, e).value;
      && Fit(r) && SameConfig(s, r) && Place(r.l, k).Some? && k in r.slots && r.slots[k] == Slot(v, false, e)
    ensures k in s.slots <==> Place(s.l, k).Some?
  {
    if s.c >= 1 {
      SetKeeps(s, k, v, e);
      assert TaggedAt(s.l, s.slots, k);
    } else if s.c < 0 {
      NegativeSet(s, k, v, e);
      assert TaggedAt(s.l, s.slots, k);
    }
  }

  lemma GetFits<K(!new), V>(s: State<K, V>, k: K)
    requires Fit(s)
    ensures Get(s, k).Some? && Fit(Get(s, k).value.0) && SameConfig(s, Get(s, k).value.0)
    ensures k in s.slots <==> Place(s.l, k).Some?
  {
    if s.c >= 1 {
      GetKeeps(s, k);
      assert TaggedAt(s.l, s.slots, k);
    } else if s.c < 0 {
      NegativeGet(s, k);
      assert TaggedAt(s.l, s.slots, k);
    }
  }

  /** A run fails exactly when the size is zero and it has a Set. */
  lemma {:induction false} RunFailsIffZero<K(!new), V>(c: int, empty: V, ops: seq<Op<K, V>>)
    ensures Run(c, empty, ops).None? <==> c == 0 && exists i :: 0 <= i < |ops| && ops[i].SetOp?
    ensures Run(c, empty, ops).Some? ==> var s := Run(c, empty, ops).value; Fit(s) && s.c == c && s.empty == empty
  {
    if ops == [] {
      EmptyFits<K, V>(c, empty);
    } else {
      var n := |ops| - 1;
      RunFailsIffZero(c, empty, ops[..n]);
      assert forall i | 0 <= i < n :: ops[..n][i] == ops[i];
      if Run(c, empty, ops[..n]).Some? {
        var s := Run(c, empty, ops[..n]).value;
        match ops[n]
        case SetOp(k, v, e) => SetFits(s, k, v, e);
        case GetOp(k) => GetFits(s, k);
        case ClearOp => EmptyFits<K, V>(c, empty);
      }
    }
  }

  /** With a negative size nothing is ever evicted: after any run exactly the keys set since the last
      Clear are live, with the value and expiry of their last Set, and `len` is their number. */
  lemma {:induction false} NegativeKeepsAll<K(!new), V>(c: int, empty: V, ops: seq<Op<K, V>>)
    requires c < 0
    ensures Run(c, empty, ops).Some?
    ensures var s := Run(c, empty, ops).value;
      && s.c == c && s.empty == empty && Fit(s) && s.len == |s.slots|
      && forall k :: LastSet(ops, k) == if k in s.slots then Some((s.slots[k].value, s.slots[k].expires)) else None
  {
    if ops == [] {
      EmptyFits<K, V>(c, empty);
    } else {
      var n := |ops| - 1;
      NegativeKeepsAll(c, empty, ops[..n]);
      var s := Run(c, empty, ops[..n]).value;
      match ops[n]
      case SetOp(k, v, e) => NegativeSet(s, k, v, e);
      case GetOp(k) => NegativeGet(s, k);
      case ClearOp => EmptyFits<K, V>(c, empty);
      var r := Run(c, empty, ops).value;
      assert Live(r.slots) == r.slots.Keys;
    }
  }
}
