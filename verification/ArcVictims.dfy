/** Which entry a request takes its room from, and what it leaves in each list. */
module ArcVictims {
  import opened Common
  import opened ArcSpec
  import opened ArcLaws
  import opened ArcRuns

  /** The oldest of t1 becomes the newest of b1, or the oldest of t2 the newest of b2. */
  function Demoted<K>(l: Lists<K>, once: bool): Lists<K>
    requires if once then l.t1 != [] else l.t2 != []
  {
    if once then Lists(l.t1[..|l.t1| - 1], l.t2, [Back(l.t1)] + l.b1, l.b2)
    else Lists(l.t1, l.t2[..|l.t2| - 1], l.b1, [Back(l.t2)] + l.b2)
  }

  lemma DemoteMoves<K(!new)>(l: Lists<K>, once: bool)
    requires Disjoint(l) && if once then l.t1 != [] else l.t2 != []
    ensures SetMRU(l, Back(if once then l.t1 else l.t2), if once then B1 else B2) == Demoted(l, once)
    ensures Place(l, Back(if once then l.t1 else l.t2)) == Some(if once then T1 else T2)
  {
    DropBack(l, if once then T1 else T2);
    WithoutBack(if once then l.t1 else l.t2);
  }

  /** A demotion takes the oldest of t1 when t1 is above the target, the oldest of t2 when t1 is empty or
      below it; at the target t1 gives an entry exactly if the key is a ghost of b2.  It becomes a ghost
      and everything else stays. */
  lemma ReplaceVictim<K(!new), V>(s: State<K, V>, k: K)
    requires Disjoint(s.l) && TaggedBut(s.l, s.slots, k) && k !in s.l.t1 && k !in s.l.t2
    ensures s.l.t1 != [] && |s.l.t1| > s.p ==> Replace(s, k) == Some(AfterDemotion(s, true))
    ensures s.l.t1 != [] && |s.l.t1| == s.p && k in s.l.b2 ==> Replace(s, k) == Some(AfterDemotion(s, true))
    ensures s.l.t1 != [] && |s.l.t1| == s.p && k !in s.l.b2 ==>
      Replace(s, k) == if s.l.t2 == [] then None else Some(AfterDemotion(s, false))
    ensures s.l.t1 == [] || |s.l.t1| < s.p ==>
      Replace(s, k) == if s.l.t2 == [] then None else Some(AfterDemotion(s, false))
  {
    hide Place, SetMRU;
    if s.l.t1 != [] {
      DemoteMoves(s.l, true);
      assert TaggedAt(s.l, s.slots, Back(s.l.t1)) && Back(s.l.t1) in s.l.t1;
    }
    if s.l.t2 != [] {
      DemoteMoves(s.l, false);
      assert TaggedAt(s.l, s.slots, Back(s.l.t2)) && Back(s.l.t2) in s.l.t2;
    }
  }

  function AfterDemotion<K(==), V>(s: State<K, V>, once: bool): State<K, V>
    requires if once then s.l.t1 != [] else s.l.t2 != []
  {
    var v := Back(if once then s.l.t1 else s.l.t2);
    var expires := if v in s.slots then s.slots[v].expires else 0;
    s.(l := Demoted(s.l, once), len := s.len - 1, slots := s.slots[v := Slot(s.empty, true, expires)])
  }

  // ---------- the lists after a request ----------

  /** Every list without `k`. */
  function Out<K(==)>(l: Lists<K>, k: K): Lists<K> {
    Lists(Without(l.t1, k), Without(l.t2, k), Without(l.b1, k), Without(l.b2, k))
  }

  function PushT1<K>(l: Lists<K>, k: K): Lists<K> { l.(t1 := [k] + l.t1) }

  function PushT2<K>(l: Lists<K>, k: K): Lists<K> { l.(t2 := [k] + l.t2) }

  lemma MoveIs<K(!new)>(l: Lists<K>, k: K)
    requires Disjoint(l)
    ensures SetMRU(l, k, T1) == PushT1(Out(l, k), k) && SetMRU(l, k, T2) == PushT2(Out(l, k), k)
    ensures Place(l, k).None? ==> Out(l, k) == l
  {
    hide Without;
    NotIn(l.t1, k);
    NotIn(l.t2, k);
    NotIn(l.b1, k);
    NotIn(l.b2, k);
  }

  lemma NotIn<A>(s: seq<A>, x: A)
    ensures x !in s ==> Without(s, x) == s
  {
    if x !in s {
      WithoutAbsent(s, x);
    }
  }

  /** The target that a hit in a ghost list leaves: it moves by the ratio of the ghost lists, at least by
      one, towards the list of the ghost. */
  function Target<K(==)>(l: Lists<K>, p: int, c: int, k: K): int
    requires k in l.b1 || k in l.b2
  {
    if k in l.b1 then Min(p + Max(1, |l.b2| / |l.b1|), c) else Max(p - Max(1, |l.b1| / |l.b2|), 0)
  }

  /** Whether a request for a ghost takes its room from t1. */
  predicate GhostTakesT1<K(==)>(l: Lists<K>, p: int, c: int, k: K)
    requires k in l.b1 || k in l.b2
  {
    l.t1 != [] && if k in l.b1 then |l.t1| > Target(l, p, c, k) else |l.t1| >= Target(l, p, c, k)
  }

  /** A known key moves to the front of t2. */
  lemma HitLists<K(!new), V>(s: State<K, V>, k: K)
    requires MayRequest(s, k) && (k in s.l.t1 || k in s.l.t2)
    ensures Req(s, k) == Some(s.(l := PushT2(Out(s.l, k), k)))
  {
    MoveIs(s.l, k);
  }

  /** A ghost moves there too, once a demotion under the new target has made room. */
  lemma GhostLists<K(!new), V>(s: State<K, V>, k: K)
    requires MayRequest(s, k) && (k in s.l.b1 || k in s.l.b2)
    ensures var once := GhostTakesT1(s.l, s.p, s.c, k);
      && (once || s.l.t2 != [])
      && var d := AfterDemotion(s.(p := Target(s.l, s.p, s.c, k)), once);
         Req(s, k) == Some(d.(l := PushT2(Out(d.l, k), k)))
  {
    hide Without, SetMRU, TaggedAt, Adapt, Out;
    AdaptByRatio(s.l, s.p, s.c, k);
    GhostHitCanReplace(s.l, s.p, s.c, k);
    var a := s.(p := Adapt(s.l, s.p, s.c, k));
    assert a.p == Target(s.l, s.p, s.c, k);
    ReplaceVictim(a, k);
    ReplaceKeeps(a, k);
    MoveIs(Replace(a, k).value.l, k);
  }

  /** A new key joins the front of t1.  With t1 and t2 together not full it just does.  Else, with t1 alone
      as large as the cache, the oldest of t1 is dropped; otherwise the directory is trimmed by a ghost if
      it has no room for one more, and the oldest of t1 or of t2 is demoted. */
  lemma NewLists<K(!new), V>(s: State<K, V>, k: K)
    requires MayRequest(s, k) && !Listed(s.l, k)
    ensures |s.l.t1| + |s.l.t2| < s.c ==> Req(s, k) == Some(s.(l := PushT1(s.l, k)))
    ensures |s.l.t1| == s.c ==>
      Req(s, k) == Some(s.(l := PushT1(s.l.(t1 := s.l.t1[..s.c - 1]), k), len := s.len - 1,
                           slots := s.slots - {Back(s.l.t1)}))
    ensures |s.l.t1| < s.c == |s.l.t1| + |s.l.t2| ==>
      && (|s.l.t1| + |s.l.b1| == s.c ==> s.l.b1 != [])
      && (Total(s.l) == 2 * s.c && |s.l.t1| + |s.l.b1| < s.c ==> s.l.b2 != [])
      && s.l.t2 != []
      && var d := AfterDemotion(Trimmed(s), |s.l.t1| > s.p);
         Req(s, k) == Some(d.(l := PushT1(d.l, k)))
  {
    hide Without, SetMRU, TaggedAt, Out, AfterDemotion;
    var l := s.l;
    if |l.t1| + |l.t2| < s.c {
      MoveIs(l, k);
    } else if |l.t1| == s.c {
      TrimFits(s, T1, k);
      MoveIs(l.(t1 := l.t1[..s.c - 1]), k);
    } else {
      if |l.t1| + |l.b1| == s.c {
        TrimFits(s, B1, k);
      } else if Total(l) == 2 * s.c {
        TrimFits(s, B2, k);
      }
      NewDemotes(s, Trimmed(s), k);
    }
  }

  /** The directory without the ghost that has to go: the oldest of b1 if t1 and b1 hold as many keys as the
      cache, else the oldest of b2 if all four lists hold twice as many. */
  function Trimmed<K(==), V>(s: State<K, V>): State<K, V> {
    if |s.l.t1| + |s.l.b1| == s.c && s.l.b1 != [] then
      s.(l := s.l.(b1 := s.l.b1[..|s.l.b1| - 1]), len := s.len - 1, slots := s.slots - {Back(s.l.b1)})
    else if Total(s.l) == 2 * s.c && s.l.b2 != [] then
      s.(l := s.l.(b2 := s.l.b2[..|s.l.b2| - 1]), len := s.len - 1, slots := s.slots - {Back(s.l.b2)})
    else s
  }

  lemma TrimFits<K(!new), V>(s: State<K, V>, w: Which, k: K)
    requires MayRequest(s, k) && !Listed(s.l, k) && Members(s.l, w) != []
    ensures var m := Members(s.l, w);
      DelLRU(s, w) == Some(s.(l := Update(s.l, w, m[..|m| - 1]), len := s.len - 1, slots := s.slots - {Back(m)}))
    ensures var d := DelLRU(s, w).value;
      Disjoint(d.l) && TaggedBut(d.l, d.slots, k) && !Listed(d.l, k) && k !in d.slots
  {
    DropBack(s.l, w);
    DelLRUKeeps(s, w, k);
  }

  lemma NewDemotes<K(!new), V>(s: State<K, V>, d: State<K, V>, k: K)
    requires Disjoint(d.l) && TaggedBut(d.l, d.slots, k) && !Listed(d.l, k) && d.l.t2 != [] && 0 <= d.p
    ensures var r := AfterDemotion(d, |d.l.t1| > d.p); Then(Replace(d, k), k, T1) == Some(r.(l := PushT1(r.l, k)))
  {
    hide Without, SetMRU, TaggedAt, AfterDemotion;
    ReplaceVictim(d, k);
    ReplaceKeeps(d, k);
    MoveIs(Replace(d, k).value.l, k);
  }

  // ---------- which live key goes ----------

  function Oldest<A>(s: seq<A>): Option<A> { if s == [] then None else Some(Back(s)) }

  /** The key whose entry a request for `k` demotes or drops, if any. */
  function Victim<K(==)>(l: Lists<K>, p: int, c: int, k: K): Option<K> {
    if k in l.t1 || k in l.t2 then None
    else if k in l.b1 || k in l.b2 then Oldest(if GhostTakesT1(l, p, c, k) then l.t1 else l.t2)
    else if |l.t1| + |l.t2| < c then None
    else Oldest(if |l.t1| == c || |l.t1| > p then l.t1 else l.t2)
  }

  /** A ghost always takes the room of another entry, a new key when t1 and t2 fill the cache. */
  predicate NeedsRoom<K(==)>(l: Lists<K>, c: int, k: K) {
    k !in l.t1 && k !in l.t2 && (k in l.b1 || k in l.b2 || |l.t1| + |l.t2| >= c)
  }

  lemma RequestEvicts<K(!new), V>(s: State<K, V>, k: K)
    requires MayRequest(s, k)
    ensures Req(s, k).Some? && Victim(s.l, s.p, s.c, k) != Some(k)
    ensures var r := Req(s, k).value;
      forall x | x != k :: x in Live(r.slots) <==> x in Live(s.slots) && Victim(s.l, s.p, s.c, k) != Some(x)
    ensures NeedsRoom(s.l, s.c, k) <==> Victim(s.l, s.p, s.c, k).Some?
  {
    hide Without, SetMRU, Out, Req, Demoted;
    if k in s.l.t1 || k in s.l.t2 {
      HitLists(s, k);
    } else if k in s.l.b1 || k in s.l.b2 {
      GhostLists(s, k);
      DemotionEvicts(s, s, GhostTakesT1(s.l, s.p, s.c, k));
    } else {
      NewLists(s, k);
      if |s.l.t1| + |s.l.t2| >= s.c {
        if |s.l.t1| < s.c {
          TrimIsGhost(s, k);
          DemotionEvicts(s, Trimmed(s), |s.l.t1| > s.p);
        }
      }
    }
    if s.l.t1 != [] {
      assert Back(s.l.t1) in s.l.t1;
    }
    if s.l.t2 != [] {
      assert Back(s.l.t2) in s.l.t2;
    }
  }

  lemma DemotionEvicts<K(!new), V>(s: State<K, V>, d: State<K, V>, once: bool)
    requires d.l.t1 == s.l.t1 && d.l.t2 == s.l.t2 && Live(d.slots) == Live(s.slots)
    requires if once then s.l.t1 != [] else s.l.t2 != []
    ensures Live(AfterDemotion(d, once).slots) == Live(s.slots) - {Back(if once then s.l.t1 else s.l.t2)}
  {
    hide Demoted;
  }

  lemma TrimIsGhost<K(!new), V>(s: State<K, V>, k: K)
    requires MayRequest(s, k) && !Listed(s.l, k)
    ensures Live(Trimmed(s).slots) == Live(s.slots) && Trimmed(s).l.t1 == s.l.t1 && Trimmed(s).l.t2 == s.l.t2
  {
    if s.l.b1 != [] {
      assert TaggedAt(s.l, s.slots, Back(s.l.b1)) && Back(s.l.b1) in s.l.b1;
    }
    if s.l.b2 != [] {
      assert TaggedAt(s.l, s.slots, Back(s.l.b2)) && Back(s.l.b2) in s.l.b2;
    }
  }

  /** A Set makes its key live and takes the room from one entry at most: that of a full cache which is the
      oldest of t1, or of t2, as the sizes and the target say. */
  lemma SetEvicts<K(!new), V>(s: State<K, V>, k: K, v: V, e: int)
    requires Inv(s)
    ensures Set(s, k, v, e).Some?
    ensures var r := Set(s, k, v, e).value; var victim := Victim(s.l, s.p, s.c, k);
      && (victim.Some? <==> NeedsRoom(s.l, s.c, k)) && victim != Some(k)
      && Live(r.slots) == Live(s.slots) - (if victim.Some? then {victim.value} else {}) + {k}
  {
    hide Req, Victim, NeedsRoom, Without, Place;
    var a := Prepare(s, k, v, e);
    Prepared(s, k, v, e);
    RequestEvicts(a, k);
    SetKeeps(s, k, v, e);
    assert forall x | x != k :: x in Live(a.slots) <==> x in Live(s.slots);
  }

  /** A Get of a ghost takes its room in the same way; any other Get evicts nothing. */
  lemma GetEvicts<K(!new), V>(s: State<K, V>, k: K)
    requires Inv(s)
    ensures Get(s, k).Some?
    ensures var r := Get(s, k).value.0; var victim := Victim(s.l, s.p, s.c, k);
      if k in s.l.b1 || k in s.l.b2 then victim.Some? && Live(r.slots) == Live(s.slots) - {victim.value}
      else Live(r.slots) == Live(s.slots)
  {
    hide Req, Victim, NeedsRoom, Without, Survive, Disjoint, Sizes, Place;
    KnownNeedsRoom(s, k);
    GetKeeps(s, k);
    if k in s.slots {
      RequestEvicts(s, k);
      ReqKeeps(s, k);
    }
  }

  lemma KnownNeedsRoom<K(!new), V>(s: State<K, V>, k: K)
    requires Inv(s)
    ensures (k in s.l.b1 || k in s.l.b2) <==> k in s.slots && NeedsRoom(s.l, s.c, k)
    ensures k in s.slots ==> MayRequest(s, k)
  {
    assert TaggedAt(s.l, s.slots, k);
  }
}
