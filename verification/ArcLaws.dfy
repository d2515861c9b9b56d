/** What every request to the cache keeps. */
module ArcLaws {
  import opened Common
  import opened ArcSpec

  // ---------- the invariant ----------

  ghost predicate Disjoint<K(!new)>(l: Lists<K>) {
    && NoDup(l.t1) && NoDup(l.t2) && NoDup(l.b1) && NoDup(l.b2)
    && (forall k | k in l.t1 :: k !in l.t2 && k !in l.b1 && k !in l.b2)
    && (forall k | k in l.t2 :: k !in l.b1 && k !in l.b2)
    && (forall k | k in l.b1 :: k !in l.b2)
  }

  /** The sizes.  The last line is what makes every step safe. */
  ghost predicate Sizes<K>(l: Lists<K>, p: int, c: int) {
    && 1 <= c && 0 <= p <= c
    && |l.t1| + |l.b1| <= c
    && |l.t1| + |l.t2| <= c
    && Total(l) <= 2 * c
    && (|l.t1| + |l.t2| < c ==> l.b1 == [] && l.b2 == [])
  }

  ghost function Live<K, V>(slots: map<K, Slot<V>>): set<K> {
    set k | k in slots && !slots[k].evicted
  }

  ghost predicate Listed<K>(l: Lists<K>, k: K) { Place(l, k).Some? }

  /** The map holds exactly the listed keys; t1 has no ghosts, b1 and b2 only ghosts.
      Nothing is said about `k`, which a caller may be moving. */
  ghost predicate TaggedBut<K(!new), V>(l: Lists<K>, slots: map<K, Slot<V>>, k: K) {
    forall x | x != k :: TaggedAt(l, slots, x)
  }

  ghost predicate TaggedAt<K, V>(l: Lists<K>, slots: map<K, Slot<V>>, x: K) {
    && (x in slots <==> Place(l, x).Some?)
    && (x in slots && Place(l, x) == Some(T1) ==> !slots[x].evicted)
    && (x in slots && (Place(l, x) == Some(B1) || Place(l, x) == Some(B2)) ==> slots[x].evicted)
  }

  ghost predicate Tagged<K(!new), V>(l: Lists<K>, slots: map<K, Slot<V>>) {
    forall x :: TaggedAt(l, slots, x)
  }

  ghost function Drift<K, V>(s: State<K, V>): int { |Live(s.slots)| - s.len }

  ghost predicate Inv<K(!new), V>(s: State<K, V>) {
    Disjoint(s.l) && Sizes(s.l, s.p, s.c) && Tagged(s.l, s.slots) && Drift(s) >= 0
  }

  // ---------- sequences without repetition ----------

  function One(b: bool): nat { if b then 1 else 0 }

  lemma {:induction false} WithoutAbsent<A>(s: seq<A>, x: A)
    requires x !in s
    ensures Without(s, x) == s
  {
    if s != [] {
      WithoutAbsent(s[1..], x);
    }
  }

  lemma {:induction false} WithoutIs<A>(s: seq<A>, x: A) returns (i: nat)
    requires x in s
    ensures i < |s| && s[i] == x
    ensures Without(s, x) == s[..i] + s[i + 1..]
  {
    if s[0] == x {
      i := 0;
    } else {
      i := WithoutIs(s[1..], x);
      i := i + 1;
      assert s[1..][..i - 1] == s[1..i];
      assert [s[0]] + s[1..i] == s[..i];
    }
  }

  /** Removing the one occurrence of x keeps every other element, in order. */
  lemma WithoutAt<A(!new)>(s: seq<A>, x: A) returns (i: nat)
    requires NoDup(s) && x in s
    ensures i < |s| && s[i] == x
    ensures Without(s, x) == s[..i] + s[i + 1..]
    ensures |Without(s, x)| == |s| - 1
    ensures NoDup(Without(s, x)) && x !in Without(s, x)
    ensures forall y | y != x :: y in Without(s, x) <==> y in s
  {
    hide Without;
    i := WithoutIs(s, x);
    var r := s[..i] + s[i + 1..];
    forall y | y != x && y in s
      ensures y in r
    {
      var j :| 0 <= j < |s| && s[j] == y;
      assert r[if j < i then j else j - 1] == y;
    }
  }

  lemma {:induction false} WithoutBack<A(!new)>(s: seq<A>)
    requires s != [] && NoDup(s)
    ensures Without(s, Back(s)) == s[..|s| - 1]
  {
    var i := WithoutAt(s, Back(s));
    assert i == |s| - 1;
  }

  // ---------- one list move ----------

  /** Every key but `k` stays in its list. */
  ghost predicate SameBut<K(!new)>(l: Lists<K>, r: Lists<K>, k: K) {
    forall x | x != k :: Place(r, x) == Place(l, x)
  }

  lemma ReplaceMembers<K(!new)>(l: Lists<K>, w: Which, m: seq<K>, k: K)
    requires Disjoint(l) && NoDup(m)
    requires forall x | x != k :: x in m <==> x in Members(l, w)
    requires k in m ==> Place(l, k).None? || Place(l, k) == Some(w)
    ensures Disjoint(Update(l, w, m)) && SameBut(l, Update(l, w, m), k)
    ensures Place(Update(l, w, m), k)
         == if k in m then Some(w) else if Place(l, k) == Some(w) then None else Place(l, k)
  {
  }

  lemma Detached<K(!new)>(l: Lists<K>, k: K, w: Which)
    requires Disjoint(l) && Place(l, k) == Some(w)
    ensures var d := Update(l, w, Without(Members(l, w), k));
      && Disjoint(d) && SameBut(l, d, k) && Place(d, k).None?
      && |Members(d, w)| == |Members(l, w)| - 1
  {
    var _ := WithoutAt(Members(l, w), k);
    ReplaceMembers(l, w, Without(Members(l, w), k), k);
  }

  lemma Pushed<K(!new)>(d: Lists<K>, k: K, w: Which)
    requires Disjoint(d) && Place(d, k).None?
    ensures var r := Update(d, w, [k] + Members(d, w));
      Disjoint(r) && SameBut(d, r, k) && Place(r, k) == Some(w)
  {
    ReplaceMembers(d, w, [k] + Members(d, w), k);
  }

  lemma MoveToFront<K(!new)>(l: Lists<K>, k: K, w: Which)
    requires Disjoint(l)
    ensures var r := SetMRU(l, k, w); var f := Place(l, k);
      && Disjoint(r) && SameBut(l, r, k) && Place(r, k) == Some(w)
      && |r.t1| == |l.t1| - One(f == Some(T1)) + One(w == T1)
      && |r.t2| == |l.t2| - One(f == Some(T2)) + One(w == T2)
      && |r.b1| == |l.b1| - One(f == Some(B1)) + One(w == B1)
      && |r.b2| == |l.b2| - One(f == Some(B2)) + One(w == B2)
  {
    hide Disjoint, Place, Without;
    var d := l;
    if Place(l, k).Some? {
      Detached(l, k, Place(l, k).value);
      d := Update(l, Place(l, k).value, Without(Members(l, Place(l, k).value), k));
    }
    Pushed(d, k, w);
  }

  /** Taking the last element off a list. */
  lemma DropBack<K(!new)>(l: Lists<K>, w: Which)
    requires Disjoint(l) && Members(l, w) != []
    ensures var m := Members(l, w); var r := Update(l, w, m[..|m| - 1]);
      && Disjoint(r) && Place(l, Back(m)) == Some(w) && SameBut(l, r, Back(m)) && Place(r, Back(m)).None?
  {
    var m := Members(l, w);
    assert m == m[..|m| - 1] + [Back(m)];
    assert Back(m) in m;
    ReplaceMembers(l, w, m[..|m| - 1], Back(m));
  }

  // ---------- slots ----------

  /** Every entry that is still live was live before with the same value and expiry. */
  ghost predicate Survive<K(!new), V>(slots: map<K, Slot<V>>, r: map<K, Slot<V>>) {
    forall x | x in r && !r[x].evicted :: x in slots && slots[x] == r[x]
  }

  /** 1 when the oldest member is already a ghost: its departure counts in `len` a second time. */
  ghost function Waste1<K, V>(slots: map<K, Slot<V>>, m: seq<K>): nat {
    One(m != [] && Back(m) in slots && slots[Back(m)].evicted)
  }

  lemma WipeLive<K(!new), V>(slots: map<K, Slot<V>>, v: K, empty: V)
    requires v in slots
    ensures var r := Wipe(slots, v, empty);
      && Survive(slots, r) && r.Keys == slots.Keys && r == slots[v := r[v]] && r[v].evicted
      && |Live(r)| == |Live(slots)| - One(!slots[v].evicted)
  {
    assert Live(Wipe(slots, v, empty)) == Live(slots) - {v};
  }

  lemma DeleteLive<K(!new), V>(slots: map<K, Slot<V>>, v: K)
    requires v in slots
    ensures Survive(slots, slots - {v}) && |Live(slots - {v})| == |Live(slots)| - One(!slots[v].evicted)
  {
    assert Live(slots - {v}) == Live(slots) - {v};
  }

  // ---------- delLRU and replace ----------

  ghost predicate SameConfig<K, V>(s: State<K, V>, r: State<K, V>) {
    r.c == s.c && r.empty == s.empty
  }

  lemma DelLRUKeeps<K(!new), V>(s: State<K, V>, w: Which, k: K)
    requires Disjoint(s.l) && TaggedBut(s.l, s.slots, k)
    requires Members(s.l, w) != [] && Back(Members(s.l, w)) != k
    ensures DelLRU(s, w).Some?
    ensures var r := DelLRU(s, w).value;
      && Disjoint(r.l) && TaggedBut(r.l, r.slots, k) && Place(r.l, k) == Place(s.l, k)
      && (k in r.slots <==> k in s.slots) && Survive(s.slots, r.slots)
      && Drift(r) == Drift(s) + Waste1(s.slots, Members(s.l, w))
  {
    DropBack(s.l, w);
    var v := Back(Members(s.l, w));
    assert TaggedAt(s.l, s.slots, v);
    DeleteLive(s.slots, v);
    var r := DelLRU(s, w).value;
    forall x | x != k
      ensures TaggedAt(r.l, r.slots, x)
    {
      assert TaggedAt(s.l, s.slots, x);
    }
  }

  lemma ReplaceKeeps<K(!new), V>(s: State<K, V>, k: K)
    requires Disjoint(s.l) && TaggedBut(s.l, s.slots, k)
    requires k !in s.l.t1 && k !in s.l.t2
    requires FromT1(s.l, s.p, k) || s.l.t2 != []
    ensures Replace(s, k).Some?
    ensures var r := Replace(s, k).value; var f := FromT1(s.l, s.p, k);
      && Disjoint(r.l) && TaggedBut(r.l, r.slots, k) && Place(r.l, k) == Place(s.l, k)
      && |r.l.t1| == |s.l.t1| - One(f) && |r.l.t2| == |s.l.t2| - One(!f)
      && |r.l.b1| == |s.l.b1| + One(f) && |r.l.b2| == |s.l.b2| + One(!f)
      && r.slots.Keys == s.slots.Keys && (k in s.slots ==> r.slots[k] == s.slots[k])
      && Survive(s.slots, r.slots)
      && Drift(r) == Drift(s) + (if f then 0 else Waste1(s.slots, s.l.t2))
  {
    var f := FromT1(s.l, s.p, k);
    var w := if f then T1 else T2;
    var v := Back(Members(s.l, w));
    DropBack(s.l, w);
    assert v != k && TaggedAt(s.l, s.slots, v);
    MoveToFront(s.l, v, if f then B1 else B2);
    WipeLive(s.slots, v, s.empty);
    var r := Replace(s, k).value;
    forall x | x != k
      ensures TaggedAt(r.l, r.slots, x)
    {
      assert TaggedAt(s.l, s.slots, x);
    }
  }

  // ---------- requests ----------

  ghost function ReplaceWaste<K, V>(s: State<K, V>, p: int, k: K): nat {
    if FromT1(s.l, p, k) then 0 else Waste1(s.slots, s.l.t2)
  }

  /** How many departures of a ghost the request for `k` counts a second time. */
  ghost function Waste<K, V>(s: State<K, V>, k: K): nat {
    match Place(s.l, k)
    case Some(w) => if w.T1? || w.T2? then 0 else ReplaceWaste(s, Adapt(s.l, s.p, s.c, k), k)
    case None =>
      if |s.l.t1| + |s.l.b1| == s.c then
        if |s.l.t1| < s.c then 1 + ReplaceWaste(s, s.p, k) else 0
      else if Total(s.l) < s.c then 0
      else One(Total(s.l) == 2 * s.c) + ReplaceWaste(s, s.p, k)
  }

  ghost predicate MayRequest<K(!new), V>(s: State<K, V>, k: K) {
    && Disjoint(s.l) && Sizes(s.l, s.p, s.c) && TaggedBut(s.l, s.slots, k)
    && (Listed(s.l, k) <==> k in s.slots) && (k in s.l.t1 ==> !s.slots[k].evicted)
  }

  ghost predicate Requested<K(!new), V>(s: State<K, V>, r: State<K, V>, k: K) {
    && Disjoint(r.l) && Sizes(r.l, r.p, r.c) && TaggedBut(r.l, r.slots, k) && SameConfig(s, r)
    && Place(r.l, k) == Some(if k in s.slots then T2 else T1)
    && (k in r.slots <==> k in s.slots) && (k in s.slots ==> r.slots[k] == s.slots[k])
    && Survive(s.slots, r.slots)
  }

  /** The last line of every request. */
  lemma Finish<K(!new), V>(s: State<K, V>, b: State<K, V>, k: K, w: Which)
    requires Disjoint(b.l) && TaggedBut(b.l, b.slots, k) && SameConfig(s, b)
    requires w == if k in s.slots then T2 else T1
    requires (k in b.slots <==> k in s.slots) && (k in s.slots ==> b.slots[k] == s.slots[k])
    requires Survive(s.slots, b.slots)
    requires Sizes(SetMRU(b.l, k, w), b.p, b.c)
    ensures Then(Some(b), k, w).Some? && Requested(s, Then(Some(b), k, w).value, k)
    ensures Drift(Then(Some(b), k, w).value) == Drift(b)
  {
    MoveToFront(b.l, k, w);
    var r := Then(Some(b), k, w).value;
    forall x | x != k
      ensures TaggedAt(r.l, r.slots, x)
    {
      assert TaggedAt(b.l, b.slots, x);
    }
  }

  lemma ReqHit<K(!new), V>(s: State<K, V>, k: K)
    requires MayRequest(s, k) && (k in s.l.t1 || k in s.l.t2)
    ensures Req(s, k).Some? && Requested(s, Req(s, k).value, k)
    ensures Drift(Req(s, k).value) == Drift(s)
  {
    MoveToFront(s.l, k, T2);
    Finish(s, s, k, T2);
  }

  lemma RatioAtMostOne(a: nat, b: nat)
    requires a >= b && a > 0
    ensures b / a <= 1 && (b < a ==> b / a == 0)
  {
    if b < a {
      assert b / a == 0;
    } else {
      assert b / a == 1;
    }
  }

  /** The target moves by the ratio of the ghost lists, but at least by one, and stays in range. */
  lemma AdaptByRatio<K(!new)>(l: Lists<K>, p: int, c: int, k: K)
    requires Sizes(l, p, c) && (k in l.b1 || k in l.b2)
    ensures 0 <= Adapt(l, p, c, k) <= c
    ensures k in l.b1 ==> Adapt(l, p, c, k) == Min(p + Max(1, |l.b2| / |l.b1|), c)
    ensures k !in l.b1 ==> Adapt(l, p, c, k) == Max(p - Max(1, |l.b1| / |l.b2|), 0)
  {
    AdaptInRange(l, p, c, k);
    if k in l.b1 {
      if |l.b1| >= |l.b2| {
        RatioAtMostOne(|l.b1|, |l.b2|);
      } else {
        assert |l.b2| / |l.b1| >= 1;
      }
    } else {
      if |l.b2| >= |l.b1| {
        RatioAtMostOne(|l.b2|, |l.b1|);
      } else {
        assert |l.b1| / |l.b2| >= 1;
      }
    }
  }

  lemma AdaptInRange<K(!new)>(l: Lists<K>, p: int, c: int, k: K)
    requires Sizes(l, p, c) && (k in l.b1 || k in l.b2)
    ensures 0 <= Adapt(l, p, c, k) <= c
    ensures k in l.b1 ==> Adapt(l, p, c, k) > p || Adapt(l, p, c, k) == c
    ensures k !in l.b1 ==> Adapt(l, p, c, k) < p || Adapt(l, p, c, k) == 0
  {
    if k in l.b1 && |l.b1| < |l.b2| {
      assert |l.b2| / |l.b1| >= 1;
    }
    if k !in l.b1 && |l.b2| < |l.b1| {
      assert |l.b1| / |l.b2| >= 1;
    }
  }

  lemma GhostHitCanReplace<K(!new)>(l: Lists<K>, p: int, c: int, k: K)
    requires Disjoint(l) && Sizes(l, p, c) && (k in l.b1 || k in l.b2)
    ensures FromT1(l, Adapt(l, p, c, k), k) || l.t2 != []
  {
    AdaptInRange(l, p, c, k);
    if l.t2 == [] {
      assert |l.b1| > 0 || |l.b2| > 0;
      assert |l.t1| == c;
      assert k !in l.b1;
    }
  }

  lemma ReqGhost<K(!new), V>(s: State<K, V>, k: K)
    requires MayRequest(s, k) && (k in s.l.b1 || k in s.l.b2)
    ensures Req(s, k).Some? && Requested(s, Req(s, k).value, k)
    ensures Drift(Req(s, k).value) == Drift(s) + Waste(s, k)
  {
    hide Adapt, Without, Survive, TaggedAt, Live;
    AdaptInRange(s.l, s.p, s.c, k);
    GhostHitCanReplace(s.l, s.p, s.c, k);
    var a := s.(p := Adapt(s.l, s.p, s.c, k));
    ReplaceKeeps(a, k);
    var b := Replace(a, k).value;
    MoveToFront(b.l, k, T2);
    assert |s.l.b1| > 0 || |s.l.b2| > 0;
    Finish(s, b, k, T2);
  }

  /** A new key once there is room for it: demote one live entry, then insert. */
  lemma ReplaceThenFinish<K(!new), V>(s: State<K, V>, d: State<K, V>, k: K)
    requires MayRequest(s, k) && !Listed(s.l, k)
    requires Disjoint(d.l) && TaggedBut(d.l, d.slots, k) && SameConfig(s, d) && d.p == s.p
    requires Survive(s.slots, d.slots) && !Listed(d.l, k) && k !in d.slots
    requires |d.l.t1| + |d.l.t2| == d.c && |d.l.t1| + |d.l.b1| < d.c && Total(d.l) < 2 * d.c
    ensures Replace(d, k).Some?
    ensures var r := Then(Replace(d, k), k, T1).value;
      Requested(s, r, k) && Drift(r) == Drift(d) + ReplaceWaste(d, d.p, k)
  {
    ReplaceKeeps(d, k);
    var b := Replace(d, k).value;
    MoveToFront(b.l, k, T1);
    Finish(s, b, k, T1);
  }

  lemma SameReplaceWaste<K(!new), V>(s: State<K, V>, d: State<K, V>, w: Which, k: K)
    requires Disjoint(s.l) && !Listed(s.l, k) && (w == B1 || w == B2) && Members(s.l, w) != []
    requires DelLRU(s, w) == Some(d) && !Listed(d.l, k)
    ensures ReplaceWaste(d, d.p, k) == ReplaceWaste(s, s.p, k)
  {
    DropBack(s.l, w);
    if s.l.t2 != [] {
      assert Back(s.l.t2) in s.l.t2;
    }
  }

  /** Case IV A with room in t1: the oldest ghost of b1 goes, then a live entry is demoted. */
  lemma ReqNewFull<K(!new), V>(s: State<K, V>, k: K)
    requires MayRequest(s, k) && !Listed(s.l, k) && |s.l.t1| + |s.l.b1| == s.c && |s.l.t1| < s.c
    ensures Req(s, k).Some? && Requested(s, Req(s, k).value, k)
    ensures Drift(Req(s, k).value) == Drift(s) + Waste(s, k)
  {
    DropBack(s.l, B1);
    assert TaggedAt(s.l, s.slots, Back(s.l.b1));
    DelLRUKeeps(s, B1, k);
    var d := DelLRU(s, B1).value;
    ReplaceThenFinish(s, d, k);
    SameReplaceWaste(s, d, B1, k);
  }

  /** Case IV A with t1 alone full: the oldest entry of t1 is dropped. */
  lemma ReqNewDrop<K(!new), V>(s: State<K, V>, k: K)
    requires MayRequest(s, k) && !Listed(s.l, k) && |s.l.t1| == s.c
    ensures Req(s, k).Some? && Requested(s, Req(s, k).value, k)
    ensures Drift(Req(s, k).value) == Drift(s)
  {
    DropBack(s.l, T1);
    assert TaggedAt(s.l, s.slots, Back(s.l.t1));
    DelLRUKeeps(s, T1, k);
    var d := DelLRU(s, T1).value;
    MoveToFront(d.l, k, T1);
    Finish(s, d, k, T1);
  }

  /** Case IV B with both caches full: the oldest ghost of b2 goes first. */
  lemma ReqNewTrim<K(!new), V>(s: State<K, V>, k: K)
    requires MayRequest(s, k) && !Listed(s.l, k) && |s.l.t1| + |s.l.b1| < s.c && Total(s.l) == 2 * s.c
    ensures Req(s, k).Some? && Requested(s, Req(s, k).value, k)
    ensures Drift(Req(s, k).value) == Drift(s) + Waste(s, k)
  {
    DropBack(s.l, B2);
    assert TaggedAt(s.l, s.slots, Back(s.l.b2));
    DelLRUKeeps(s, B2, k);
    var d := DelLRU(s, B2).value;
    ReplaceThenFinish(s, d, k);
    SameReplaceWaste(s, d, B2, k);
  }

  /** Case IV B with ghosts to spare. */
  lemma ReqNewRoom<K(!new), V>(s: State<K, V>, k: K)
    requires MayRequest(s, k) && !Listed(s.l, k) && |s.l.t1| + |s.l.b1| < s.c && Total(s.l) < 2 * s.c
    ensures Req(s, k).Some? && Requested(s, Req(s, k).value, k)
    ensures Drift(Req(s, k).value) == Drift(s) + Waste(s, k)
  {
    MoveToFront(s.l, k, T1);
    if Total(s.l) < s.c {
      Finish(s, s, k, T1);
    } else {
      ReplaceThenFinish(s, s, k);
    }
  }

  /** Any request: it never touches the back of an empty list, it keeps the invariant, it moves
      the key where it belongs, and it changes `len` against the live count by `Waste` exactly. */
  lemma ReqKeeps<K(!new), V>(s: State<K, V>, k: K)
    requires MayRequest(s, k)
    ensures Req(s, k).Some? && Requested(s, Req(s, k).value, k)
    ensures Drift(Req(s, k).value) == Drift(s) + Waste(s, k)
  {
    if k in s.l.t1 || k in s.l.t2 {
      ReqHit(s, k);
    } else if k in s.l.b1 || k in s.l.b2 {
      ReqGhost(s, k);
    } else if |s.l.t1| == s.c {
      ReqNewDrop(s, k);
    } else if |s.l.t1| + |s.l.b1| == s.c {
      ReqNewFull(s, k);
    } else if Total(s.l) == 2 * s.c {
      ReqNewTrim(s, k);
    } else {
      ReqNewRoom(s, k);
    }
  }
}
