/** The cache as the program keeps it: entries on the heap that are updated in place, four lists of
    entries, and a key map.  Every method is proved to do to `View()` what ArcSpec says. */
module ArcCache {
  import opened Common
  import opened ArcSpec
  import opened ArcLaws
  import opened ArcRuns
  import opened ArcSizes

  class Entry<K, V> {
    const key: K
    var value: V
    var ll: Option<Which>
    var isGhost: bool
    var expires: int

    constructor (key: K, value: V, expires: int)
      ensures this.key == key && this.value == value && this.expires == expires
      ensures ll == None && !isGhost
    {
      this.key, this.value, this.expires := key, value, expires;
      ll, isGhost := None, false;
    }
  }

  ghost function Keys<K, V>(m: seq<Entry<K, V>>): (r: seq<K>)
    ensures |r| == |m|
  {
    seq(|m|, i requires 0 <= i < |m| => m[i].key)
  }

  lemma KeysIn<K, V>(m: seq<Entry<K, V>>, e: Entry<K, V>)
    requires e in m
    ensures e.key in Keys(m)
  {
    var i :| 0 <= i < |m| && m[i] == e;
    assert Keys(m)[i] == e.key;
  }

  lemma {:induction false} KeysWithout<K, V>(m: seq<Entry<K, V>>, e: Entry<K, V>)
    requires e in m && NoDup(Keys(m))
    ensures Keys(Without(m, e)) == Without(Keys(m), e.key)
    ensures forall x | x in Without(m, e) :: x in m && x != e
    ensures forall x | x in m && x != e :: x in Without(m, e)
  {
    assert Keys(m)[1..] == Keys(m[1..]);
    assert m == [m[0]] + m[1..];
    if m[0] == e {
      forall x | x in m[1..]
        ensures x != e
      {
        var i :| 0 <= i < |m[1..]| && m[1..][i] == x;
        assert Keys(m)[0] == e.key && Keys(m)[i + 1] == x.key;
      }
    } else {
      KeysIn(m[1..], e);
      assert NoDup(Keys(m[1..]));
      KeysWithout(m[1..], e);
      assert Keys([m[0]] + Without(m[1..], e)) == [m[0].key] + Keys(Without(m[1..], e));
    }
  }

  // ---------- lists of entries and lists of keys ----------

  ghost function KeyLists<K, V>(l: Lists<Entry<K, V>>): Lists<K> {
    Lists(Keys(l.t1), Keys(l.t2), Keys(l.b1), Keys(l.b2))
  }

  /** The map leads each key to its one entry, and every listed entry is in the map, except `n`:
      an entry that is being inserted. */
  ghost predicate Mapped<K(!new), V>(l: Lists<Entry<K, V>>, cache: map<K, Entry<K, V>>, n: Entry?<K, V>) {
    && Disjoint(KeyLists(l))
    && (forall w, x | x in Members(l, w) :: x == n || (x.key in cache && cache[x.key] == x))
    && (forall k | k in cache :: cache[k].key == k && cache[k] != n)
    && (n != null ==> n.key !in cache)
  }

  ghost predicate Known<K, V>(cache: map<K, Entry<K, V>>, n: Entry?<K, V>, e: Entry<K, V>) {
    e == n || (e.key in cache && cache[e.key] == e)
  }

  /** A known entry is in the list its key is in. */
  lemma PlaceOfEntry<K(!new), V>(l: Lists<Entry<K, V>>, cache: map<K, Entry<K, V>>, n: Entry?<K, V>,
                                 e: Entry<K, V>, w: Which)
    requires Mapped(l, cache, n) && Known(cache, n, e)
    ensures e in Members(l, w) <==> Place(KeyLists(l), e.key) == Some(w)
  {
    var m := Members(l, w);
    if e in m {
      KeysIn(m, e);
    }
    if e.key in Keys(m) {
      var i :| 0 <= i < |m| && Keys(m)[i] == e.key;
      assert m[i] in m;
    }
  }

  lemma UpdateKeys<K, V>(l: Lists<Entry<K, V>>, w: Which, m: seq<Entry<K, V>>)
    ensures KeyLists(Update(l, w, m)) == Update(KeyLists(l), w, Keys(m))
    ensures Keys(Members(l, w)) == Members(KeyLists(l), w)
    ensures forall v, x | x in Members(Update(l, w, m), v) :: x in m || x in Members(l, v)
  {
  }

  lemma UnhookedKeys<K(!new), V>(l: Lists<Entry<K, V>>, cache: map<K, Entry<K, V>>, n: Entry?<K, V>,
                                 e: Entry<K, V>, w: Which)
    requires Mapped(l, cache, n) && Known(cache, n, e) && Place(KeyLists(l), e.key) == Some(w)
    ensures var d := Update(l, w, Without(Members(l, w), e));
      && KeyLists(d) == Update(KeyLists(l), w, Without(Keys(Members(l, w)), e.key))
      && (forall v, x | x in Members(d, v) :: x in Members(l, v))
  {
    PlaceOfEntry(l, cache, n, e, w);
    KeysWithout(Members(l, w), e);
    UpdateKeys(l, w, Without(Members(l, w), e));
  }

  function Unhooked<K(==), V>(l: Lists<Entry<K, V>>, e: Entry<K, V>, ll: Option<Which>): Lists<Entry<K, V>> {
    match ll
    case None => l
    case Some(v) => Update(l, v, Without(Members(l, v), e))
  }

  function Moved<K(==), V>(l: Lists<Entry<K, V>>, e: Entry<K, V>, ll: Option<Which>, w: Which)
    : Lists<Entry<K, V>>
  {
    var d := Unhooked(l, e, ll);
    Update(d, w, [e] + Members(d, w))
  }

  lemma MovedKeys<K(!new), V>(l: Lists<Entry<K, V>>, cache: map<K, Entry<K, V>>, n: Entry?<K, V>,
                              e: Entry<K, V>, w: Which)
    requires Mapped(l, cache, n) && Known(cache, n, e)
    ensures var r := Moved(l, e, Place(KeyLists(l), e.key), w);
      && KeyLists(r) == SetMRU(KeyLists(l), e.key, w)
      && (forall v, x | x in Members(r, v) :: x == e || x in Members(l, v))
  {
    var f := Place(KeyLists(l), e.key);
    var d := Unhooked(l, e, f);
    if f.Some? {
      UnhookedKeys(l, cache, n, e, f.value);
      UpdateKeys(l, f.value, []);
    }
    PushedKeys(d, e, w);
  }

  lemma PushedKeys<K, V>(d: Lists<Entry<K, V>>, e: Entry<K, V>, w: Which)
    ensures var r := Update(d, w, [e] + Members(d, w));
      && KeyLists(r) == Update(KeyLists(d), w, [e.key] + Members(KeyLists(d), w))
      && (forall v, x | x in Members(r, v) :: x == e || x in Members(d, v))
  {
    UpdateKeys(d, w, [e] + Members(d, w));
    assert Keys([e] + Members(d, w)) == [e.key] + Keys(Members(d, w));
  }

  lemma MovedMapped<K(!new), V>(l: Lists<Entry<K, V>>, cache: map<K, Entry<K, V>>, n: Entry?<K, V>,
                                e: Entry<K, V>, w: Which)
    requires Mapped(l, cache, n) && Known(cache, n, e)
    ensures var r := Moved(l, e, Place(KeyLists(l), e.key), w);
      && Mapped(r, cache, n) && KeyLists(r) == SetMRU(KeyLists(l), e.key, w)
      && SameBut(KeyLists(l), KeyLists(r), e.key) && Place(KeyLists(r), e.key) == Some(w)
  {
    MovedKeys(l, cache, n, e, w);
    MoveToFront(KeyLists(l), e.key, w);
  }

  lemma BackIsKnown<K(!new), V>(l: Lists<Entry<K, V>>, cache: map<K, Entry<K, V>>, n: Entry?<K, V>, w: Which)
    requires Mapped(l, cache, n) && Members(l, w) != []
    ensures Known(cache, n, Back(Members(l, w)))
    ensures Back(Keys(Members(l, w))) == Back(Members(l, w)).key
    ensures Place(KeyLists(l), Back(Members(l, w)).key) == Some(w)
  {
    assert Back(Members(l, w)) in Members(l, w);
    PlaceOfEntry(l, cache, n, Back(Members(l, w)), w);
  }

  lemma DroppedKeys<K(!new), V>(l: Lists<Entry<K, V>>, cache: map<K, Entry<K, V>>, n: Entry?<K, V>, w: Which)
    requires Mapped(l, cache, n) && Members(l, w) != []
    ensures var e := Back(Members(l, w)); var d := Update(l, w, Without(Members(l, w), e));
      && KeyLists(d) == Update(KeyLists(l), w, Keys(Members(l, w))[..|Members(l, w)| - 1])
      && Disjoint(KeyLists(d)) && SameBut(KeyLists(l), KeyLists(d), e.key) && Place(KeyLists(d), e.key).None?
      && (forall v, x | x in Members(d, v) :: x in Members(l, v))
  {
    var m := Members(l, w);
    BackIsKnown(l, cache, n, w);
    UnhookedKeys(l, cache, n, Back(m), w);
    UpdateKeys(l, w, []);
    WithoutBack(Keys(m));
    DropBack(KeyLists(l), w);
  }

  lemma DroppedMapped<K(!new), V>(l: Lists<Entry<K, V>>, cache: map<K, Entry<K, V>>, n: Entry?<K, V>, w: Which)
    requires Mapped(l, cache, n) && Members(l, w) != [] && Back(Members(l, w)) != n
    ensures var e := Back(Members(l, w)); var d := Update(l, w, Without(Members(l, w), e));
      && Mapped(d, cache - {e.key}, n)
      && KeyLists(d) == Update(KeyLists(l), w, Keys(Members(l, w))[..|Members(l, w)| - 1])
      && SameBut(KeyLists(l), KeyLists(d), e.key)
  {
    var m := Members(l, w);
    DroppedKeys(l, cache, n, w);
    var d := Update(l, w, Without(m, Back(m)));
    forall v, x | x in Members(d, v)
      ensures x.key != Back(m).key
    {
      KeysIn(Members(d, v), x);
      UpdateKeys(d, v, []);
    }
  }

  lemma DroppedView<K(!new), V>(l: Lists<Entry<K, V>>, s: State<K, V>, w: Which)
    requires s.l == KeyLists(l) && Members(l, w) != []
    ensures var m := Keys(Members(l, w));
      DelLRU(s, w) == Some(s.(l := Update(s.l, w, m[..|m| - 1]), len := s.len - 1,
                              slots := s.slots - {Back(Members(l, w)).key}))
  {
    UpdateKeys(l, w, []);
  }

  class ARC<K(!new, ==), V> {
    const c: int
    const empty: V
    var p: int
    var len: int
    var t1: seq<Entry<K, V>>
    var t2: seq<Entry<K, V>>
    var b1: seq<Entry<K, V>>
    var b2: seq<Entry<K, V>>
    var cache: map<K, Entry<K, V>>

    // ---------- the abstract value ----------

    ghost function Nodes(): Lists<Entry<K, V>>
      reads this`t1, this`t2, this`b1, this`b2
    {
      Lists(t1, t2, b1, b2)
    }

    ghost function Slots(): map<K, Slot<V>>
      reads this`cache, cache.Values
    {
      map k | k in cache :: Slot(cache[k].value, cache[k].isGhost, cache[k].expires)
    }

    ghost function View(): State<K, V>
      reads this, cache.Values
    {
      State(c, empty, p, len, KeyLists(Nodes()), Slots())
    }

    // ---------- the object invariant ----------

    /** Entries and lists agree: an entry is in exactly the list its `ll` names. */
    ghost predicate Linked(n: Entry?<K, V>)
      reads this, cache.Values, n
    {
      && Mapped(Nodes(), cache, n)
      && (forall k | k in cache :: cache[k].ll == Place(KeyLists(Nodes()), k))
      && (n != null ==> n.ll == Place(KeyLists(Nodes()), n.key))
    }

    ghost predicate Valid()
      reads this, cache.Values
    {
      Linked(null) && Fit(View())
    }

    constructor (maxSize: int, empty: V)
      ensures Valid() && View() == Empty(maxSize, empty) && fresh(cache.Values)
    {
      c := maxSize;
      this.empty := empty;
      p, len := 0, 0;
      t1, t2, b1, b2 := [], [], [], [];
      cache := map[];
      new;
      EmptyFits<K, V>(maxSize, empty);
    }

    method Clear()
      requires Valid()
      modifies this
      ensures Valid() && View() == Empty(c, empty)
    {
      p := 0;
      t1 := [];
      b1 := [];
      t2 := [];
      b2 := [];
      len := 0;
      cache := map[];
      EmptyFits<K, V>(c, empty);
    }

    // ---------- list links ----------

    method SetList(w: Which, m: seq<Entry<K, V>>)
      modifies this`t1, this`t2, this`b1, this`b2
      ensures Nodes() == Update(old(Nodes()), w, m)
    {
      match w
      case T1 => t1 := m;
      case T2 => t2 := m;
      case B1 => b1 := m;
      case B2 => b2 := m;
    }

    function List(w: Which): (m: seq<Entry<K, V>>)
      reads this
      ensures m == Members(Nodes(), w)
    {
      match w
      case T1 => t1
      case T2 => t2
      case B1 => b1
      case B2 => b2
    }

    method Detach(e: Entry<K, V>)
      modifies this`t1, this`t2, this`b1, this`b2
      ensures Nodes() == Unhooked(old(Nodes()), e, e.ll)
    {
      match e.ll
      case None =>
      case Some(w) => SetList(w, Without(List(w), e));
    }

    method Relink(e: Entry<K, V>, w: Which)
      modifies this`t1, this`t2, this`b1, this`b2, e`ll
      ensures Nodes() == Moved(old(Nodes()), e, old(e.ll), w) && e.ll == Some(w)
    {
      Detach(e);
      e.ll := Some(w);
      SetList(w, [e] + List(w));
    }

    method SetMRU(e: Entry<K, V>, w: Which, ghost n: Entry?<K, V>)
      requires Linked(n) && Known(cache, n, e)
      modifies this`t1, this`t2, this`b1, this`b2, e`ll
      ensures Linked(n) && e.ll == Some(w)
      ensures View() == old(View()).(l := ArcSpec.SetMRU(old(View()).l, e.key, w))
    {
      MovedMapped(Nodes(), cache, n, e, w);
      Relink(e, w);
      assert Slots() == old(Slots());
    }

    method Drop(lru: Entry<K, V>)
      requires lru.key in cache && lru.ll.Some?
      modifies this`t1, this`t2, this`b1, this`b2, this`len, this`cache
      ensures Nodes() == Unhooked(old(Nodes()), lru, lru.ll) && len == old(len) - 1
      ensures cache == old(cache) - {lru.key} && Slots() == old(Slots()) - {lru.key}
    {
      Detach(lru);
      len := len - 1;
      cache := cache - {lru.key};
    }

    method DelLRU(w: Which, ghost n: Entry?<K, V>)
      requires Linked(n) && List(w) != [] && Back(List(w)) != n
      modifies this`t1, this`t2, this`b1, this`b2, this`len, this`cache
      ensures Linked(n) && Some(View()) == ArcSpec.DelLRU(old(View()), w)
      ensures cache.Values <= old(cache.Values)
    {
      BackIsKnown(Nodes(), cache, n, w);
      DroppedMapped(Nodes(), cache, n, w);
      DroppedView(Nodes(), View(), w);
      Drop(Back(List(w)));
    }

    method Fade(lru: Entry<K, V>, ghost n: Entry?<K, V>)
      requires Linked(n) && lru.key in cache && cache[lru.key] == lru
      modifies this`len, lru`value, lru`isGhost
      ensures Linked(n)
      ensures View() == old(View()).(len := old(len) - 1, slots := Wipe(old(View()).slots, lru.key, empty))
    {
      lru.value := empty;
      lru.isGhost := true;
      len := len - 1;
    }

    lemma BackInView(f: Which, n: Entry?<K, V>)
      requires Linked(n) && List(f) != []
      ensures var lru := Back(List(f));
        && Known(cache, n, lru) && (lru != n ==> lru.key in cache && cache[lru.key] == lru)
        && Members(View().l, f) != [] && Back(Members(View().l, f)) == lru.key
    {
      BackIsKnown(Nodes(), cache, n, f);
      UpdateKeys(Nodes(), f, []);
    }

    /** The oldest entry of `f` loses its value, becomes a ghost and moves to the front of `w`. */
    method Demote(f: Which, w: Which, ghost n: Entry?<K, V>)
      requires Linked(n) && List(f) != [] && Back(List(f)) != n
      modifies this`t1, this`t2, this`b1, this`b2, this`len, Back(List(f))
      ensures Linked(n) && Some(View()) == ArcSpec.Demote(old(View()), f, w)
    {
      hide Linked, ArcSpec.SetMRU, Wipe, KeyLists, Nodes, Slots, Known;
      BackInView(f, n);
      var lru := Back(List(f));
      Fade(lru, n);
      SetMRU(lru, w, n);
    }

    lemma ListedAreMapped(n: Entry?<K, V>, w: Which)
      requires Linked(n) && (n != null ==> n.ll == None)
      ensures Members(View().l, w) != [] ==> List(w) != [] && Back(List(w)) in cache.Values
      ensures List(w) != [] ==> Back(List(w)) != n && Back(List(w)).ll == Some(w)
    {
      UpdateKeys(Nodes(), w, []);
      if List(w) != [] {
        BackIsKnown(Nodes(), cache, n, w);
      }
    }

    method Replace(e: Entry<K, V>, ghost n: Entry?<K, V>)
      requires Linked(n) && Known(cache, n, e) && (e.ll == None || e.ll == Some(B1) || e.ll == Some(B2))
      requires n != null ==> n.ll == None
      requires ArcSpec.Replace(View(), e.key).Some?
      modifies this`t1, this`t2, this`b1, this`b2, this`len, cache.Values
      ensures Linked(n) && Some(View()) == ArcSpec.Replace(old(View()), e.key)
      ensures unchanged(e`ll)
    {
      ListedAreMapped(n, T1);
      ListedAreMapped(n, T2);
      assert (e.ll == Some(B2)) == (e.key in View().l.b2);
      if |t1| > 0 && (|t1| > p || (e.ll == Some(B2) && |t1| == p)) {
        Demote(T1, B1, n);
      } else {
        Demote(T2, B2, n);
      }
    }

    method ReplaceThenMove(e: Entry<K, V>, w: Which, ghost n: Entry?<K, V>)
      requires Linked(n) && Known(cache, n, e) && (e.ll == None || e.ll == Some(B1) || e.ll == Some(B2))
      requires n != null ==> n.ll == None
      requires ArcSpec.Replace(View(), e.key).Some?
      modifies this`t1, this`t2, this`b1, this`b2, this`len, cache.Values, e`ll
      ensures Linked(n) && Some(View()) == Then(ArcSpec.Replace(old(View()), e.key), e.key, w)
    {
      Replace(e, n);
      SetMRU(e, w, n);
    }

    /** The adaptation after a hit in b1 or b2; the divisor is never zero. */
    method AdaptTarget(e: Entry<K, V>)
      requires Linked(null) && Known(cache, null, e) && (e.ll == Some(B1) || e.ll == Some(B2))
      modifies this`p
      ensures Place(KeyLists(Nodes()), e.key) == e.ll
      ensures View() == old(View()).(p := Adapt(KeyLists(Nodes()), old(p), c, e.key))
    {
      KeyInItsList(e);
      var d;
      if e.ll == Some(B1) {
        if |b1| >= |b2| {
          d := 1;
        } else {
          d := |b2| / |b1|;
        }
        p := Min(p + d, c);
      } else {
        if |b2| >= |b1| {
          d := 1;
        } else {
          d := |b1| / |b2|;
        }
        p := Max(p - d, 0);
      }
    }

    /** A request for a known entry. */
    method ReqKnown(e: Entry<K, V>)
      requires Linked(null) && Known(cache, null, e) && e.ll != None
      requires ArcSpec.Req(View(), e.key).Some?
      modifies this`t1, this`t2, this`b1, this`b2, this`p, this`len, cache.Values
      ensures Linked(null) && Some(View()) == ArcSpec.Req(old(View()), e.key)
    {
      assert e in cache.Values;
      if e.ll == Some(T1) || e.ll == Some(T2) {
        SetMRU(e, T2, null);
      } else {
        AdaptTarget(e);
        ReplaceThenMove(e, T2, null);
      }
    }

    lemma KeyInItsList(e: Entry<K, V>)
      requires Linked(null) && Known(cache, null, e) && e.ll.Some?
      ensures List(e.ll.value) != [] && e.key in Members(View().l, e.ll.value)
    {
      UpdateKeys(Nodes(), e.ll.value, []);
    }

    /** A request for an entry that is being inserted. */
    method ReqNew(e: Entry<K, V>) returns (ok: bool)
      requires Linked(e) && e.ll == None
      requires ArcSpec.Req(View(), e.key).Some? || (c == 0 && t1 == [] && b1 == [])
      modifies this`t1, this`t2, this`b1, this`b2, this`len, this`cache, cache.Values, e`ll
      ensures Linked(e) && ArcSpec.Req(old(View()), e.key) == if ok then Some(View()) else None
      ensures !ok ==> View() == old(View()) && e.ll == None && cache == old(cache)
      ensures cache.Values <= old(cache.Values)
    {
      hide Linked, ArcSpec.SetMRU;
      NotPlaced(e);
      ListedAreMapped(e, T1);
      ListedAreMapped(e, B1);
      ListedAreMapped(e, B2);
      if |t1| + |b1| == c {
        if |t1| < c {
          DelLRU(B1, e);
          ReplaceThenMove(e, T1, e);
        } else {
          if |t1| == 0 {
            return false;
          }
          DelLRU(T1, e);
          SetMRU(e, T1, e);
        }
      } else if |t1| + |b1| < c {
        if |t1| + |t2| + |b1| + |b2| >= c {
          if |t1| + |t2| + |b1| + |b2| == 2 * c {
            DelLRU(B2, e);
          }
          ReplaceThenMove(e, T1, e);
        } else {
          SetMRU(e, T1, e);
        }
      } else {
        SetMRU(e, T1, e);
      }
      ok := true;
    }

    lemma NotPlaced(e: Entry<K, V>)
      requires Linked(e) && e.ll == None
      ensures Place(View().l, e.key) == None
    {
    }

    /** An entry that was not listed leaves no trace. */
    lemma Unlisted(e: Entry<K, V>)
      requires Linked(e) && e.ll == None
      ensures Linked(null)
    {
      forall w
        ensures e !in Members(Nodes(), w)
      {
        PlaceOfEntry(Nodes(), cache, e, e, w);
      }
    }

    /** The key is absent: a new entry is requested, then put in the map. */
    method Insert(key: K, value: V, expires: int) returns (ok: bool)
      requires Linked(null) && key !in cache && Place(View().l, key) == None
      requires if ArcSpec.Set(View(), key, value, expires).Some?
        then Place(ArcSpec.Set(View(), key, value, expires).value.l, key).Some? else c == 0 && t1 == [] && b1 == []
      modifies this, cache.Values
      ensures Linked(null) && ArcSpec.Set(old(View()), key, value, expires) == if ok then Some(View()) else None
      ensures !ok ==> View() == old(View()).(len := old(len) + 1)
      ensures fresh(cache.Values - old(cache.Values))
    {
      ghost var s := View();
      len := len + 1;
      var ent := new Entry(key, value, expires);
      assert View() == Prepare(s, key, value, expires);
      ok := ReqNew(ent);
      if ok {
        Enter(ent);
      } else {
        Unlisted(ent);
      }
    }

    method Enter(ent: Entry<K, V>)
      requires Linked(ent) && ent.ll.Some? && !ent.isGhost
      modifies this`cache
      ensures Linked(null) && cache == old(cache)[ent.key := ent]
      ensures View() == old(View()).(slots := old(View()).slots[ent.key := Slot(ent.value, false, ent.expires)])
    {
      cache := cache[ent.key := ent];
    }

    method Store(ent: Entry<K, V>, value: V, expires: int)
      requires Linked(null) && Known(cache, null, ent)
      modifies this`len, ent`value, ent`isGhost, ent`expires
      ensures Linked(null) && View() == Prepare(old(View()), ent.key, value, expires)
    {
      hide KeyLists, Place;
      if ent.isGhost {
        len := len + 1;
      }
      ent.value := value;
      ent.isGhost := false;
      ent.expires := expires;
    }

    /** The key is known: its entry is overwritten in place, then requested. */
    method Overwrite(ent: Entry<K, V>, value: V, expires: int)
      requires Linked(null) && Known(cache, null, ent) && ent.ll != None
      requires ArcSpec.Set(View(), ent.key, value, expires).Some?
      modifies this`t1, this`t2, this`b1, this`b2, this`p, this`len, cache.Values
      ensures Linked(null) && Some(View()) == ArcSpec.Set(old(View()), ent.key, value, expires)
    {
      assert ent in cache.Values;
      Store(ent, value, expires);
      ReqKnown(ent);
    }

    /** `ok` is false when the operation dereferences the back of an empty list. */
    method SetWithExpire(key: K, value: V, expires: int) returns (ok: bool)
      requires Valid()
      modifies this, cache.Values
      ensures Valid() && ok == (c != 0)
      ensures ArcSpec.Set(old(View()), key, value, expires) == if ok then Some(View()) else None
      ensures !ok ==> View() == old(View()).(len := old(len) + 1)
      ensures fresh(cache.Values - old(cache.Values))
    {
      SetFits(View(), key, value, expires);
      if key !in cache {
        ok := Insert(key, value, expires);
      } else {
        Overwrite(cache[key], value, expires);
        ok := true;
      }
    }

    method Set(key: K, value: V) returns (ok: bool)
      requires Valid()
      modifies this, cache.Values
      ensures Valid() && ok == (c != 0)
      ensures ArcSpec.Set(old(View()), key, value, 0) == if ok then Some(View()) else None
      ensures fresh(cache.Values - old(cache.Values))
    {
      ok := SetWithExpire(key, value, 0);
    }

    /** The value and expiry, and whether the key was found. */
    method GetWithExpire(key: K) returns (value: V, expires: int, ok: bool)
      requires Valid()
      modifies this, cache.Values
      ensures Valid() && ArcSpec.Get(old(View()), key).Some?
      ensures View() == ArcSpec.Get(old(View()), key).value.0
      ensures ArcSpec.Get(old(View()), key).value.1 == if ok then Some((value, expires)) else None
      ensures cache.Values <= old(cache.Values)
    {
      GetFits(View(), key);
      value, expires, ok := empty, 0, false;
      if key in cache {
        var ent := cache[key];
        ReqKnown(ent);
        if !ent.isGhost {
          value, expires, ok := ent.value, ent.expires, true;
        }
      }
    }

    method Len() returns (n: int)
      requires Valid()
      ensures n == View().len
    {
      n := len;
    }
  }
}
