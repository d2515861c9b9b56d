/** The Adaptive Replacement Cache of common/arc as a function on values.

    The four lists hold keys, most recently used first.  `slots` is what the key map
    reaches: the value, the `ghost` flag (here `evicted`) and the expiry.
    A step that would dereference the back of an empty list has no result (None). */
module ArcSpec {
  import opened Common

  datatype Which = T1 | T2 | B1 | B2

  datatype Lists<K> = Lists(t1: seq<K>, t2: seq<K>, b1: seq<K>, b2: seq<K>)

  datatype Slot<V> = Slot(value: V, evicted: bool, expires: int)

  datatype State<K, V> = State(
    c: int, empty: V, p: int, len: int, l: Lists<K>, slots: map<K, Slot<V>>)

  // ---------- list moves ----------

  function Back<A>(s: seq<A>): A
    requires s != []
  {
    s[|s| - 1]
  }

  function Without<A(==)>(s: seq<A>, x: A): (r: seq<A>) {
    if s == [] then []
    else if s[0] == x then s[1..]
    else [s[0]] + Without(s[1..], x)
  }

  function Members<K>(l: Lists<K>, w: Which): seq<K> {
    match w
    case T1 => l.t1
    case T2 => l.t2
    case B1 => l.b1
    case B2 => l.b2
  }

  function Update<K>(l: Lists<K>, w: Which, s: seq<K>): Lists<K> {
    match w
    case T1 => l.(t1 := s)
    case T2 => l.(t2 := s)
    case B1 => l.(b1 := s)
    case B2 => l.(b2 := s)
  }

  /** The list the entry's `ll` names. */
  function Place<K(==)>(l: Lists<K>, k: K): Option<Which> {
    if k in l.t1 then Some(T1) else if k in l.t2 then Some(T2)
    else if k in l.b1 then Some(B1) else if k in l.b2 then Some(B2) else None
  }

  /** entry.setMRU: leave the list the entry is in, if any, and become the front of `w`. */
  function SetMRU<K(==)>(l: Lists<K>, k: K, w: Which): Lists<K> {
    var d := match Place(l, k)
      case None => l
      case Some(v) => Update(l, v, Without(Members(l, v), k));
    Update(d, w, [k] + Members(d, w))
  }

  function Total<K>(l: Lists<K>): nat { |l.t1| + |l.t2| + |l.b1| + |l.b2| }

  // ---------- the operations ----------

  function DelLRU<K(==), V>(s: State<K, V>, w: Which): Option<State<K, V>> {
    var m := Members(s.l, w);
    if m == [] then None
    else Some(s.(l := Update(s.l, w, m[..|m| - 1]), len := s.len - 1, slots := s.slots - {Back(m)}))
  }

  function Wipe<K, V>(slots: map<K, Slot<V>>, k: K, empty: V): map<K, Slot<V>> {
    if k in slots then slots[k := Slot(empty, true, slots[k].expires)] else slots
  }

  predicate FromT1<K(==)>(l: Lists<K>, p: int, k: K) {
    |l.t1| > 0 && (|l.t1| > p || (k in l.b2 && |l.t1| == p))
  }

  /** Turn the oldest entry of `f` into a ghost, at the front of `w`. */
  function Demote<K(==), V>(s: State<K, V>, f: Which, w: Which): Option<State<K, V>> {
    var m := Members(s.l, f);
    if m == [] then None
    else Some(s.(l := SetMRU(s.l, Back(m), w), len := s.len - 1, slots := Wipe(s.slots, Back(m), s.empty)))
  }

  function Replace<K(==), V>(s: State<K, V>, k: K): Option<State<K, V>> {
    if FromT1(s.l, s.p, k) then Demote(s, T1, B1) else Demote(s, T2, B2)
  }

  function Min(a: int, b: int): int { if a < b then a else b }

  function Max(a: int, b: int): int { if a < b then b else a }

  /** The target after a hit in a ghost list. */
  function Adapt<K(==)>(l: Lists<K>, p: int, c: int, k: K): int
    requires k in l.b1 || k in l.b2
  {
    if k in l.b1 then Min(p + (if |l.b1| >= |l.b2| then 1 else |l.b2| / |l.b1|), c)
    else Max(p - (if |l.b2| >= |l.b1| then 1 else |l.b1| / |l.b2|), 0)
  }

  function Then<K(==), V>(o: Option<State<K, V>>, k: K, w: Which): Option<State<K, V>> {
    if o.None? then None else Some(o.value.(l := SetMRU(o.value.l, k, w)))
  }

  function Req<K(==), V>(s: State<K, V>, k: K): Option<State<K, V>> {
    match Place(s.l, k)
    case Some(w) =>
      if w.T1? || w.T2? then Then(Some(s), k, T2)
      else Then(Replace(s.(p := Adapt(s.l, s.p, s.c, k)), k), k, T2)
    case None =>
      if |s.l.t1| + |s.l.b1| == s.c then
        if |s.l.t1| < s.c then
          var d := DelLRU(s, B1);
          if d.None? then None else Then(Replace(d.value, k), k, T1)
        else Then(DelLRU(s, T1), k, T1)
      else if |s.l.t1| + |s.l.b1| < s.c then
        if Total(s.l) >= s.c then
          var d := if Total(s.l) == 2 * s.c then DelLRU(s, B2) else Some(s);
          if d.None? then None else Then(Replace(d.value, k), k, T1)
        else Then(Some(s), k, T1)
      else Then(Some(s), k, T1)
  }

  function Empty<K, V>(c: int, empty: V): State<K, V> {
    State(c, empty, 0, 0, Lists([], [], [], []), map[])
  }

  /** What the first lines of setWithExpire do, before the request. */
  function Prepare<K(==), V>(s: State<K, V>, k: K, v: V, expires: int): State<K, V> {
    if k !in s.slots then s.(len := s.len + 1)
    else s.(len := s.len + (if s.slots[k].evicted then 1 else 0),
            slots := s.slots[k := Slot(v, false, expires)])
  }

  function Set<K(==), V>(s: State<K, V>, k: K, v: V, expires: int): Option<State<K, V>> {
    var r := Req(Prepare(s, k, v, expires), k);
    if r.None? || k in s.slots then r
    else Some(r.value.(slots := r.value.slots[k := Slot(v, false, expires)]))
  }

  /** The new state, and the value and expiry when the key is present and not a ghost. */
  function Get<K(==), V>(s: State<K, V>, k: K): Option<(State<K, V>, Option<(V, int)>)> {
    if k !in s.slots then Some((s, None))
    else
      var r := Req(s, k);
      if r.None? then None
      else if k !in r.value.slots || r.value.slots[k].evicted then Some((r.value, None))
      else Some((r.value, Some((r.value.slots[k].value, r.value.slots[k].expires))))
  }
}
