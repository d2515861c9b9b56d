/** The order in which a group lists its proxies, without any loop: by the first filter that matches
    the name, and otherwise as they come. */
module ProxyOrder {
  import opened Common

  datatype Proxy = Proxy(id: int, name: string, typ: string)

  /** A compiled filter, as a test on names. */
  type Filter = string -> bool

  /** The index of the first filter that matches, or their number. */
  function Key(fs: seq<Filter>, name: string): (k: nat)
    ensures k <= |fs|
    ensures forall j | 0 <= j < k :: !fs[j](name)
    ensures k < |fs| ==> fs[k](name)
  {
    if fs == [] then 0 else if fs[0](name) then 0 else 1 + Key(fs[1..], name)
  }

  /** The proxies with key k, in order. */
  function Bucket(fs: seq<Filter>, k: nat, ps: seq<Proxy>): seq<Proxy> {
    if ps == [] then []
    else
      var last := ps[|ps| - 1];
      Bucket(fs, k, ps[..|ps| - 1]) + (if Key(fs, last.name) == k then [last] else [])
  }

  function Names(ps: seq<Proxy>): set<string> { set p | p in ps :: p.name }

  /** Without the proxies whose name came before. */
  function Dedup(ps: seq<Proxy>): seq<Proxy> {
    if ps == [] then []
    else
      var last := ps[|ps| - 1];
      Dedup(ps[..|ps| - 1]) + (if last.name in Names(ps[..|ps| - 1]) then [] else [last])
  }

  /** The first n buckets, each without repeated names. */
  function Buckets(fs: seq<Filter>, ps: seq<Proxy>, n: nat): seq<Proxy> {
    if n == 0 then [] else Buckets(fs, ps, n - 1) + Dedup(Bucket(fs, n - 1, ps))
  }

  /** Stable sort by key: the buckets 0 to |fs|, one after the other. */
  function SortUpTo(fs: seq<Filter>, ps: seq<Proxy>, n: nat): seq<Proxy> {
    if n == 0 then [] else SortUpTo(fs, ps, n - 1) + Bucket(fs, n - 1, ps)
  }

  function StableSort(fs: seq<Filter>, ps: seq<Proxy>): seq<Proxy> {
    SortUpTo(fs, ps, |fs| + 1)
  }

  // ---------- appending ----------

  lemma BucketSnoc(fs: seq<Filter>, k: nat, ps: seq<Proxy>, p: Proxy)
    ensures Bucket(fs, k, ps + [p]) == Bucket(fs, k, ps) + (if Key(fs, p.name) == k then [p] else [])
  {
    assert (ps + [p])[..|ps|] == ps;
  }

  lemma DedupSnoc(ps: seq<Proxy>, p: Proxy)
    ensures Dedup(ps + [p]) == Dedup(ps) + (if p.name in Names(ps) then [] else [p])
  {
    assert (ps + [p])[..|ps|] == ps;
  }

  lemma NamesSnoc(ps: seq<Proxy>, p: Proxy)
    ensures Names(ps + [p]) == Names(ps) + {p.name}
  {
  }

  lemma NamesConcat(a: seq<Proxy>, b: seq<Proxy>)
    ensures Names(a + b) == Names(a) + Names(b)
  {
  }

  lemma Associative<A>(a: seq<A>, b: seq<A>, c: seq<A>)
    ensures (a + b) + c == a + (b + c)
  {
  }

  lemma {:induction false} BucketConcat(fs: seq<Filter>, k: nat, a: seq<Proxy>, b: seq<Proxy>)
    ensures Bucket(fs, k, a + b) == Bucket(fs, k, a) + Bucket(fs, k, b)
  {
    if b == [] {
      assert a + b == a;
    } else {
      var p := b[|b| - 1];
      var rest := b[..|b| - 1];
      BucketConcat(fs, k, a, rest);
      hide *;
      assert b == rest + [p];
      Associative(a, rest, [p]);
      BucketSnoc(fs, k, a + rest, p);
      BucketSnoc(fs, k, rest, p);
      Associative(Bucket(fs, k, a), Bucket(fs, k, rest), if Key(fs, p.name) == k then [p] else []);
    }
  }

  lemma {:induction false} DedupNames(ps: seq<Proxy>)
    ensures Names(Dedup(ps)) == Names(ps)
  {
    if ps != [] {
      var p := ps[|ps| - 1];
      DedupNames(ps[..|ps| - 1]);
      assert ps == ps[..|ps| - 1] + [p];
      NamesSnoc(ps[..|ps| - 1], p);
      NamesSnoc(Dedup(ps[..|ps| - 1]), p);
      assert Dedup(ps[..|ps| - 1]) + [] == Dedup(ps[..|ps| - 1]);
    }
  }

  lemma {:induction false} BucketNames(fs: seq<Filter>, k: nat, ps: seq<Proxy>)
    ensures forall p | p in Bucket(fs, k, ps) :: p in ps && Key(fs, p.name) == k
    ensures forall p | p in ps && Key(fs, p.name) == k :: p in Bucket(fs, k, ps)
  {
    if ps != [] {
      BucketNames(fs, k, ps[..|ps| - 1]);
      assert ps == ps[..|ps| - 1] + [ps[|ps| - 1]];
    }
  }

  // ---------- what a stable sort is ----------

  lemma {:induction false} BucketOfBucket(fs: seq<Filter>, j: nat, k: nat, ps: seq<Proxy>)
    ensures Bucket(fs, j, Bucket(fs, k, ps)) == if j == k then Bucket(fs, k, ps) else []
  {
    if ps != [] {
      var p := ps[|ps| - 1];
      BucketOfBucket(fs, j, k, ps[..|ps| - 1]);
      BucketSnoc(fs, j, Bucket(fs, k, ps[..|ps| - 1]), p);
      assert Bucket(fs, k, ps[..|ps| - 1]) + [] == Bucket(fs, k, ps[..|ps| - 1]);
    }
  }

  lemma {:induction false} BucketOfSort(fs: seq<Filter>, k: nat, ps: seq<Proxy>, n: nat)
    ensures Bucket(fs, k, SortUpTo(fs, ps, n)) == if k < n then Bucket(fs, k, ps) else []
  {
    hide *;
    if n == 0 {
      EmptySort(fs, k, ps);
    } else {
      var x, y := SortUpTo(fs, ps, n - 1), Bucket(fs, n - 1, ps);
      BucketOfSort(fs, k, ps, n - 1);
      BucketOfBucket(fs, k, n - 1, ps);
      SortUpToNext(fs, ps, n);
      BucketConcat(fs, k, x, y);
      OneSide(Bucket(fs, k, x), Bucket(fs, k, y), Bucket(fs, k, ps), k, n);
    }
  }

  lemma EmptySort(fs: seq<Filter>, k: nat, ps: seq<Proxy>)
    ensures Bucket(fs, k, SortUpTo(fs, ps, 0)) == []
  {
  }

  lemma OneSide<A>(x: seq<A>, y: seq<A>, b: seq<A>, k: nat, n: nat)
    requires x == (if k < n - 1 then b else []) && y == (if k == n - 1 then b else [])
    ensures x + y == if k < n then b else []
  {
  }

  lemma SortUpToNext(fs: seq<Filter>, ps: seq<Proxy>, n: nat)
    requires n > 0
    ensures SortUpTo(fs, ps, n) == SortUpTo(fs, ps, n - 1) + Bucket(fs, n - 1, ps)
  {
  }

  ghost predicate Ascending(fs: seq<Filter>, ps: seq<Proxy>) {
    forall i, j | 0 <= i < j < |ps| :: Key(fs, ps[i].name) <= Key(fs, ps[j].name)
  }

  lemma AscendingConcat(fs: seq<Filter>, a: seq<Proxy>, b: seq<Proxy>, k: nat)
    requires Ascending(fs, a) && forall p | p in a :: Key(fs, p.name) <= k
    requires forall p | p in b :: Key(fs, p.name) == k
    ensures Ascending(fs, a + b)
  {
    hide Key;
    var r: seq<Proxy> := a + b;
    forall i, j | 0 <= i < j < |r|
      ensures Key(fs, r[i].name) <= Key(fs, r[j].name)
    {
      if j < |a| {
        assert r[i] == a[i] && r[j] == a[j];
      } else {
        assert r[j] == b[j - |a|] && r[j] in b;
        assert r[i] in (if i < |a| then a else b);
      }
    }
  }

  lemma {:induction false} SortKeys(fs: seq<Filter>, ps: seq<Proxy>, n: nat)
    ensures forall p | p in SortUpTo(fs, ps, n) :: Key(fs, p.name) < n
    ensures Ascending(fs, SortUpTo(fs, ps, n))
  {
    hide Key, Bucket;
    if n > 0 {
      SortKeys(fs, ps, n - 1);
      BucketNames(fs, n - 1, ps);
      AscendingConcat(fs, SortUpTo(fs, ps, n - 1), Bucket(fs, n - 1, ps), n - 1);
    }
  }

  /** Keys never go down, and the proxies with one key are those of the input, in its order. */
  lemma StableSortIsStable(fs: seq<Filter>, ps: seq<Proxy>)
    ensures var r := StableSort(fs, ps);
      Ascending(fs, r) && forall k: nat :: Bucket(fs, k, r) == Bucket(fs, k, ps)
  {
    SortKeys(fs, ps, |fs| + 1);
    var r := StableSort(fs, ps);
    forall k: nat
      ensures Bucket(fs, k, r) == Bucket(fs, k, ps)
    {
      BucketOfSort(fs, k, ps, |fs| + 1);
      if k > |fs| {
        NoBucketBeyond(fs, k, ps);
      }
    }
  }

  lemma {:induction false} NoBucketBeyond(fs: seq<Filter>, k: nat, ps: seq<Proxy>)
    requires k > |fs|
    ensures Bucket(fs, k, ps) == []
  {
    if ps != [] {
      NoBucketBeyond(fs, k, ps[..|ps| - 1]);
    }
  }

  // ---------- repeated names ----------

  lemma {:induction false} DedupBucket(fs: seq<Filter>, k: nat, ps: seq<Proxy>)
    ensures Bucket(fs, k, Dedup(ps)) == Dedup(Bucket(fs, k, ps))
  {
    if ps != [] {
      var p := ps[|ps| - 1];
      var rest := ps[..|ps| - 1];
      DedupBucket(fs, k, rest);
      hide *;
      assert ps == rest + [p];
      BucketSnoc(fs, k, rest, p);
      DedupSnoc(rest, p);
      SameNameSameBucket(fs, k, rest, p);
      var x, y := Dedup(rest), Bucket(fs, k, rest);
      if p.name in Names(rest) {
        assert Dedup(ps) == x;
        if Key(fs, p.name) == k {
          DedupSnoc(y, p);
          assert Dedup(y) + [] == Dedup(y);
        } else {
          assert y + [] == y;
        }
      } else {
        assert Dedup(ps) == x + [p];
        BucketSnoc(fs, k, x, p);
        if Key(fs, p.name) == k {
          DedupSnoc(y, p);
        } else {
          assert y + [] == y && Dedup(y) + [] == Dedup(y);
        }
      }
    }
  }

  lemma SameNameSameBucket(fs: seq<Filter>, k: nat, ps: seq<Proxy>, p: Proxy)
    ensures Key(fs, p.name) == k ==> (p.name in Names(ps) <==> p.name in Names(Bucket(fs, k, ps)))
  {
    BucketNames(fs, k, ps);
  }

  /** Removing repeated names from a prefix first makes no difference. */
  lemma {:induction false} DedupPrefix(a: seq<Proxy>, b: seq<Proxy>)
    ensures Dedup(Dedup(a) + b) == Dedup(a + b)
  {
    if b == [] {
      assert Dedup(a) + b == Dedup(a) && a + b == a;
      DedupTwice(a);
    } else {
      var p := b[|b| - 1];
      var rest := b[..|b| - 1];
      DedupPrefix(a, rest);
      assert Dedup(a) + b == (Dedup(a) + rest) + [p] && a + b == (a + rest) + [p];
      DedupSnoc(Dedup(a) + rest, p);
      DedupSnoc(a + rest, p);
      DedupNames(a);
      NamesConcat(Dedup(a), rest);
      NamesConcat(a, rest);
    }
  }

  lemma {:induction false} DedupTwice(a: seq<Proxy>)
    ensures Dedup(Dedup(a)) == Dedup(a)
  {
    if a != [] {
      var p := a[|a| - 1];
      var rest := a[..|a| - 1];
      DedupTwice(rest);
      DedupSnoc(Dedup(rest), p);
      DedupNames(rest);
      assert Dedup(rest) + [] == Dedup(rest);
    }
  }

  /** ... nor from a suffix. */
  lemma {:induction false} DedupSuffix(a: seq<Proxy>, b: seq<Proxy>)
    ensures Dedup(a + Dedup(b)) == Dedup(a + b)
  {
    if b != [] {
      var p := b[|b| - 1];
      var rest := b[..|b| - 1];
      DedupSuffix(a, rest);
      hide *;
      assert b == rest + [p];
      DedupSnoc(rest, p);
      DedupSuffixStep(a, rest, p);
      assert Dedup(rest) + [] == Dedup(rest);
    }
  }

  lemma DedupSuffixStep(a: seq<Proxy>, rest: seq<Proxy>, p: Proxy)
    requires Dedup(a + Dedup(rest)) == Dedup(a + rest)
    ensures Dedup(a + (rest + [p]))
         == Dedup(a + (if p.name in Names(rest) then Dedup(rest) else Dedup(rest) + [p]))
  {
    hide *;
    var d := Dedup(rest);
    assert a + (rest + [p]) == (a + rest) + [p];
    DedupSnoc(a + rest, p);
    NamesConcat(a, rest);
    if p.name in Names(rest) {
      assert Dedup(a + rest) + [] == Dedup(a + rest);
    } else {
      assert a + (d + [p]) == (a + d) + [p];
      DedupSnoc(a + d, p);
      DedupNames(rest);
      NamesConcat(a, d);
    }
  }

  // ---------- by places ----------

  predicate NewName(ps: seq<Proxy>, i: nat) { i < |ps| && forall j | 0 <= j < i :: ps[j].name != ps[i].name }

  /** The proxies of the input whose name does not come earlier, in order. */
  lemma {:induction false} DedupAt(ps: seq<Proxy>) returns (at: seq<nat>)
    ensures PickedBy(ps, Dedup(ps), at, (i: nat) => NewName(ps, i))
  {
    hide PickedBy, NewName;
    var wanted := (i: nat) => NewName(ps, i);
    if ps == [] {
      at := [];
      PickedNone<Proxy>(wanted);
    } else {
      var n := |ps| - 1;
      at := DedupAt(ps[..n]);
      NewNames(ps);
      PickedSame(ps[..n], Dedup(ps[..n]), at, (i: nat) => NewName(ps[..n], i), wanted);
      PickedNext(ps, Dedup(ps[..n]), at, wanted);
      at := if wanted(n) then at + [n] else at;
    }
  }

  lemma NewNames(ps: seq<Proxy>)
    requires ps != []
    ensures var n := |ps| - 1;
      && (NewName(ps, n) <==> ps[n].name !in Names(ps[..n]))
      && forall i: nat | i < n :: NewName(ps[..n], i) <==> NewName(ps, i)
  {
  }

  predicate HasKey(fs: seq<Filter>, k: nat, ps: seq<Proxy>, i: nat) { i < |ps| && Key(fs, ps[i].name) == k }

  lemma {:induction false} BucketAt(fs: seq<Filter>, k: nat, ps: seq<Proxy>) returns (at: seq<nat>)
    ensures PickedBy(ps, Bucket(fs, k, ps), at, (i: nat) => HasKey(fs, k, ps, i))
  {
    hide Key, PickedBy;
    var wanted := (i: nat) => HasKey(fs, k, ps, i);
    if ps == [] {
      at := [];
      PickedNone<Proxy>(wanted);
    } else {
      var n := |ps| - 1;
      at := BucketAt(fs, k, ps[..n]);
      PickedSame(ps[..n], Bucket(fs, k, ps[..n]), at, (i: nat) => HasKey(fs, k, ps[..n], i), wanted);
      PickedNext(ps, Bucket(fs, k, ps[..n]), at, wanted);
      at := if wanted(n) then at + [n] else at;
    }
  }

  /** The entry at place i goes before that at place j. */
  ghost predicate Precedes(fs: seq<Filter>, ps: seq<Proxy>, i: nat, j: nat)
    requires i < |ps| && j < |ps|
  {
    var k, l := Key(fs, ps[i].name), Key(fs, ps[j].name);
    k < l || (k == l && i < j)
  }

  ghost predicate Arranged(fs: seq<Filter>, ps: seq<Proxy>, r: seq<Proxy>, at: seq<nat>) {
    && |at| == |r| && (forall i | 0 <= i < |at| :: at[i] < |ps| && ps[at[i]] == r[i])
    && forall i, j | 0 <= i < j < |at| :: Precedes(fs, ps, at[i], at[j])
  }

  lemma {:induction false} SortUpToAt(fs: seq<Filter>, ps: seq<Proxy>, n: nat) returns (at: seq<nat>)
    ensures Arranged(fs, ps, SortUpTo(fs, ps, n), at)
    ensures forall i: nat | i < |ps| :: i in at <==> Key(fs, ps[i].name) < n
  {
    hide Key, Bucket, Arranged, PickedBy;
    if n == 0 {
      at := [];
      NothingArranged(fs, ps);
    } else {
      var before := SortUpToAt(fs, ps, n - 1);
      var more := BucketAt(fs, n - 1, ps);
      ArrangedThen(fs, ps, SortUpTo(fs, ps, n - 1), before, Bucket(fs, n - 1, ps), more, n - 1);
      at := before + more;
    }
  }

  lemma NothingArranged(fs: seq<Filter>, ps: seq<Proxy>)
    ensures Arranged(fs, ps, [], [])
  {
  }

  lemma ArrangedThen(fs: seq<Filter>, ps: seq<Proxy>, r: seq<Proxy>, at: seq<nat>, q: seq<Proxy>, more: seq<nat>, k: nat)
    requires Arranged(fs, ps, r, at) && forall i: nat | i < |ps| :: i in at <==> Key(fs, ps[i].name) < k
    requires PickedBy(ps, q, more, (i: nat) => HasKey(fs, k, ps, i))
    ensures Arranged(fs, ps, r + q, at + more)
    ensures forall i: nat | i < |ps| :: i in at + more <==> Key(fs, ps[i].name) < k + 1
  {
    hide Key;
    var all := at + more;
    forall i, j | 0 <= i < j < |all|
      ensures Precedes(fs, ps, all[i], all[j])
    {
      if j >= |at| {
        assert more[j - |at|] in more;
        assert i < |at| ==> at[i] in at;
        assert i >= |at| ==> more[i - |at|] in more;
      }
    }
  }

  /** The stable sort: every entry of the input once, by key, and those with one key in the order of the
      input. */
  lemma StableSortAt(fs: seq<Filter>, ps: seq<Proxy>) returns (at: seq<nat>)
    ensures Arranged(fs, ps, StableSort(fs, ps), at) && forall i: nat | i < |ps| :: i in at
  {
    at := SortUpToAt(fs, ps, |fs| + 1);
  }
}
