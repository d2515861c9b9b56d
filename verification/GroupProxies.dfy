/** GetProxies of a proxy group: filter each provider, reorder over all providers, exclude. */
module GroupProxies {
  import opened Common
  import opened ProxyOrder

  /** What is fixed when the group is created.  `compatible` says which providers are of the kind
      that is never filtered; a type is excluded when it equals one of the list, ignoring case. */
  datatype Config = Config(
    filters: seq<Filter>,
    excludes: seq<Filter>,
    excludedTypes: seq<string>,
    sameFold: (string, string) -> bool,
    compatible: seq<bool>,
    fallback: Proxy)

  /** What pd.Proxies() gives for provider i when it is read for filter f. */
  type Reads = (nat, nat) -> seq<Proxy>

  /** The reads that take place: one per provider, or one per filter when it is filtered. */
  predicate Needed(c: Config, i: nat, f: nat) {
    i < |c.compatible| && (f == 0 || (f < |c.filters| && !c.compatible[i]))
  }

  /** No provider changed between the reads. */
  ghost predicate Steady(c: Config, read: Reads, content: seq<seq<Proxy>>) {
    |content| == |c.compatible| && forall i: nat, f: nat | Needed(c, i, f) :: read(i, f) == content[i]
  }

  ghost function FirstReads(c: Config, read: Reads): (content: seq<seq<Proxy>>)
    ensures |content| == |c.compatible| && forall i | 0 <= i < |content| :: content[i] == read(i, 0)
  {
    seq(|c.compatible|, i requires 0 <= i < |c.compatible| => read(i, 0))
  }

  // ---------- the value ----------

  /** One provider after its own filter pass. */
  function FromProvider(c: Config, i: nat, ps: seq<Proxy>): seq<Proxy>
    requires i < |c.compatible|
  {
    if |c.filters| == 0 || c.compatible[i] then ps else Buckets(c.filters, ps, |c.filters|)
  }

  function Gathered(c: Config, content: seq<seq<Proxy>>, n: nat): seq<Proxy>
    requires n <= |content| == |c.compatible|
  {
    if n == 0 then [] else Gathered(c, content, n - 1) + FromProvider(c, n - 1, content[n - 1])
  }

  /** After the reordering over all providers, which takes place when there are several of both. */
  function Reordered(c: Config, content: seq<seq<Proxy>>): seq<Proxy>
    requires |content| == |c.compatible|
  {
    var all := Gathered(c, content, |content|);
    if |content| > 1 && |c.filters| > 1 then Buckets(c.filters, all, |c.filters| + 1) else all
  }

  predicate NameExcluded(c: Config, p: Proxy) { exists k | 0 <= k < |c.excludes| :: c.excludes[k](p.name) }

  predicate TypeExcluded(c: Config, p: Proxy) {
    exists k | 0 <= k < |c.excludedTypes| :: c.sameFold(p.typ, c.excludedTypes[k])
  }

  predicate Excluded(c: Config, p: Proxy) { NameExcluded(c, p) || TypeExcluded(c, p) }

  function Keep(c: Config, ps: seq<Proxy>): seq<Proxy> {
    if ps == [] then []
    else Keep(c, ps[..|ps| - 1]) + (if Excluded(c, ps[|ps| - 1]) then [] else [ps[|ps| - 1]])
  }

  function Fresh(c: Config, content: seq<seq<Proxy>>): seq<Proxy>
    requires |content| == |c.compatible|
  {
    Keep(c, Reordered(c, content))
  }

  // ---------- the loops ----------

  /** The names of the proxies that one of the first k filters matches. */
  ghost function Known(fs: seq<Filter>, ps: seq<Proxy>, k: nat): set<string> {
    set p | p in ps && Key(fs, p.name) < k :: p.name
  }

  /** For a proxy of the list: it is in bucket k when filter k matches and no earlier one did. */
  lemma InBucket(fs: seq<Filter>, ps: seq<Proxy>, k: nat, p: Proxy)
    requires p in ps && k < |fs|
    ensures Key(fs, p.name) == k <==> fs[k](p.name) && p.name !in Known(fs, ps, k)
  {
  }

  lemma KnownNext(fs: seq<Filter>, ps: seq<Proxy>, k: nat)
    ensures Known(fs, ps, 0) == {}
    ensures Known(fs, ps, k + 1) == Known(fs, ps, k) + Names(Bucket(fs, k, ps))
  {
    BucketNames(fs, k, ps);
  }

  /** The inner loop: the proxies that match filter k and whose name is new. */
  method AddMatching(fs: seq<Filter>, k: nat, ps: seq<Proxy>, acc0: seq<Proxy>, names0: set<string>)
    returns (acc: seq<Proxy>, names: set<string>)
    requires k < |fs|
    ensures names0 == Known(fs, ps, k) ==>
      acc == acc0 + Dedup(Bucket(fs, k, ps)) && names == Known(fs, ps, k + 1)
  {
    hide *;
    acc, names := acc0, names0;
    ghost var tidy := names0 == Known(fs, ps, k);
    AddStart(fs, k, acc0, names0);
    for j := 0 to |ps|
      invariant tidy ==> acc == acc0 + Dedup(Bucket(fs, k, ps[..j]))
      invariant tidy ==> names == names0 + Names(Bucket(fs, k, ps[..j]))
    {
      var p := ps[j];
      assert ps[..j + 1] == ps[..j] + [p];
      if tidy {
        AddNext(fs, k, ps, j, acc0, names0);
      }
      if fs[k](p.name) {
        if p.name !in names {
          names := names + {p.name};
          acc := acc + [p];
        }
      }
    }
    assert ps[..|ps|] == ps;
    KnownNext(fs, ps, k);
  }

  lemma AddStart(fs: seq<Filter>, k: nat, acc: seq<Proxy>, names: set<string>)
    ensures acc + Dedup(Bucket(fs, k, [])) == acc && names + Names(Bucket(fs, k, [])) == names
  {
    assert acc + [] == acc;
  }

  lemma AddNext(fs: seq<Filter>, k: nat, ps: seq<Proxy>, j: nat, acc0: seq<Proxy>, names0: set<string>)
    requires k < |fs| && j < |ps| && names0 == Known(fs, ps, k)
    ensures var p, b, b' := ps[j], Bucket(fs, k, ps[..j]), Bucket(fs, k, ps[..j + 1]);
      if fs[k](p.name) && p.name !in names0 + Names(b) then
        acc0 + Dedup(b') == acc0 + Dedup(b) + [p] && names0 + Names(b') == names0 + Names(b) + {p.name}
      else
        Dedup(b') == Dedup(b) && names0 + Names(b') == names0 + Names(b)
  {
    hide *;
    var p, b := ps[j], Bucket(fs, k, ps[..j]);
    assert ps[..j + 1] == ps[..j] + [p] && p in ps;
    InBucket(fs, ps, k, p);
    BucketSnoc(fs, k, ps[..j], p);
    if Key(fs, p.name) == k {
      DedupSnoc(b, p);
      NamesSnoc(b, p);
      assert p.name in Names(b) ==> Names(b) + {p.name} == Names(b);
      assert Dedup(b) + [] == Dedup(b);
      Associative(acc0, Dedup(b), [p]);
    } else {
      assert b + [] == b;
    }
  }

  /** The loop over the filters, on one list or re-reading it each time. */
  method FilterPass(fs: seq<Filter>, read: nat -> seq<Proxy>, ghost ps: seq<Proxy>)
    returns (acc: seq<Proxy>, names: set<string>)
    ensures (forall f: nat | f < |fs| :: read(f) == ps) ==>
      acc == Buckets(fs, ps, |fs|) && names == Known(fs, ps, |fs|)
  {
    acc, names := [], {};
    ghost var steady := forall f: nat | f < |fs| :: read(f) == ps;
    KnownNext(fs, ps, 0);
    for k := 0 to |fs|
      invariant steady ==> acc == Buckets(fs, ps, k) && names == Known(fs, ps, k)
    {
      acc, names := AddMatching(fs, k, read(k), acc, names);
    }
  }

  /** The last loop of the reordering: the proxies whose name has not come yet. */
  method AddUnmatched(fs: seq<Filter>, ps: seq<Proxy>, acc0: seq<Proxy>, names0: set<string>)
    returns (acc: seq<Proxy>)
    requires names0 == Known(fs, ps, |fs|)
    ensures acc == acc0 + Dedup(Bucket(fs, |fs|, ps))
  {
    hide *;
    acc := acc0;
    var names := names0;
    AddStart(fs, |fs|, acc0, names0);
    for j := 0 to |ps|
      invariant acc == acc0 + Dedup(Bucket(fs, |fs|, ps[..j]))
      invariant names == names0 + Names(Bucket(fs, |fs|, ps[..j]))
    {
      var p := ps[j];
      UnmatchedNext(fs, ps, j, acc0, names0);
      if p.name !in names {
        names := names + {p.name};
        acc := acc + [p];
      }
    }
    assert ps[..|ps|] == ps;
  }

  lemma UnmatchedNext(fs: seq<Filter>, ps: seq<Proxy>, j: nat, acc0: seq<Proxy>, names0: set<string>)
    requires j < |ps| && names0 == Known(fs, ps, |fs|)
    ensures var p, b, b' := ps[j], Bucket(fs, |fs|, ps[..j]), Bucket(fs, |fs|, ps[..j + 1]);
      if p.name !in names0 + Names(b) then
        acc0 + Dedup(b') == acc0 + Dedup(b) + [p] && names0 + Names(b') == names0 + Names(b) + {p.name}
      else
        Dedup(b') == Dedup(b) && names0 + Names(b') == names0 + Names(b)
  {
    hide *;
    var p, b := ps[j], Bucket(fs, |fs|, ps[..j]);
    assert ps[..j + 1] == ps[..j] + [p] && p in ps;
    UnmatchedIsUnknown(fs, ps, p);
    BucketSnoc(fs, |fs|, ps[..j], p);
    if Key(fs, p.name) == |fs| {
      DedupSnoc(b, p);
      NamesSnoc(b, p);
      assert p.name in Names(b) ==> Names(b) + {p.name} == Names(b);
      assert Dedup(b) + [] == Dedup(b);
      Associative(acc0, Dedup(b), [p]);
    } else {
      assert b + [] == b;
    }
  }

  lemma UnmatchedIsUnknown(fs: seq<Filter>, ps: seq<Proxy>, p: Proxy)
    requires p in ps
    ensures Key(fs, p.name) == |fs| <==> p.name !in Known(fs, ps, |fs|)
  {
  }

  function KeepNames(c: Config, ps: seq<Proxy>): seq<Proxy> {
    if ps == [] then []
    else KeepNames(c, ps[..|ps| - 1]) + (if NameExcluded(c, ps[|ps| - 1]) then [] else [ps[|ps| - 1]])
  }

  function KeepTypes(c: Config, ps: seq<Proxy>): seq<Proxy> {
    if ps == [] then []
    else KeepTypes(c, ps[..|ps| - 1]) + (if TypeExcluded(c, ps[|ps| - 1]) then [] else [ps[|ps| - 1]])
  }

  lemma {:induction false} KeepTwice(c: Config, ps: seq<Proxy>)
    ensures KeepTypes(c, KeepNames(c, ps)) == Keep(c, ps)
  {
    hide NameExcluded, TypeExcluded;
    if ps != [] {
      var p, rest := ps[|ps| - 1], ps[..|ps| - 1];
      KeepTwice(c, rest);
      var kept := KeepNames(c, rest);
      assert (kept + [p])[..|kept|] == kept;
      assert kept + [] == kept && Keep(c, rest) + [] == Keep(c, rest);
    }
  }

  method ExcludeNames(c: Config, ps: seq<Proxy>) returns (kept: seq<Proxy>)
    ensures kept == KeepNames(c, ps)
  {
    kept := [];
    label LOOP1:
    for j := 0 to |ps|
      invariant kept == KeepNames(c, ps[..j])
    {
      var p := ps[j];
      assert ps[..j + 1][..j] == ps[..j];
      assert kept + [] == kept;
      for k := 0 to |c.excludes|
        invariant forall i | 0 <= i < k :: !c.excludes[i](p.name)
      {
        if c.excludes[k](p.name) {
          assert NameExcluded(c, p);
          continue LOOP1;
        }
      }
      kept := kept + [p];
    }
    assert ps[..|ps|] == ps;
  }

  method ExcludeTypes(c: Config, ps: seq<Proxy>) returns (kept: seq<Proxy>)
    ensures kept == KeepTypes(c, ps)
  {
    kept := [];
    label LOOP2:
    for j := 0 to |ps|
      invariant kept == KeepTypes(c, ps[..j])
    {
      var p := ps[j];
      assert ps[..j + 1][..j] == ps[..j];
      assert kept + [] == kept;
      for k := 0 to |c.excludedTypes|
        invariant forall i | 0 <= i < k :: !c.sameFold(p.typ, c.excludedTypes[i])
      {
        if c.sameFold(p.typ, c.excludedTypes[k]) {
          assert TypeExcluded(c, p);
          continue LOOP2;
        }
      }
      kept := kept + [p];
    }
    assert ps[..|ps|] == ps;
  }

  lemma {:induction false} NothingExcluded(c: Config, ps: seq<Proxy>)
    ensures |c.excludes| == 0 ==> KeepNames(c, ps) == ps
    ensures |c.excludedTypes| == 0 ==> KeepTypes(c, ps) == ps
  {
    if ps != [] {
      NothingExcluded(c, ps[..|ps| - 1]);
    }
  }

  /** The two exclusion loops, each only when there is something to exclude. */
  method Exclude(c: Config, ps: seq<Proxy>) returns (kept: seq<Proxy>)
    ensures kept == Keep(c, ps)
  {
    hide *;
    kept := ps;
    NothingExcluded(c, ps);
    if |c.excludes| > 0 {
      kept := ExcludeNames(c, kept);
    }
    assert kept == KeepNames(c, ps);
    NothingExcluded(c, kept);
    if |c.excludedTypes| > 0 {
      kept := ExcludeTypes(c, kept);
    }
    KeepTwice(c, ps);
  }

  /** The proxies of the providers, each list after its own filter pass. */
  method Gather(c: Config, read: Reads, ghost content: seq<seq<Proxy>>) returns (proxies: seq<Proxy>)
    requires |content| == |c.compatible|
    ensures Steady(c, read, content) ==> proxies == Gathered(c, content, |content|)
  {
    hide Buckets, Known;
    ghost var steady := Steady(c, read, content);
    proxies := [];
    for i := 0 to |c.compatible|
      invariant steady ==> proxies == Gathered(c, content, i)
    {
      if |c.filters| == 0 || c.compatible[i] {
        proxies := proxies + read(i, 0);
      } else {
        var one, _ := FilterPass(c.filters, (f: nat) => read(i, f), content[i]);
        proxies := proxies + one;
      }
    }
  }

  /** The reordering over all providers. */
  method Reorder(fs: seq<Filter>, all: seq<Proxy>) returns (proxies: seq<Proxy>)
    ensures proxies == Buckets(fs, all, |fs| + 1)
  {
    hide *;
    var sorted, names := FilterPass(fs, (f: nat) => all, all);
    proxies := AddUnmatched(fs, all, sorted, names);
    NextBuckets(fs, all, |fs| + 1);
  }

  /** Everything that happens under the mutex after the versions turned out different. */
  method Compute(c: Config, read: Reads) returns (proxies: seq<Proxy>)
    ensures Steady(c, read, FirstReads(c, read)) ==> proxies == Fresh(c, FirstReads(c, read))
  {
    hide Steady, Gathered, Buckets, Keep;
    proxies := Gather(c, read, FirstReads(c, read));
    if |c.compatible| > 1 && |c.filters| > 1 {
      proxies := Reorder(c.filters, proxies);
    }
    proxies := Exclude(c, proxies);
  }

  // ---------- one stable sort ----------

  /** The proxies that some filter matches, in order. */
  function Matched(fs: seq<Filter>, ps: seq<Proxy>): seq<Proxy> {
    if ps == [] then []
    else Matched(fs, ps[..|ps| - 1]) + (if Key(fs, ps[|ps| - 1].name) < |fs| then [ps[|ps| - 1]] else [])
  }

  /** What the group wants, as the providers list it: all of a compatible provider, what matches of
      the others. */
  function Wanted(c: Config, content: seq<seq<Proxy>>, n: nat): seq<Proxy>
    requires n <= |content| == |c.compatible|
  {
    if n == 0 then []
    else
      var ps := content[n - 1];
      Wanted(c, content, n - 1) + (if c.compatible[n - 1] then ps else Matched(c.filters, ps))
  }

  lemma {:induction false} BucketOfMatched(fs: seq<Filter>, k: nat, ps: seq<Proxy>)
    ensures Bucket(fs, k, Matched(fs, ps)) == if k < |fs| then Bucket(fs, k, ps) else []
  {
    if ps != [] {
      var p, rest := ps[|ps| - 1], ps[..|ps| - 1];
      BucketOfMatched(fs, k, rest);
      BucketSnoc(fs, k, Matched(fs, rest), p);
      assert Matched(fs, rest) + [] == Matched(fs, rest);
      assert Bucket(fs, k, rest) + [] == Bucket(fs, k, rest);
    }
  }

  lemma {:induction false} BucketOfBuckets(fs: seq<Filter>, k: nat, ps: seq<Proxy>, n: nat)
    ensures Bucket(fs, k, Buckets(fs, ps, n)) == if k < n then Dedup(Bucket(fs, k, ps)) else []
  {
    hide *;
    if n == 0 {
      NoBuckets(fs, k, ps);
    } else {
      var x, y := Buckets(fs, ps, n - 1), Dedup(Bucket(fs, n - 1, ps));
      BucketOfBuckets(fs, k, ps, n - 1);
      NextBuckets(fs, ps, n);
      BucketConcat(fs, k, x, y);
      DedupBucket(fs, k, Bucket(fs, n - 1, ps));
      BucketOfBucket(fs, k, n - 1, ps);
      NothingToDedup();
      OneSide(Bucket(fs, k, x), Bucket(fs, k, y), Dedup(Bucket(fs, k, ps)), k, n);
    }
  }

  lemma NoBuckets(fs: seq<Filter>, k: nat, ps: seq<Proxy>)
    ensures Bucket(fs, k, Buckets(fs, ps, 0)) == []
  {
  }

  lemma NothingToDedup()
    ensures Dedup([]) == []
  {
  }

  lemma NextBuckets(fs: seq<Filter>, ps: seq<Proxy>, n: nat)
    requires n > 0
    ensures Buckets(fs, ps, n) == Buckets(fs, ps, n - 1) + Dedup(Bucket(fs, n - 1, ps))
  {
  }

  /** Per key, the provider passes lose and reorder nothing that removing repeated names would keep. */
  lemma {:induction false} GatheredBuckets(c: Config, content: seq<seq<Proxy>>, n: nat, k: nat)
    requires n <= |content| == |c.compatible| && |c.filters| > 0
    ensures Dedup(Bucket(c.filters, k, Gathered(c, content, n)))
         == Dedup(Bucket(c.filters, k, Wanted(c, content, n)))
  {
    hide *;
    if n == 0 {
      NoneGathered(c, content);
    } else {
      var fs := c.filters;
      var g, w := Gathered(c, content, n - 1), Wanted(c, content, n - 1);
      var q, m := NextProvider(c, content, n, k);
      GatheredBuckets(c, content, n - 1, k);
      BucketConcat(fs, k, g, q);
      BucketConcat(fs, k, w, m);
      JoinDedup(Bucket(fs, k, g), Bucket(fs, k, w), Bucket(fs, k, q), Bucket(fs, k, m));
    }
  }

  lemma NoneGathered(c: Config, content: seq<seq<Proxy>>)
    requires |content| == |c.compatible|
    ensures Gathered(c, content, 0) == [] && Wanted(c, content, 0) == []
  {
  }

  lemma NextProvider(c: Config, content: seq<seq<Proxy>>, n: nat, k: nat) returns (q: seq<Proxy>, m: seq<Proxy>)
    requires 0 < n <= |content| == |c.compatible| && |c.filters| > 0
    ensures Gathered(c, content, n) == Gathered(c, content, n - 1) + q
    ensures Wanted(c, content, n) == Wanted(c, content, n - 1) + m
    ensures var x, y := Bucket(c.filters, k, q), Bucket(c.filters, k, m); x == y || x == Dedup(y)
  {
    var fs, ps := c.filters, content[n - 1];
    q := FromProvider(c, n - 1, ps);
    m := if c.compatible[n - 1] then ps else Matched(fs, ps);
    BucketOfMatched(fs, k, ps);
    BucketOfBuckets(fs, k, ps, |fs|);
  }

  lemma JoinDedup(g: seq<Proxy>, w: seq<Proxy>, q: seq<Proxy>, m: seq<Proxy>)
    requires Dedup(g) == Dedup(w) && (q == m || q == Dedup(m))
    ensures Dedup(g + q) == Dedup(w + m)
  {
    DedupPrefix(g, q);
    DedupPrefix(w, q);
    DedupSuffix(w, m);
  }

  lemma NothingSorted(fs: seq<Filter>, a: seq<Proxy>, b: seq<Proxy>)
    ensures Buckets(fs, a, 0) == [] && SortUpTo(fs, b, 0) == []
  {
  }

  lemma {:induction false} SortOfWanted(c: Config, content: seq<seq<Proxy>>, n: nat)
    requires |content| == |c.compatible| && |c.filters| > 0
    ensures Buckets(c.filters, Gathered(c, content, |content|), n)
         == SortUpTo(c.filters, Dedup(Wanted(c, content, |content|)), n)
  {
    hide *;
    var g, w := Gathered(c, content, |content|), Wanted(c, content, |content|);
    if n == 0 {
      NothingSorted(c.filters, g, Dedup(w));
    } else {
      SortOfWanted(c, content, n - 1);
      NextBuckets(c.filters, g, n);
      SortUpToNext(c.filters, Dedup(w), n);
      GatheredBuckets(c, content, |content|, n - 1);
      DedupBucket(c.filters, n - 1, w);
    }
  }

  lemma {:induction false} SortOfMatched(fs: seq<Filter>, ps: seq<Proxy>, n: nat)
    requires n <= |fs|
    ensures Buckets(fs, ps, n) == SortUpTo(fs, Dedup(Matched(fs, ps)), n)
  {
    hide *;
    var m := Matched(fs, ps);
    if n == 0 {
      NothingSorted(fs, ps, Dedup(m));
    } else {
      SortOfMatched(fs, ps, n - 1);
      NextBuckets(fs, ps, n);
      SortUpToNext(fs, Dedup(m), n);
      DedupBucket(fs, n - 1, m);
      BucketOfMatched(fs, n - 1, ps);
    }
  }

  /** The filter pass over one provider is a stable sort, by first matching filter, of the proxies that
      match, without repeated names. */
  lemma OneProviderIsSorted(c: Config, i: nat, ps: seq<Proxy>)
    requires i < |c.compatible| && !c.compatible[i] && |c.filters| > 0
    ensures FromProvider(c, i, ps) == StableSort(c.filters, Dedup(Matched(c.filters, ps)))
  {
    hide Matched, Dedup, Bucket, Buckets, SortUpTo;
    var fs, m := c.filters, Matched(c.filters, ps);
    SortOfMatched(fs, ps, |fs|);
    SortUpToNext(fs, Dedup(m), |fs| + 1);
    DedupBucket(fs, |fs|, m);
    BucketOfMatched(fs, |fs|, ps);
    NothingToDedup();
    assert SortUpTo(fs, Dedup(m), |fs|) + [] == SortUpTo(fs, Dedup(m), |fs|);
  }

  /** With several providers and several filters the two passes are one stable sort, by first matching
      filter, of what the group wants, without repeated names. */
  lemma TwoPassesAreOneSort(c: Config, content: seq<seq<Proxy>>)
    requires |content| == |c.compatible| && |content| > 1 && |c.filters| > 1
    ensures Fresh(c, content) == Keep(c, StableSort(c.filters, Dedup(Wanted(c, content, |content|))))
  {
    SortOfWanted(c, content, |c.filters| + 1);
  }

  /** Exclusion drops exactly the excluded proxies and keeps the others in order. */
  lemma {:induction false} KeepIsOrdered(c: Config, ps: seq<Proxy>) returns (at: seq<nat>)
    ensures PickedBy(ps, Keep(c, ps), at, (i: nat) => i < |ps| && !Excluded(c, ps[i]))
  {
    hide Excluded, PickedBy;
    var wanted := (i: nat) => i < |ps| && !Excluded(c, ps[i]);
    if ps == [] {
      at := [];
      PickedNone<Proxy>(wanted);
    } else {
      var n := |ps| - 1;
      var rest := ps[..n];
      at := KeepIsOrdered(c, rest);
      PickedSame(rest, Keep(c, rest), at, (i: nat) => i < |rest| && !Excluded(c, rest[i]), wanted);
      PickedNext(ps, Keep(c, rest), at, wanted);
      at := if wanted(n) then at + [n] else at;
    }
  }

  predicate IsMatched(fs: seq<Filter>, ps: seq<Proxy>, i: nat) {
    i < |ps| && exists k | 0 <= k < |fs| :: fs[k](ps[i].name)
  }

  /** The proxies that some filter matches, in order. */
  lemma {:induction false} MatchedAt(fs: seq<Filter>, ps: seq<Proxy>) returns (at: seq<nat>)
    ensures PickedBy(ps, Matched(fs, ps), at, (i: nat) => IsMatched(fs, ps, i))
  {
    hide PickedBy;
    var wanted := (i: nat) => IsMatched(fs, ps, i);
    if ps == [] {
      at := [];
      PickedNone<Proxy>(wanted);
    } else {
      var n := |ps| - 1;
      var rest := ps[..n];
      at := MatchedAt(fs, rest);
      PickedSame(rest, Matched(fs, rest), at, (i: nat) => IsMatched(fs, rest, i), wanted);
      PickedNext(ps, Matched(fs, rest), at, wanted);
      at := if wanted(n) then at + [n] else at;
    }
  }

  // ---------- provider by provider ----------

  /** Where the i-th list begins when the lists come one after the other. */
  function Offset(parts: seq<seq<Proxy>>, i: nat): nat
    requires i <= |parts|
  {
    if i == 0 then 0 else Offset(parts, i - 1) + |parts[i - 1]|
  }

  ghost predicate PartAt(all: seq<Proxy>, i: nat, part: seq<Proxy>) {
    i + |part| <= |all| && all[i..i + |part|] == part
  }

  /** `all` is the lists, one after the other. */
  ghost predicate InTurn(parts: seq<seq<Proxy>>, all: seq<Proxy>) {
    |all| == Offset(parts, |parts|) && forall i | 0 <= i < |parts| :: PartAt(all, Offset(parts, i), parts[i])
  }

  lemma {:induction false} OffsetBefore(parts: seq<seq<Proxy>>, part: seq<Proxy>, i: nat)
    requires i <= |parts|
    ensures Offset(parts + [part], i) == Offset(parts, i)
  {
    if i > 0 {
      OffsetBefore(parts, part, i - 1);
    }
  }

  lemma PartStays(all: seq<Proxy>, more: seq<Proxy>, i: nat, part: seq<Proxy>)
    ensures PartAt(all, i, part) ==> PartAt(all + more, i, part)
    ensures PartAt(all + more, |all|, more)
  {
    if PartAt(all, i, part) {
      assert (all + more)[i..i + |part|] == all[i..i + |part|];
    }
  }

  lemma InTurnNext(parts: seq<seq<Proxy>>, all: seq<Proxy>, part: seq<Proxy>)
    requires InTurn(parts, all)
    ensures InTurn(parts + [part], all + part)
  {
    hide PartAt, Offset;
    var n := |parts|;
    OffsetNext(parts, part);
    forall i | 0 <= i < n + 1
      ensures PartAt(all + part, Offset(parts + [part], i), (parts + [part])[i])
    {
      OffsetBefore(parts, part, i);
      PartStays(all, part, Offset(parts, i), (parts + [part])[i]);
    }
  }

  lemma OffsetNext(parts: seq<seq<Proxy>>, part: seq<Proxy>)
    ensures Offset(parts + [part], |parts| + 1) == Offset(parts, |parts|) + |part|
  {
    OffsetBefore(parts, part, |parts|);
  }

  lemma NothingInTurn()
    ensures InTurn([], [])
  {
  }

  /** What each provider gives: its list as it is, or a stable sort of what matches, by first matching filter
      and without repeated names. */
  ghost predicate Given(c: Config, content: seq<seq<Proxy>>, parts: seq<seq<Proxy>>)
    requires |content| == |c.compatible|
  {
    |parts| <= |content| && forall i | 0 <= i < |parts| ::
      parts[i] == if |c.filters| == 0 || c.compatible[i] then content[i]
                  else StableSort(c.filters, Dedup(Matched(c.filters, content[i])))
  }

  lemma {:induction false} GatheredParts(c: Config, content: seq<seq<Proxy>>, n: nat) returns (parts: seq<seq<Proxy>>)
    requires n <= |content| == |c.compatible|
    ensures |parts| == n && Given(c, content, parts) && InTurn(parts, Gathered(c, content, n))
  {
    hide InTurn, FromProvider, StableSort;
    if n == 0 {
      parts := [];
      NothingInTurn();
    } else {
      var before := GatheredParts(c, content, n - 1);
      var part := ProviderPart(c, content, n - 1);
      parts := before + [part];
      InTurnNext(before, Gathered(c, content, n - 1), part);
    }
  }

  lemma ProviderPart(c: Config, content: seq<seq<Proxy>>, i: nat) returns (part: seq<Proxy>)
    requires i < |content| == |c.compatible|
    ensures part == FromProvider(c, i, content[i])
    ensures part == if |c.filters| == 0 || c.compatible[i] then content[i]
                    else StableSort(c.filters, Dedup(Matched(c.filters, content[i])))
  {
    part := FromProvider(c, i, content[i]);
    if |c.filters| > 0 && !c.compatible[i] {
      OneProviderIsSorted(c, i, content[i]);
    }
  }

  /** With one provider or with one filter at most: what the providers give, one after the other, and then
      exclusion. */
  lemma FreshInTurn(c: Config, content: seq<seq<Proxy>>) returns (parts: seq<seq<Proxy>>, all: seq<Proxy>)
    requires |content| == |c.compatible| && (|content| <= 1 || |c.filters| <= 1)
    ensures |parts| == |content| && Given(c, content, parts) && InTurn(parts, all) && Fresh(c, content) == Keep(c, all)
  {
    hide Given, InTurn;
    parts := GatheredParts(c, content, |content|);
    all := Gathered(c, content, |content|);
  }

  /** Without filters: the lists of the providers as they are, one after the other, and then exclusion. */
  lemma FreshUnfiltered(c: Config, content: seq<seq<Proxy>>) returns (all: seq<Proxy>)
    requires |content| == |c.compatible| && c.filters == []
    ensures InTurn(content, all) && Fresh(c, content) == Keep(c, all)
  {
    var parts;
    parts, all := FreshInTurn(c, content);
    assert parts == content;
  }

  /** What a group with filters wants: all of a compatible provider, what matches of the others. */
  lemma {:induction false} WantedParts(c: Config, content: seq<seq<Proxy>>, n: nat) returns (parts: seq<seq<Proxy>>)
    requires n <= |content| == |c.compatible|
    ensures |parts| == n && InTurn(parts, Wanted(c, content, n))
    ensures forall i | 0 <= i < n ::
      parts[i] == if c.compatible[i] then content[i] else Matched(c.filters, content[i])
  {
    hide Matched, InTurn;
    if n == 0 {
      parts := [];
      NothingInTurn();
    } else {
      var before := WantedParts(c, content, n - 1);
      var part := if c.compatible[n - 1] then content[n - 1] else Matched(c.filters, content[n - 1]);
      parts := before + [part];
      InTurnNext(before, Wanted(c, content, n - 1), part);
    }
  }
}
