/** Which configurations build whatever order the sort gives them. */
module FallbackOrder {
  import opened Common
  import opened GroupGraph
  import opened QueueOrder
  import opened QueueLaws
  import opened Levels
  import opened RootOrder
  import opened QueueRuns
  import opened DagSort
  import opened GroupBuild

  /** What the configuration must say about one of its groups. */
  ghost predicate Buildable(base: set<string>, gs: seq<Group>, g: Group) {
    && (forall r | r in g.proxies :: r in base || IsName(gs, r))
    && g.name !in base
    && (g.fallback in base || (IsName(gs, g.fallback) && AlwaysAfter(gs, g.fallback, g.name)))
  }

  ghost predicate AllBuild(base: set<string>, out: seq<Mapping>) {
    Decoded(out) && forall i | 0 <= i < |out| :: Builds(base, Groups(out), i)
  }

  // ---------- the same entries in another order ----------

  lemma {:induction false} AtTwice<A>(s: seq<A>, i: nat, j: nat)
    requires i < j < |s| && s[i] == s[j]
    ensures multiset(s)[s[i]] >= 2
  {
    assert s == s[..j] + s[j..];
    assert s[i] in s[..j] && s[j] in s[j..];
  }

  lemma {:induction false} NoDupTimes<A>(s: seq<A>, x: A)
    requires NoDup(s)
    ensures multiset(s)[x] <= 1
  {
    if s != [] {
      var n := |s| - 1;
      assert s == s[..n] + [s[n]];
      NoDupTimes(s[..n], x);
      assert s[n] !in s[..n];
    }
  }

  lemma SameMembers<A>(a: seq<A>, b: seq<A>)
    requires multiset(a) == multiset(b)
    ensures forall x :: x in a <==> x in b
  {
    forall x
      ensures x in a <==> x in b
    {
      assert x in multiset(a) <==> x in multiset(b);
    }
  }

  lemma SameEntries(ms: seq<Mapping>, out: seq<Mapping>)
    requires Sane(ms) && multiset(out) == multiset(ms)
    ensures Sane(out) && forall g :: g in Groups(out) <==> g in Groups(ms)
  {
    SameMembers(out, ms);
    GroupIsEntry(ms);
    GroupIsEntry(out);
    NoDupEntries(ms);
    forall i, j | 0 <= i < j < |out|
      ensures Groups(out)[i].name != Groups(out)[j].name
    {
      DistinctEntries(ms, out[i], out[j]);
      if out[i] == out[j] {
        AtTwice(out, i, j);
        NoDupTimes(ms, out[i]);
      }
    }
  }

  lemma NoDupEntries(ms: seq<Mapping>)
    requires Sane(ms)
    ensures NoDup(ms)
  {
    forall i, j | 0 <= i < j < |ms|
      ensures ms[i] != ms[j]
    {
      assert Groups(ms)[i].name != Groups(ms)[j].name;
    }
  }

  lemma GroupIsEntry(ms: seq<Mapping>)
    requires Decoded(ms)
    ensures forall g :: g in Groups(ms) <==> exists m | m in ms :: m.option == Some(g)
  {
    forall g
      ensures g in Groups(ms) <==> exists m | m in ms :: m.option == Some(g)
    {
      if g in Groups(ms) {
        var i :| 0 <= i < |ms| && Groups(ms)[i] == g;
        assert ms[i] in ms;
      }
      if m :| m in ms && m.option == Some(g) {
        var i :| 0 <= i < |ms| && ms[i] == m;
        assert Groups(ms)[i] == g;
      }
    }
  }

  lemma DistinctEntries(ms: seq<Mapping>, a: Mapping, b: Mapping)
    requires Sane(ms) && a in ms && b in ms
    ensures a.option.Some? && b.option.Some?
    ensures a != b ==> a.option.value.name != b.option.value.name
  {
    var i :| 0 <= i < |ms| && ms[i] == a;
    var j :| 0 <= j < |ms| && ms[j] == b;
    if i < j {
      assert Groups(ms)[i].name != Groups(ms)[j].name;
    } else if j < i {
      assert Groups(ms)[j].name != Groups(ms)[i].name;
    }
  }

  lemma EdgesOfEntries(gs: seq<Group>, hs: seq<Group>)
    requires forall g | g in gs :: g in hs
    ensures forall a, b | Edge(gs, a, b) :: Edge(hs, a, b)
    ensures forall p | Walk(gs, p) :: Walk(hs, p)
    ensures forall n | IsName(gs, n) :: IsName(hs, n)
    ensures !Cyclic(hs) ==> !Cyclic(gs)
  {
    forall a, b | Edge(gs, a, b)
      ensures Edge(hs, a, b)
    {
      var g :| g in gs && g.name == a && b in g.proxies;
    }
    forall p | Walk(gs, p)
      ensures Walk(hs, p)
    {
      assert forall i | 0 <= i < |p| - 1 :: EdgeAt(gs, p, i) ==> EdgeAt(hs, p, i);
    }
    if p :| Cycle(gs, p) {
      assert Cycle(hs, p);
    }
  }

  // ---------- what is written for a run ----------

  lemma {:induction false} OutputHas(gs: seq<Group>, done: seq<string>, n: string)
    ensures n in Output(gs, done) <==> n in done && IsName(gs, n)
  {
    if done != [] {
      OutputHas(gs, done[..|done| - 1], n);
      assert done == done[..|done| - 1] + [done[|done| - 1]];
    }
  }

  lemma {:induction false} OutputPlaces(gs: seq<Group>, done: seq<string>, i: nat, j: nat) returns (k: nat, l: nat)
    requires i < j < |Output(gs, done)|
    ensures l < k < |done| && done[k] == Output(gs, done)[i] && done[l] == Output(gs, done)[j]
  {
    var n := |done| - 1;
    var rest := Output(gs, done[..n]);
    if IsName(gs, done[n]) && i == 0 {
      k := n;
      OutputHas(gs, done[..n], rest[j - 1]);
      l :| 0 <= l < n && done[..n][l] == rest[j - 1];
    } else {
      var skipped := if IsName(gs, done[n]) then 1 else 0;
      k, l := OutputPlaces(gs, done[..n], i - skipped, j - skipped);
    }
  }

  /** What is retired later is written before. */
  lemma OutputDescends(gs: seq<Group>, done: seq<string>, i: nat, j: nat)
    requires NoDup(done) && i < j < |Output(gs, done)|
    ensures var w := Output(gs, done); w[i] in done && w[j] in done && Pos(done, w[j]) < Pos(done, w[i])
  {
    var k, l := OutputPlaces(gs, done, i, j);
    PosIs(done, k);
    PosIs(done, l);
  }

  lemma {:induction false} EntriesNamed(ms: seq<Mapping>, names: seq<string>) returns (out: seq<Mapping>)
    requires Decoded(ms) && forall n | n in names :: IsName(Groups(ms), n)
    ensures Decoded(out) && NamesIn(out) == names && forall m | m in out :: m in ms
  {
    if names == [] {
      out := [];
    } else {
      var rest := EntriesNamed(ms, names[1..]);
      assert names[0] in names;
      var g :| g in Groups(ms) && g.name == names[0];
      GroupIsEntry(ms);
      var m :| m in ms && m.option == Some(g);
      out := [m] + rest;
      assert NamesIn(out) == [names[0]] + NamesIn(rest);
    }
  }

  lemma EntryAt(out: seq<Mapping>, i: nat)
    requires Decoded(out) && i < |out|
    ensures out[i] in out && Groups(out)[i] == out[i].option.value && Groups(out)[i].name == NamesIn(out)[i]
  {
  }

  lemma SameAsEntries(ms: seq<Mapping>, out: seq<Mapping>)
    requires Sane(ms) && Decoded(out) && forall m | m in out :: m in ms
    requires NoDup(NamesIn(out)) && forall n | IsName(Groups(ms), n) :: n in NamesIn(out)
    ensures multiset(out) == multiset(ms)
  {
    hide DistinctNames;
    NoDupEntries(ms);
    assert forall i, j | 0 <= i < j < |out| :: NamesIn(out)[i] != NamesIn(out)[j];
    forall m | m in ms
      ensures m in out
    {
      GroupIsEntry(ms);
      assert m.option.value in Groups(ms) && IsName(Groups(ms), m.option.value.name);
      var i :| 0 <= i < |out| && NamesIn(out)[i] == m.option.value.name;
      assert out[i] in out;
      DistinctEntries(ms, m, out[i]);
    }
    NoDupSubset(out, ms);
    NoDupSubset(ms, out);
  }

  /** Each run of the queue gives an answer. */
  lemma AnswerOfRun(ms: seq<Mapping>, start: seq<string>, done: seq<string>) returns (out: seq<Mapping>)
    requires Sane(ms) && !Cyclic(Groups(ms)) && Queue(Groups(ms), start, done)
    ensures Answer(ms, out, None) && Mirrors(ms, out, done)
  {
    hide Queueing, Cyclic, DistinctNames;
    var gs := Groups(ms);
    var names := Output(gs, done);
    assert NoDup(done) by { RunIsNoDup(gs, start, done); }
    forall n
      ensures n in names <==> n in done && IsName(gs, n)
    {
      OutputHas(gs, done, n);
    }
    out := EntriesNamed(ms, names);
    forall i, j | 0 <= i < j < |names|
      ensures names[i] != names[j]
    {
      OutputDescends(gs, done, i, j);
    }
    forall n | IsName(gs, n)
      ensures n in names
    {
      EveryNodeRetires(gs, start, done, n);
    }
    SameAsEntries(ms, out);
    RunPutsRefsFirst(ms, out, start, done);
  }

  lemma RunIsNoDup(gs: seq<Group>, start: seq<string>, done: seq<string>)
    requires Queue(gs, start, done)
    ensures NoDup(done)
  {
  }

  lemma RunPutsRefsFirst(ms: seq<Mapping>, out: seq<Mapping>, start: seq<string>, done: seq<string>)
    requires Sane(ms) && !Cyclic(Groups(ms)) && Queue(Groups(ms), start, done) && Mirrors(ms, out, done)
    requires multiset(out) == multiset(ms)
    ensures RefsFirst(Groups(out))
  {
    hide Queueing, Cyclic, DistinctNames;
    var gs, hs := Groups(ms), Groups(out);
    SameEntries(ms, out);
    forall i, j | 0 <= i < |hs| && 0 <= j < |hs| && hs[i].name in hs[j].proxies
      ensures i < j
    {
      assert hs[j] in gs;
      assert Edge(gs, hs[j].name, hs[i].name);
      LevelOfEdge(gs, hs[j].name, hs[i].name);
      EntryAt(out, i);
      EntryAt(out, j);
      RunIsNoDup(gs, start, done);
      if j < i {
        OutputDescends(gs, done, j, i);
        ByLevel(gs, start, done, hs[j].name, hs[i].name);
      }
    }
  }

  /** The sort writes the groups by level, the highest first. */
  lemma WrittenByLevel(ms: seq<Mapping>, out: seq<Mapping>, i: nat, j: nat)
    requires Answer(ms, out, None) && i <= j < |out|
    ensures Level(Groups(ms), Groups(out)[i].name) >= Level(Groups(ms), Groups(out)[j].name)
  {
    hide Queueing, Cyclic, DistinctNames, Output, Level;
    var gs := Groups(ms);
    var start, done :| Queue(gs, start, done) && Mirrors(ms, out, done);
    EntryAt(out, i);
    EntryAt(out, j);
    RunIsNoDup(gs, start, done);
    if i < j {
      OutputDescends(gs, done, i, j);
      LowerFirst(gs, start, done, Pos(done, NamesIn(out)[j]), Pos(done, NamesIn(out)[i]));
    }
  }

  /** A group is known to another exactly when its node is retired later. */
  lemma KnownIffLater(ms: seq<Mapping>, out: seq<Mapping>, start: seq<string>, done: seq<string>, i: nat, f: string)
    requires Sane(ms) && !Cyclic(Groups(ms)) && Queue(Groups(ms), start, done) && Mirrors(ms, out, done)
    requires i < |out| && IsName(Groups(ms), f)
    ensures var n := Groups(out)[i].name;
      && n in done && f in done
      && (f in NamesOf(Groups(out)[..i]) <==> Pos(done, n) < Pos(done, f))
  {
    hide Queueing, Cyclic, DistinctNames, Output;
    var gs, hs := Groups(ms), Groups(out);
    RunIsNoDup(gs, start, done);
    EveryNodeRetires(gs, start, done, f);
    OutputHas(gs, done, f);
    OutputHas(gs, done, NamesIn(out)[i]);
    EntryAt(out, i);
    var k :| 0 <= k < |out| && NamesIn(out)[k] == f;
    EntryAt(out, k);
    if k < i {
      OutputDescends(gs, done, k, i);
      assert hs[..i][k] == hs[k];
    } else {
      if i < k {
        OutputDescends(gs, done, i, k);
      }
      NotEarlier(out, done, gs, i, f);
    }
  }

  lemma NotEarlier(out: seq<Mapping>, done: seq<string>, gs: seq<Group>, i: nat, f: string)
    requires Decoded(out) && NamesIn(out) == Output(gs, done) && NoDup(done) && i < |out|
    requires f in done && NamesIn(out)[i] in done && Pos(done, f) <= Pos(done, NamesIn(out)[i])
    ensures f !in NamesOf(Groups(out)[..i])
  {
    hide Output;
    var hs := Groups(out);
    if f in NamesOf(hs[..i]) {
      var h :| h in hs[..i] && h.name == f;
      var j :| 0 <= j < i && hs[j] == h;
      EntryAt(out, j);
      OutputDescends(gs, done, j, i);
    }
  }

  // ---------- when a fallback is found ----------

  /** Group `f` is there when `g` is built. */
  ghost predicate FoundIn(out: seq<Mapping>, g: Group, f: string) {
    Decoded(out) && exists i | 0 <= i < |out| :: Groups(out)[i] == g && f in NamesOf(Groups(out)[..i])
  }

  lemma FoundIffLater(
      ms: seq<Mapping>, out: seq<Mapping>, start: seq<string>, done: seq<string>, g: Group, f: string)
    requires Answer(ms, out, None) && Queue(Groups(ms), start, done) && Mirrors(ms, out, done)
    requires g in Groups(ms) && IsName(Groups(ms), f)
    ensures g.name in done && f in done && (FoundIn(out, g, f) <==> Pos(done, g.name) < Pos(done, f))
  {
    hide Queue, Mirrors, Cyclic, DistinctNames;
    SameEntries(ms, out);
    var i :| 0 <= i < |out| && Groups(out)[i] == g;
    forall j | 0 <= j < |out| && Groups(out)[j] == g
      ensures g.name in done && f in done
      ensures f in NamesOf(Groups(out)[..j]) <==> Pos(done, g.name) < Pos(done, f)
    {
      KnownIffLater(ms, out, start, done, j, f);
    }
  }

  /** In every order that the sort may give, or in none: exactly when the levels and the lists say so. */
  lemma FallbackFound(ms: seq<Mapping>, g: Group, f: string)
    requires Sane(ms) && !Cyclic(Groups(ms)) && g in Groups(ms) && IsName(Groups(ms), f)
    ensures (forall out | Answer(ms, out, None) :: FoundIn(out, g, f)) <==> AlwaysAfter(Groups(ms), f, g.name)
    ensures (forall out | Answer(ms, out, None) :: !FoundIn(out, g, f))
       <==> f == g.name || AlwaysAfter(Groups(ms), g.name, f)
  {
    hide Queue, Mirrors, AlwaysAfter, Cyclic, DistinctNames;
    var gs := Groups(ms);
    forall out | Answer(ms, out, None)
      ensures AlwaysAfter(gs, f, g.name) ==> FoundIn(out, g, f)
      ensures f == g.name || AlwaysAfter(gs, g.name, f) ==> !FoundIn(out, g, f)
    {
      FoundInOrder(ms, out, g, f);
    }
    if !AlwaysAfter(gs, f, g.name) {
      var start, done := RunAgainst(gs, f, g.name);
      var out := AnswerOfRun(ms, start, done);
      FoundIffLater(ms, out, start, done, g, f);
    }
    if !(f == g.name || AlwaysAfter(gs, g.name, f)) {
      var start, done := RunAgainst(gs, g.name, f);
      var out := AnswerOfRun(ms, start, done);
      FoundIffLater(ms, out, start, done, g, f);
    }
  }

  lemma FoundInOrder(ms: seq<Mapping>, out: seq<Mapping>, g: Group, f: string)
    requires Answer(ms, out, None) && g in Groups(ms) && IsName(Groups(ms), f)
    ensures AlwaysAfter(Groups(ms), f, g.name) ==> FoundIn(out, g, f)
    ensures f == g.name || AlwaysAfter(Groups(ms), g.name, f) ==> !FoundIn(out, g, f)
  {
    hide Queue, Mirrors, AlwaysAfter, Cyclic, DistinctNames;
    var gs := Groups(ms);
    var start, done :| Queue(gs, start, done) && Mirrors(ms, out, done);
    FoundIffLater(ms, out, start, done, g, f);
    if AlwaysAfter(gs, f, g.name) {
      AfterInRun(gs, start, done, f, g.name);
    }
    if AlwaysAfter(gs, g.name, f) {
      AfterInRun(gs, start, done, g.name, f);
    }
  }

  /** A group on a higher level is found in every order, one on a lower level in none, and another group
      that, like `g`, nobody names, in some orders and not in others. */
  lemma LevelDecides(ms: seq<Mapping>, g: Group, f: string)
    requires Sane(ms) && !Cyclic(Groups(ms)) && g in Groups(ms) && IsName(Groups(ms), f)
    ensures Level(Groups(ms), f) > Level(Groups(ms), g.name) ==>
      forall out | Answer(ms, out, None) :: FoundIn(out, g, f)
    ensures Level(Groups(ms), f) < Level(Groups(ms), g.name) ==>
      forall out | Answer(ms, out, None) :: !FoundIn(out, g, f)
    ensures Level(Groups(ms), f) == Level(Groups(ms), g.name) == 0 && f != g.name ==>
      && (exists out | Answer(ms, out, None) :: FoundIn(out, g, f))
      && (exists out | Answer(ms, out, None) :: !FoundIn(out, g, f))
  {
    hide Answer, Cyclic, DistinctNames, FoundIn, Level;
    FallbackFound(ms, g, f);
    var gs := Groups(ms);
    if Level(gs, f) == Level(gs, g.name) == 0 {
      assert Root(gs, f, f) && Root(gs, g.name, g.name);
    }
  }

  /** A group that `g` reaches by references is found in every order. */
  lemma ReachedIsFound(ms: seq<Mapping>, out: seq<Mapping>, g: Group, p: seq<string>)
    requires Answer(ms, out, None) && g in Groups(ms)
    requires Walk(Groups(ms), p) && p[0] == g.name && IsName(Groups(ms), p[|p| - 1])
    ensures FoundIn(out, g, p[|p| - 1])
  {
    hide ByQueue, Cyclic, DistinctNames, FoundIn, Level;
    LevelOfWalk(Groups(ms), p, |p| - 1);
    LevelDecides(ms, g, p[|p| - 1]);
  }

  // ---------- every order builds ----------

  /** How the group `g` fares in an order that the sort may give, apart from its fallback. */
  lemma BuildsIffFound(base: set<string>, ms: seq<Mapping>, out: seq<Mapping>, i: nat)
    requires Sane(ms) && multiset(out) == multiset(ms) && Decoded(out) && RefsFirst(Groups(out)) && i < |out|
    requires var g := Groups(out)[i];
      g.name !in base && forall r | r in g.proxies :: r in base || IsName(Groups(ms), r)
    ensures var g := Groups(out)[i];
      Builds(base, Groups(out), i) <==> g.fallback in base || FoundIn(out, g, g.fallback)
  {
    var hs := Groups(out);
    var g := hs[i];
    SameEntries(ms, out);
    forall r | r in g.proxies
      ensures r in Known(base, hs, i)
    {
      if r !in base {
        SameNames(ms, out, r);
        ReferredGroupIsKnown(base, hs, i, r);
      }
    }
    NotAmongEarlier(hs, i);
    forall j | 0 <= j < |out| && hs[j] == g
      ensures i == j
    {
      assert hs[i].name == hs[j].name;
    }
  }

  lemma SameNames(ms: seq<Mapping>, out: seq<Mapping>, n: string)
    requires Sane(ms) && multiset(out) == multiset(ms)
    ensures Decoded(out) && (IsName(Groups(ms), n) <==> IsName(Groups(out), n))
  {
    SameEntries(ms, out);
  }

  lemma NeverBuilds(base: set<string>, ms: seq<Mapping>, out: seq<Mapping>, g: Group)
    requires Sane(ms) && Answer(ms, out, None) && g in Groups(ms)
    requires g.name in base || exists r | r in g.proxies :: r !in base && !IsName(Groups(ms), r)
    ensures !AllBuild(base, out)
  {
    SameEntries(ms, out);
    var hs := Groups(out);
    var i :| 0 <= i < |hs| && hs[i] == g;
    if r :| r in g.proxies && r !in base && !IsName(Groups(ms), r) {
      EdgesOfEntries(hs, Groups(ms));
      OnlyStrangersAreMissing(base, hs, i, r);
    }
    assert !Builds(base, hs, i);
  }

  lemma SomeAnswer(ms: seq<Mapping>) returns (out: seq<Mapping>)
    requires Sane(ms) && !Cyclic(Groups(ms))
    ensures Answer(ms, out, None)
  {
    hide Queue, Cyclic;
    var start := SomeStart(Groups(ms));
    var done := SomeRun(Groups(ms), start);
    out := AnswerOfRun(ms, start, done);
  }

  lemma FoundIsGroup(ms: seq<Mapping>, out: seq<Mapping>, g: Group, f: string)
    requires Sane(ms) && multiset(out) == multiset(ms) && FoundIn(out, g, f)
    ensures IsName(Groups(ms), f)
  {
    SameNames(ms, out, f);
    var i :| 0 <= i < |out| && Groups(out)[i] == g && f in NamesOf(Groups(out)[..i]);
    var h :| h in Groups(out)[..i] && h.name == f;
    assert h in Groups(out);
  }

  /** An order in which `g` does not build. */
  lemma DoesNotBuild(base: set<string>, ms: seq<Mapping>, g: Group) returns (out: seq<Mapping>)
    requires Sane(ms) && !Cyclic(Groups(ms)) && g in Groups(ms) && !Buildable(base, Groups(ms), g)
    ensures Answer(ms, out, None) && !AllBuild(base, out)
  {
    hide ByQueue, AlwaysAfter, Cyclic, Edge, DistinctNames, FoundIn, RefsFirst;
    var gs := Groups(ms);
    out := SomeAnswer(ms);
    if g.name in base || exists r | r in g.proxies :: r !in base && !IsName(gs, r) {
      NeverBuilds(base, ms, out, g);
    } else {
      if IsName(gs, g.fallback) {
        FallbackFound(ms, g, g.fallback);
        out :| Answer(ms, out, None) && !FoundIn(out, g, g.fallback);
      } else if FoundIn(out, g, g.fallback) {
        FoundIsGroup(ms, out, g, g.fallback);
      }
      SameEntries(ms, out);
      var i :| 0 <= i < |out| && Groups(out)[i] == g;
      BuildsIffFound(base, ms, out, i);
    }
  }

  /** A configuration that the sort accepts builds in every order the sort may give exactly when every
      reference is a proxy or a group, no group is called like a proxy, and every fallback is a proxy
      or a group that every run of the queue retires after the group that falls back on it. */
  lemma EveryOrderBuilds(base: set<string>, ms: seq<Mapping>)
    requires Sane(ms) && !Cyclic(Groups(ms))
    ensures (forall out | Answer(ms, out, None) :: AllBuild(base, out))
       <==> (forall g | g in Groups(ms) :: Buildable(base, Groups(ms), g))
  {
    hide ByQueue, Cyclic, DistinctNames, Edge, AlwaysAfter, FoundIn, RefsFirst;
    var gs := Groups(ms);
    if forall g | g in gs :: Buildable(base, gs, g) {
      forall out | Answer(ms, out, None)
        ensures AllBuild(base, out)
      {
        SameEntries(ms, out);
        forall i | 0 <= i < |out|
          ensures Builds(base, Groups(out), i)
        {
          var g := Groups(out)[i];
          assert g in Groups(out);
          BuildsIffFound(base, ms, out, i);
          if g.fallback !in base {
            FoundInOrder(ms, out, g, g.fallback);
          }
        }
      }
    } else {
      var g :| g in gs && !Buildable(base, gs, g);
      var out := DoesNotBuild(base, ms, g);
    }
  }

  /** Reaching it is not needed: A is named by none and refers to no group, and finds B in every order, for
      R names B. */
  lemma FoundWithoutReaching(base: set<string>)
    requires "A" !in base && "B" !in base && "R" !in base && "DIRECT" in base
    ensures var a, b, r := Group("A", ["DIRECT"], "B"), Group("B", ["DIRECT"], "DIRECT"), Group("R", ["B"], "DIRECT");
      var ms := [Mapping(0, Some(a)), Mapping(1, Some(b)), Mapping(2, Some(r))];
      && Sane(ms) && !Cyclic(Groups(ms))
      && (forall out | Answer(ms, out, None) :: AllBuild(base, out))
      && !Edge(Groups(ms), "A", "B") && forall n | Edge(Groups(ms), "A", n) :: !IsName(Groups(ms), n)
  {
    hide Answer, AllBuild, Level, Later;
    var a, b, r := Group("A", ["DIRECT"], "B"), Group("B", ["DIRECT"], "DIRECT"), Group("R", ["B"], "DIRECT");
    var ms := [Mapping(0, Some(a)), Mapping(1, Some(b)), Mapping(2, Some(r))];
    var gs := [a, b, r];
    assert Decoded(ms) && Groups(ms) == gs;
    assert a.name[0] == 'A' && b.name[0] == 'B' && r.name[0] == 'R' && "DIRECT"[0] == 'D';
    assert a in gs && b in gs && r in gs;
    forall m, n | Edge(gs, m, n)
      ensures (m == "R" && n == "B") || (n == "DIRECT" && m != "DIRECT")
    {
    }
    assert !Cyclic(gs) by { ShortWalks(gs); }
    assert Edge(gs, "R", "B");
    NoNamer(gs, "B");
    NoNamer(gs, "A");
    EveryOrderBuilds(base, ms);
  }

  lemma ShortWalks(gs: seq<Group>)
    requires forall m, n | Edge(gs, m, n) :: (m == "R" && n == "B") || (n == "DIRECT" && m != "DIRECT")
    ensures !Cyclic(gs)
  {
    assert "R"[0] == 'R' && "B"[0] == 'B' && "DIRECT"[0] == 'D';
    forall p
      ensures !Cycle(gs, p)
    {
      assert Walk(gs, p) ==>
          EdgeAt(gs, p, 0) && EdgeAt(gs, p, |p| - 2) && (|p| > 2 ==> EdgeAt(gs, p, 1));
    }
  }
}
