/** match and CheckPassRule of the tunnel: walk the rules, and for each the chain of groups that
    choose one another, down to a proxy. */
module RuleMatch {
  import opened Common
  import opened GroupGraph
  import opened GroupBuild

  datatype Kind = Pass | PassRule | Plain

  /** The identity of an adapter.  Two providers may hold proxies of the same name. */
  type Id = nat

  /** An adapter: its type, whether it supports UDP, the name of the proxy it dials through ("" for none),
      and what it can choose from.  A proxy that is not a group chooses from nothing. */
  datatype Adapter = Adapter(kind: Kind, udp: bool, dialer: string, choices: seq<Id>)

  /** The proxies that are found by name, and all adapters: those of providers have no entry by name. */
  datatype Table = Table(proxies: map<string, Id>, adapters: map<Id, Adapter>)

  /** The adapter a group chooses when `Unwrap` is called for the i-th rule.  Liveness, selection and
      hashing decide it; all that counts here is that a group chooses one of its own. */
  type Choice = (nat, Id) -> Id

  ghost predicate Chooses(t: Table, choice: Choice) {
    forall i, a | a in t.adapters && t.adapters[a].choices != [] :: choice(i, a) in t.adapters[a].choices
  }

  /** What is found or chosen is an adapter. */
  ghost predicate Closed(t: Table) {
    && (forall n | n in t.proxies :: t.proxies[n] in t.adapters)
    && (forall a, c | a in t.adapters && c in t.adapters[a].choices :: c in t.adapters)
  }

  /** Groups are in the order in which they were built; what a group can choose was there before. */
  ghost predicate Descends(t: Table, order: seq<Id>) {
    && NoDup(order) && Closed(t)
    && (forall a | a in t.adapters && t.adapters[a].choices != [] :: a in order)
    && (forall i, c | 0 <= i < |order| && order[i] in t.adapters && c in t.adapters[order[i]].choices ::
          c !in order[i..])
  }

  function Unwrap(t: Table, choice: Choice, i: nat, a: Id): Option<Id>
    requires a in t.adapters
  {
    if t.adapters[a].choices == [] then None else Some(choice(i, a))
  }

  /** How many groups can still follow: the position of a group in the order, counted from 1. */
  ghost function Rank(order: seq<Id>, a: Id): nat {
    if order == [] then 0
    else if order[|order| - 1] == a then |order|
    else Rank(order[..|order| - 1], a)
  }

  lemma {:induction false} RankAt(order: seq<Id>, a: Id)
    requires NoDup(order)
    ensures a !in order ==> Rank(order, a) == 0
    ensures a in order ==> 0 < Rank(order, a) <= |order| && order[Rank(order, a) - 1] == a
  {
    if order != [] && order[|order| - 1] != a {
      RankAt(order[..|order| - 1], a);
    }
  }

  lemma ChoiceDescends(t: Table, order: seq<Id>, a: Id, c: Id)
    requires Descends(t, order) && a in t.adapters && c in t.adapters[a].choices
    ensures c in t.adapters && Rank(order, c) < Rank(order, a)
  {
    RankAt(order, a);
    RankAt(order, c);
    var k := Rank(order, a) - 1;
    assert order[k] == a && c in t.adapters[order[k]].choices;
    forall j | k <= j < |order|
      ensures order[j] != c
    {
      assert order[k..][j - k] == order[j];
    }
  }

  lemma UnwrapDescends(t: Table, order: seq<Id>, choice: Choice, i: nat, a: Id)
    requires Chooses(t, choice) && Descends(t, order) && a in t.adapters && Unwrap(t, choice, i, a).Some?
    ensures var b := Unwrap(t, choice, i, a).value; b in t.adapters && Rank(order, b) < Rank(order, a)
  {
    ChoiceDescends(t, order, a, choice(i, a));
  }

  /** The i-th rule goes along `p`: from each group to what it has chosen. */
  ghost predicate Along(t: Table, choice: Choice, i: nat, p: seq<Id>) {
    && p != [] && (forall j | 0 <= j < |p| :: p[j] in t.adapters)
    && forall j | 0 <= j < |p| - 1 :: t.adapters[p[j]].choices != [] && p[j + 1] == choice(i, p[j])
  }

  /** It comes from `a` to an adapter of the given type. */
  ghost predicate ChainHas(t: Table, choice: Choice, i: nat, a: Id, kind: Kind) {
    exists p :: Along(t, choice, i, p) && p[0] == a && t.adapters[p[|p| - 1]].kind == kind
  }

  lemma ChainHasFirst(t: Table, choice: Choice, i: nat, a: Id)
    requires a in t.adapters
    ensures ChainHas(t, choice, i, a, t.adapters[a].kind)
  {
    assert Along(t, choice, i, [a]);
  }

  lemma ChainHasStep(t: Table, choice: Choice, i: nat, a: Id, kind: Kind)
    requires a in t.adapters && t.adapters[a].kind != kind
    ensures ChainHas(t, choice, i, a, kind)
      <==> t.adapters[a].choices != [] && ChainHas(t, choice, i, choice(i, a), kind)
  {
    if p :| Along(t, choice, i, p) && p[0] == a && t.adapters[p[|p| - 1]].kind == kind {
      assert |p| > 1 && p[1] == choice(i, p[0]);
      assert Along(t, choice, i, p[1..]);
    }
    if t.adapters[a].choices != [] && ChainHas(t, choice, i, choice(i, a), kind) {
      var p :| Along(t, choice, i, p) && p[0] == choice(i, a) && t.adapters[p[|p| - 1]].kind == kind;
      var q := [a] + p;
      assert forall j | 0 < j < |q| :: q[j] == p[j - 1];
      assert Along(t, choice, i, q);
    }
  }

  /** The loop over `Unwrap`. */
  method Passed(t: Table, ghost order: seq<Id>, choice: Choice, i: nat, a: Id, kind: Kind) returns (found: bool)
    requires Chooses(t, choice) && Descends(t, order) && a in t.adapters
    ensures found <==> ChainHas(t, choice, i, a, kind)
  {
    var adapter := Some(a);
    while adapter.Some?
      invariant adapter.Some? ==> adapter.value in t.adapters
      invariant ChainHas(t, choice, i, a, kind) <==> adapter.Some? && ChainHas(t, choice, i, adapter.value, kind)
      decreases if adapter.None? then 0 else 1 + Rank(order, adapter.value)
    {
      if t.adapters[adapter.value].kind == kind {
        ChainHasFirst(t, choice, i, adapter.value);
        return true;
      }
      ChainHasStep(t, choice, i, adapter.value, kind);
      var next := Unwrap(t, choice, i, adapter.value);
      if next.Some? {
        UnwrapDescends(t, order, choice, i, adapter.value);
      }
      adapter := next;
    }
    return false;
  }

  /** CheckPassRule: an unknown adapter is not a PassRule. */
  method CheckPassRule(t: Table, ghost order: seq<Id>, choice: Choice, i: nat, name: string) returns (found: bool)
    requires Chooses(t, choice) && Descends(t, order)
    ensures found <==> name in t.proxies && ChainHas(t, choice, i, t.proxies[name], PassRule)
  {
    if name !in t.proxies {
      return false;
    }
    found := Passed(t, order, choice, i, t.proxies[name], PassRule);
  }

  /** What the rules of a list answer for the connection: for each the adapter it names, if it matches. */
  type Answers = seq<Option<string>>

  ghost predicate Accepts(t: Table, choice: Choice, answers: Answers, udp: bool, i: nat)
    requires i < |answers|
  {
    match answers[i]
    case None => false
    case Some(n) =>
      n in t.proxies && var a := t.proxies[n];
      a in t.adapters && !ChainHas(t, choice, i, a, Pass) && (udp ==> t.adapters[a].udp)
  }

  /** getRules: the special rules of the connection when there are some by that name. */
  function GetRules(subRules: map<string, Answers>, rules: Answers, special: string): Answers {
    if special in subRules then subRules[special] else rules
  }

  /** The adapter and the index of the rule that decided, or DIRECT and no rule. */
  method Match(t: Table, ghost order: seq<Id>, choice: Choice, subRules: map<string, Answers>, rules: Answers,
               special: string, udp: bool)
    returns (adapter: string, rule: Option<nat>)
    requires Chooses(t, choice) && Descends(t, order)
    ensures var answers := if special in subRules then subRules[special] else rules;
      match rule
      case None => adapter == "DIRECT" && forall i | 0 <= i < |answers| :: !Accepts(t, choice, answers, udp, i)
      case Some(i) =>
        && i < |answers| && answers[i] == Some(adapter) && Accepts(t, choice, answers, udp, i)
        && forall j | 0 <= j < i :: !Accepts(t, choice, answers, udp, j)
  {
    var answers := GetRules(subRules, rules, special);
    for i := 0 to |answers|
      invariant forall j | 0 <= j < i :: !Accepts(t, choice, answers, udp, j)
    {
      if answers[i].Some? {
        var ada := answers[i].value;
        if ada !in t.proxies {
          continue;
        }
        var passed := Passed(t, order, choice, i, t.proxies[ada], Pass);
        if passed {
          continue;
        }
        if udp && !t.adapters[t.proxies[ada]].udp {
          continue;
        }
        return ada, Some(i);
      }
    }
    return "DIRECT", None;
  }

  // ---------- where the order comes from ----------

  /** The adapters of the groups, in the order in which they were built; the selector that is added when
      the configuration has no group GLOBAL comes last. */
  ghost function Order(gs: seq<Group>, built: map<string, Id>, added: Option<Id>): (order: seq<Id>)
    requires forall g | g in gs :: g.name in built
    ensures |order| == |gs| + (if added.Some? then 1 else 0)
    ensures forall i | 0 <= i < |gs| :: order[i] == built[gs[i].name]
    ensures added.Some? ==> order[|gs|] == added.value
  {
    seq(|gs|, i requires 0 <= i < |gs| => assert gs[i] in gs; built[gs[i].name])
    + (if added.Some? then [added.value] else [])
  }

  /** The table after the building pass is `built`: proxies and groups have their own adapters, a group
      chooses from what it names, from its fallback, from the proxies of the configuration, which it may
      include all, and from the proxies of its providers, which are not groups.  Then a selector called
      GLOBAL may be added, which can choose all that was built. */
  ghost predicate BuiltFrom(t: Table, base: set<string>, gs: seq<Group>, provided: set<Id>,
                            built: map<string, Id>, added: Option<Id>)
  {
    && built.Keys == base + NamesOf(gs) && base !! NamesOf(gs) && (added.Some? <==> "GLOBAL" !in NamesOf(gs))
    && (forall m, n | m in built && n in built && m != n :: built[m] != built[n])
    && (forall n | n in built :: built[n] in t.adapters && built[n] !in provided)
    && (forall a | a in provided :: a in t.adapters)
    && (forall a | a in t.adapters && t.adapters[a].choices != [] ::
          added == Some(a) || exists g | g in gs :: built[g.name] == a)
    && (forall g, c | g in gs && c in t.adapters[built[g.name]].choices ::
          c in provided || exists n | n in g.proxies || n == g.fallback || n in base :: n in built && built[n] == c)
    && (added.None? ==> t.proxies == built)
    && (added.Some? ==>
          && t.proxies == built["GLOBAL" := added.value]
          && added.value in t.adapters && added.value !in built.Values && added.value !in provided
          && forall c | c in t.adapters[added.value].choices :: c in built.Values)
  }

  /** What a group can choose is neither it nor built after it. */
  lemma ChoiceIsEarlier(t: Table, base: set<string>, gs: seq<Group>, provided: set<Id>, built: map<string, Id>,
                        added: Option<Id>, i: nat, k: nat, c: Id)
    requires DistinctNames(gs) && BuiltFrom(t, base, gs, provided, built, added)
    requires i <= k < |gs| && Builds(base, gs, i) && gs[i] in gs && gs[k] in gs
    requires c in t.adapters[built[gs[i].name]].choices
    ensures built[gs[k].name] != c && c in t.adapters && (added.Some? ==> c != added.value)
  {
    if c !in provided {
      var n :| (n in gs[i].proxies || n == gs[i].fallback || n in base) && n in built && built[n] == c;
      assert n in Known(base, gs, i);
      if n !in base {
        NotLater(gs, i, k, n);
      } else {
        assert gs[k].name in NamesOf(gs);
      }
    }
  }

  lemma NotLater(gs: seq<Group>, i: nat, k: nat, n: string)
    requires DistinctNames(gs) && i <= k < |gs| && n in NamesOf(gs[..i])
    ensures gs[k].name != n
  {
    assert forall g | g in gs[..i] :: g.name != gs[k].name;
  }

  lemma ChoosersInOrder(t: Table, base: set<string>, gs: seq<Group>, provided: set<Id>, built: map<string, Id>,
                        added: Option<Id>, a: Id) returns (i: nat)
    requires BuiltFrom(t, base, gs, provided, built, added) && forall g | g in gs :: g.name in built
    requires a in t.adapters && t.adapters[a].choices != []
    ensures i < |Order(gs, built, added)| && Order(gs, built, added)[i] == a
  {
    if added == Some(a) {
      i := |gs|;
    } else {
      var g :| g in gs && built[g.name] == a;
      i :| 0 <= i < |gs| && gs[i] == g;
    }
  }

  lemma ChoicesDescend(t: Table, base: set<string>, gs: seq<Group>, provided: set<Id>, built: map<string, Id>,
                       added: Option<Id>, i: nat, k: nat, c: Id)
    requires DistinctNames(gs) && BuiltFrom(t, base, gs, provided, built, added)
    requires (forall g | g in gs :: g.name in built) && forall j | 0 <= j < |gs| :: Builds(base, gs, j)
    requires i <= k < |Order(gs, built, added)| && Order(gs, built, added)[i] in t.adapters
    requires c in t.adapters[Order(gs, built, added)[i]].choices
    ensures Order(gs, built, added)[k] != c && c in t.adapters
  {
    hide Builds, DistinctNames;
    if i < |gs| {
      assert gs[i] in gs;
      var j := if k < |gs| then k else i;
      assert gs[j] in gs;
      ChoiceIsEarlier(t, base, gs, provided, built, added, i, j, c);
    }
  }

  /** A configuration that was sorted and built gives the order on which every `Unwrap` loop ends. */
  lemma BuiltDescends(t: Table, base: set<string>, gs: seq<Group>, provided: set<Id>, built: map<string, Id>,
                      added: Option<Id>)
    requires DistinctNames(gs) && BuiltFrom(t, base, gs, provided, built, added)
    requires forall i | 0 <= i < |gs| :: Builds(base, gs, i)
    ensures (forall g | g in gs :: g.name in built) && Descends(t, Order(gs, built, added))
  {
    assert forall g | g in gs :: g.name in NamesOf(gs);
    AllFound(t, base, gs, provided, built, added);
    hide BuiltFrom, Builds, DistinctNames, NamesOf;
    var order := Order(gs, built, added);
    forall a | a in t.adapters && t.adapters[a].choices != []
      ensures a in order && forall c | c in t.adapters[a].choices :: c in t.adapters
    {
      var i := ChoosersInOrder(t, base, gs, provided, built, added, a);
      forall c | c in t.adapters[a].choices
        ensures c in t.adapters
      {
        ChoicesDescend(t, base, gs, provided, built, added, i, i, c);
      }
    }
    forall i, c | 0 <= i < |order| && order[i] in t.adapters && c in t.adapters[order[i]].choices
      ensures c !in order[i..]
    {
      forall k | i <= k < |order|
        ensures order[k] != c
      {
        ChoicesDescend(t, base, gs, provided, built, added, i, k, c);
      }
    }
    DistinctOrder(gs, built, added);
  }

  lemma AllFound(t: Table, base: set<string>, gs: seq<Group>, provided: set<Id>, built: map<string, Id>,
                 added: Option<Id>)
    requires BuiltFrom(t, base, gs, provided, built, added)
    ensures forall n | n in t.proxies :: t.proxies[n] in t.adapters
    ensures forall m, n | m in built && n in built && m != n :: built[m] != built[n]
    ensures added.Some? ==> added.value !in built.Values
  {
  }

  lemma DistinctOrder(gs: seq<Group>, built: map<string, Id>, added: Option<Id>)
    requires DistinctNames(gs) && forall g | g in gs :: g.name in built
    requires forall m, n | m in built && n in built && m != n :: built[m] != built[n]
    requires added.Some? ==> added.value !in built.Values
    ensures NoDup(Order(gs, built, added))
  {
    var order := Order(gs, built, added);
    assert forall i | 0 <= i < |gs| :: gs[i] in gs;
    forall i, j | 0 <= i < j < |order|
      ensures order[i] != order[j]
    {
      assert gs[i].name in built;
    }
  }
}
