/** Named sub-rule sets: the check that they may be used, and matching a connection against them. */
module SubRules {
  import opened Common
  import opened GroupGraph

  /** What matters of a rule.  A sub-rule's adapter is the name of another rule set; `cond` stands for
      the condition the rule tests. */
  datatype Rule = Rule(isSub: bool, adapter: string, cond: nat)

  type Table = map<string, seq<Rule>>

  datatype CheckError = NotFound(index: nat, from: string, name: string) | Circular(path: seq<string>)

  ghost predicate Refers(t: Table, a: string, b: string) {
    a in t && exists r | r in t[a] :: r.isSub && r.adapter == b
  }

  /** Every step of `p` follows a reference. */
  ghost predicate Path(t: Table, p: seq<string>) {
    p != [] && forall i | 0 <= i < |p| - 1 :: Refers(t, p[i], p[i + 1])
  }

  ghost predicate Loop(t: Table, p: seq<string>) {
    |p| >= 2 && Path(t, p) && p[0] == p[|p| - 1]
  }

  ghost predicate Resolves(t: Table) {
    forall a, b | Refers(t, a, b) :: b in t
  }

  ghost predicate Acceptable(t: Table) {
    Resolves(t) && forall p :: !Loop(t, p)
  }

  /** What an error claims about the table. */
  ghost predicate Justified(t: Table, e: CheckError) {
    match e
    case NotFound(i, from, name) =>
      from in t && i < |t[from]| && t[from][i].isSub && t[from][i].adapter == name && name !in t
    case Circular(p) => |p| >= 2 && Path(t, p) && p[|p| - 1] in p[..|p| - 1]
  }

  lemma PathPart(t: Table, p: seq<string>, i: nat, j: nat)
    requires Path(t, p) && i < j <= |p|
    ensures Path(t, p[i..j])
  {
    hide Refers;
    var q := p[i..j];
    forall k | 0 <= k < |q| - 1
      ensures Refers(t, q[k], q[k + 1])
    {
      assert Refers(t, p[i + k], p[i + k + 1]);
    }
  }

  lemma RepeatIsLoop(t: Table, p: seq<string>, i: nat, j: nat)
    requires Path(t, p) && i < j < |p| && p[i] == p[j]
    ensures Loop(t, p[i..j + 1])
  {
    PathPart(t, p, i, j + 1);
  }

  lemma JustifiedRejects(t: Table, e: CheckError)
    requires Justified(t, e)
    ensures !Acceptable(t)
  {
    if e.NotFound? {
      assert t[e.from][e.index] in t[e.from];
      assert Refers(t, e.from, e.name);
    } else {
      var p := e.path;
      var i :| 0 <= i < |p| - 1 && p[i] == p[|p| - 1];
      RepeatIsLoop(t, p, i, |p| - 1);
    }
  }

  /** No path that starts at `n` leaves the table, meets `past`, or meets itself. */
  ghost predicate Clear(t: Table, past: seq<string>, n: string) {
    forall p | Path(t, p) && p[0] == n :: NoDup(past + p) && forall x | x in p :: x in t
  }

  lemma ClearStep(t: Table, past: seq<string>, n: string)
    requires n in t && NoDup(past + [n])
    requires forall m | Refers(t, n, m) :: Clear(t, past + [n], m)
    ensures Clear(t, past, n)
  {
    forall p | Path(t, p) && p[0] == n
      ensures NoDup(past + p) && forall x | x in p :: x in t
    {
      if |p| == 1 {
        assert p == [n];
      } else {
        assert Refers(t, p[0], p[1]);
        PathPart(t, p, 1, |p|);
        assert p[1..|p|] == p[1..];
        assert past + p == past + [n] + p[1..];
        assert p == [n] + p[1..];
      }
    }
  }

  lemma ClearNext(t: Table, past: seq<string>, n: string, m: string)
    requires Clear(t, past, n) && Refers(t, n, m)
    ensures Clear(t, past + [n], m) && m in t
  {
    forall p | Path(t, p) && p[0] == m
      ensures NoDup(past + [n] + p) && forall x | x in p :: x in t
    {
      var q := [n] + p;
      assert Path(t, q) by {
        assert forall i | 0 <= i < |q| - 1 :: i > 0 ==> Refers(t, p[i - 1], p[i]);
      }
      assert past + [n] + p == past + q;
      assert forall x | x in p :: x in q;
    }
    assert Path(t, [n, m]);
    assert m in [n, m];
  }

  /** The recursion over one rule set; `arr` holds the names on the way to it. */
  method VerifyCircularReferences(n: string, t: Table, arr: seq<string>) returns (err: Option<CheckError>)
    requires Path(t, arr + [n]) && NoDup(arr + [n])
    requires n in t && forall x | x in arr :: x in t
    ensures err.None? ==> Clear(t, arr, n)
    ensures err.Some? ==> Justified(t, err.value)
    decreases t.Keys - Elements(arr)
  {
    var path := arr + [n];
    assert n in t.Keys - Elements(arr) by {
      assert forall i | 0 <= i < |arr| :: path[i] == arr[i] && path[i] != path[|arr|];
    }
    for i := 0 to |t[n]|
      invariant forall j | 0 <= j < i :: t[n][j].isSub ==> Clear(t, path, t[n][j].adapter)
    {
      var rule := t[n][i];
      if rule.isSub {
        var m := rule.adapter;
        if m !in t {
          return Some(NotFound(i, n, m));
        }
        assert rule in t[n];
        assert Refers(t, n, m);
        PathSnoc(t, arr, n, m);
        if m in path {
          return Some(Circular(path + [m]));
        }
        assert Elements(path) == Elements(arr) + {n};
        err := VerifyCircularReferences(m, t, path);
        if err.Some? {
          return;
        }
      }
    }
    ClearStep(t, arr, n);
    err := None;
  }

  lemma PathSnoc(t: Table, arr: seq<string>, n: string, m: string)
    requires Path(t, arr + [n]) && Refers(t, n, m)
    ensures Path(t, arr + [n] + [m]) && (arr + [n] + [m])[..|arr| + 1] == arr + [n]
    ensures NoDup(arr + [n]) && m !in arr + [n] ==> NoDup(arr + [n] + [m])
  {
    var q := arr + [n] + [m];
    forall i | 0 <= i < |q| - 1
      ensures Refers(t, q[i], q[i + 1])
    {
      assert i < |arr| ==> Refers(t, (arr + [n])[i], (arr + [n])[i + 1]);
    }
  }

  /** Accepts exactly the tables whose references resolve and never come back; the rule sets are taken
      in any order. */
  method VerifySubRule(t: Table) returns (err: Option<CheckError>)
    ensures err.None? <==> Acceptable(t)
    ensures err.Some? ==> Justified(t, err.value)
  {
    var names := t.Keys;
    while names != {}
      invariant names <= t.Keys
      invariant forall n | n in t.Keys - names :: Clear(t, [], n)
    {
      var name :| name in names;
      assert [] + [name] == [name];
      err := VerifyCircularReferences(name, t, []);
      if err.Some? {
        JustifiedRejects(t, err.value);
        return;
      }
      names := names - {name};
    }
    AllClear(t);
    err := None;
  }

  lemma LoopIsNotClear(t: Table, p: seq<string>)
    ensures Loop(t, p) ==> p[0] in t && !Clear(t, [], p[0])
  {
    if Loop(t, p) {
      assert Refers(t, p[0], p[0 + 1]);
      assert [] + p == p;
    }
  }

  lemma AllClear(t: Table)
    ensures (forall n | n in t :: Clear(t, [], n)) <==> Acceptable(t)
  {
    if forall n | n in t :: Clear(t, [], n) {
      forall a, b | Refers(t, a, b)
        ensures b in t
      {
        ClearNext(t, [], a, b);
      }
      forall p
        ensures !Loop(t, p)
      {
        LoopIsNotClear(t, p);
      }
    }
    if Acceptable(t) {
      forall n, p | n in t && Path(t, p) && p[0] == n
        ensures NoDup([] + p) && forall x | x in p :: x in t
      {
        assert [] + p == p;
        PathIsShort(t, p);
      }
    }
  }

  /** In an accepted table nesting is bounded: a chain of references names no rule set twice. */
  lemma PathIsShort(t: Table, p: seq<string>)
    requires Acceptable(t) && Path(t, p) && p[0] in t
    ensures NoDup(p) && |p| <= |t| && forall x | x in p :: x in t
  {
    forall i | 0 <= i < |p|
      ensures p[i] in t.Keys
    {
      assert i > 0 ==> Refers(t, p[i - 1], p[i - 1 + 1]);
    }
    forall i, j | 0 <= i < j < |p|
      ensures p[i] != p[j]
    {
      if p[i] == p[j] {
        RepeatIsLoop(t, p, i, j);
      }
    }
    if |p| > |t.Keys| {
      var i, j := Pigeonhole(p, t.Keys);
    }
  }

  // ---------- matching ----------

  /** How the condition of a rule answers for the connection at hand. */
  type Answers = nat -> bool

  /** Whether an adapter asks to go on with the next rule. */
  type Passes = string -> bool

  /** A rule seen without nesting: it applies when all its conditions answer yes. */
  datatype Leaf = Leaf(conds: seq<nat>, adapter: string)

  predicate Applies(leaf: Leaf, answers: Answers) {
    forall c | c in leaf.conds :: answers(c)
  }

  /** The adapter of the first leaf that applies and does not pass. */
  function First(leaves: seq<Leaf>, answers: Answers, passes: Passes): (r: Option<string>)
    ensures r.Some? ==> !passes(r.value)
  {
    if leaves == [] then None
    else if Applies(leaves[0], answers) && !passes(leaves[0].adapter) then Some(leaves[0].adapter)
    else First(leaves[1..], answers, passes)
  }

  function Guarded(c: nat, leaves: seq<Leaf>): (g: seq<Leaf>)
    ensures |g| == |leaves|
  {
    if leaves == [] then [] else [leaves[0].(conds := [c] + leaves[0].conds)] + Guarded(c, leaves[1..])
  }

  lemma {:induction false} FirstOfSum(a: seq<Leaf>, b: seq<Leaf>, answers: Answers, passes: Passes)
    ensures First(a + b, answers, passes)
         == if First(a, answers, passes).Some? then First(a, answers, passes) else First(b, answers, passes)
  {
    if a == [] {
      assert a + b == b;
    } else {
      assert (a + b)[1..] == a[1..] + b;
      FirstOfSum(a[1..], b, answers, passes);
    }
  }

  lemma {:induction false} FirstOfGuarded(c: nat, leaves: seq<Leaf>, answers: Answers, passes: Passes)
    ensures First(Guarded(c, leaves), answers, passes)
         == if answers(c) then First(leaves, answers, passes) else None
  {
    if leaves != [] {
      var leaf := leaves[0].(conds := [c] + leaves[0].conds);
      assert leaf.conds[0] == c && leaf.conds[1..] == leaves[0].conds;
      assert Applies(leaf, answers) <==> answers(c) && Applies(leaves[0], answers) by {
        assert forall d | d in leaf.conds :: d == c || d in leaves[0].conds;
        assert forall d | d in leaves[0].conds :: d in leaf.conds;
      }
      var all := Guarded(c, leaves);
      assert all[0] == leaf && all[1..] == Guarded(c, leaves[1..]);
      FirstOfGuarded(c, leaves[1..], answers, passes);
    }
  }

  /** A rule set from its i-th rule on, with every rule set it names put in its place. */
  ghost function Inlined(t: Table, past: seq<string>, n: string, i: nat): seq<Leaf>
    requires n in t && i <= |t[n]| && Clear(t, past, n)
    decreases t.Keys - Elements(past), |t[n]| - i
  {
    if i == |t[n]| then [] else InlinedRule(t, past, n, i) + Inlined(t, past, n, i + 1)
  }

  ghost function InlinedRule(t: Table, past: seq<string>, n: string, i: nat): seq<Leaf>
    requires n in t && i < |t[n]| && Clear(t, past, n)
    decreases t.Keys - Elements(past), |t[n]| - i, 0
  {
    var r := t[n][i];
    if r.isSub then
      Deeper(t, past, n, i);
      Guarded(r.cond, Inlined(t, past + [n], r.adapter, 0))
    else [Leaf([r.cond], r.adapter)]
  }

  lemma Deeper(t: Table, past: seq<string>, n: string, i: nat)
    requires n in t && i < |t[n]| && Clear(t, past, n) && t[n][i].isSub
    ensures t[n][i].adapter in t && Clear(t, past + [n], t[n][i].adapter)
    ensures t.Keys - Elements(past + [n]) < t.Keys - Elements(past)
  {
    assert t[n][i] in t[n];
    assert Refers(t, n, t[n][i].adapter);
    ClearNext(t, past, n, t[n][i].adapter);
    assert Path(t, [n]);
    assert NoDup(past + [n]);
    assert forall k | 0 <= k < |past| :: (past + [n])[k] == past[k] && (past + [n])[k] != (past + [n])[|past|];
    assert n in t.Keys - Elements(past) && n in Elements(past + [n]);
    assert Elements(past) <= Elements(past + [n]);
  }

  // ---------- the first match, rule by rule ----------

  /** `p` leads to a rule: the place of a sub-rule in the rule set `n`, the place of one in the rule set that
      it names, and so on, and at last the place of a rule that is none.  All the conditions on the way
      hold, and the adapter at its end does not pass. */
  ghost predicate Hits(t: Table, n: string, p: seq<nat>, answers: Answers, passes: Passes)
    decreases |p|
  {
    && n in t && p != [] && p[0] < |t[n]| && answers(t[n][p[0]].cond)
    && if t[n][p[0]].isSub then Hits(t, t[n][p[0]].adapter, p[1..], answers, passes)
       else |p| == 1 && !passes(t[n][p[0]].adapter)
  }

  /** The adapter that it leads to. */
  ghost function End(t: Table, n: string, p: seq<nat>): string
    decreases |p|
  {
    if p == [] || n !in t || p[0] >= |t[n]| then ""
    else if t[n][p[0]].isSub then End(t, t[n][p[0]].adapter, p[1..])
    else t[n][p[0]].adapter
  }

  /** `p` comes before `q` in the order of the rules. */
  ghost predicate Sooner(p: seq<nat>, q: seq<nat>)
    decreases |p|
  {
    p != [] && q != [] && (p[0] < q[0] || (p[0] == q[0] && Sooner(p[1..], q[1..])))
  }

  /** From the i-th rule of a rule set on: what the first hit leads to, or that there is none. */
  ghost predicate FirstHit(t: Table, n: string, i: nat, answers: Answers, passes: Passes, r: Option<string>) {
    match r
    case None => forall p | Hits(t, n, p, answers, passes) :: p[0] < i
    case Some(a) => exists p :: FirstHitAt(t, n, i, answers, passes, p) && End(t, n, p) == a
  }

  ghost predicate FirstHitAt(t: Table, n: string, i: nat, answers: Answers, passes: Passes, p: seq<nat>) {
    Hits(t, n, p, answers, passes) && i <= p[0]
    && forall q | Hits(t, n, q, answers, passes) && i <= q[0] :: q == p || Sooner(p, q)
  }

  lemma HitInside(t: Table, n: string, i: nat, answers: Answers, passes: Passes, p: seq<nat>)
    requires n in t && i < |t[n]| && t[n][i].isSub && answers(t[n][i].cond)
    ensures Hits(t, n, [i] + p, answers, passes) <==> Hits(t, t[n][i].adapter, p, answers, passes)
    ensures End(t, n, [i] + p) == End(t, t[n][i].adapter, p)
  {
    assert ([i] + p)[1..] == p;
  }

  lemma HitSplits(p: seq<nat>)
    requires p != []
    ensures p == [p[0]] + p[1..]
  {
  }

  /** Only a hit at rule i itself can come before those after it. */
  lemma FirstHitNext(t: Table, n: string, i: nat, answers: Answers, passes: Passes, r: Option<string>)
    requires n in t && i < |t[n]| && FirstHit(t, n, i + 1, answers, passes, r)
    requires forall p | Hits(t, n, p, answers, passes) :: p[0] != i
    ensures FirstHit(t, n, i, answers, passes, r)
  {
    hide Hits, End, Sooner;
    if r.Some? {
      var p :| FirstHitAt(t, n, i + 1, answers, passes, p) && End(t, n, p) == r.value;
      assert FirstHitAt(t, n, i, answers, passes, p);
    }
  }

  lemma FirstHitInside(t: Table, n: string, i: nat, answers: Answers, passes: Passes, a: string)
    requires n in t && i < |t[n]| && t[n][i].isSub && answers(t[n][i].cond)
    requires FirstHit(t, t[n][i].adapter, 0, answers, passes, Some(a))
    ensures FirstHit(t, n, i, answers, passes, Some(a))
  {
    var m := t[n][i].adapter;
    var p :| FirstHitAt(t, m, 0, answers, passes, p) && End(t, m, p) == a;
    HitInside(t, n, i, answers, passes, p);
    var first := [i] + p;
    forall q | Hits(t, n, q, answers, passes) && i <= q[0]
      ensures q == first || Sooner(first, q)
    {
      HitSplits(q);
      HitInside(t, n, i, answers, passes, q[1..]);
      assert first[1..] == p;
    }
    assert FirstHitAt(t, n, i, answers, passes, first);
  }

  lemma FirstHitPlain(t: Table, n: string, i: nat, answers: Answers, passes: Passes)
    requires n in t && i < |t[n]| && !t[n][i].isSub && answers(t[n][i].cond) && !passes(t[n][i].adapter)
    ensures FirstHit(t, n, i, answers, passes, Some(t[n][i].adapter))
  {
    forall q | Hits(t, n, q, answers, passes) && i <= q[0]
      ensures q == [i] || Sooner([i], q)
    {
      HitSplits(q);
    }
    assert FirstHitAt(t, n, i, answers, passes, [i]);
  }

  lemma NoHitAt(t: Table, n: string, i: nat, answers: Answers, passes: Passes, p: seq<nat>)
    requires n in t && i < |t[n]| && Hits(t, n, p, answers, passes) && p[0] == i
    ensures answers(t[n][i].cond)
    ensures if t[n][i].isSub then Hits(t, t[n][i].adapter, p[1..], answers, passes) else !passes(t[n][i].adapter)
  {
  }

  /** The first leaf of the inlined rule set that applies is the first hit. */
  lemma {:induction false} FirstIsFirstHit(
      t: Table, past: seq<string>, n: string, i: nat, answers: Answers, passes: Passes)
    requires n in t && i <= |t[n]| && Clear(t, past, n)
    ensures FirstHit(t, n, i, answers, passes, First(Inlined(t, past, n, i), answers, passes))
    decreases t.Keys - Elements(past), |t[n]| - i
  {
    hide Hits, End, Sooner, FirstHit, Clear, First;
    if i == |t[n]| {
      NothingLeft(t, n, answers, passes);
    } else {
      var r := t[n][i];
      FirstOfSum(InlinedRule(t, past, n, i), Inlined(t, past, n, i + 1), answers, passes);
      FirstIsFirstHit(t, past, n, i + 1, answers, passes);
      var inner := None;
      if r.isSub {
        Deeper(t, past, n, i);
        FirstOfGuarded(r.cond, Inlined(t, past + [n], r.adapter, 0), answers, passes);
        FirstIsFirstHit(t, past + [n], r.adapter, 0, answers, passes);
        inner := First(Inlined(t, past + [n], r.adapter, 0), answers, passes);
      } else {
        PlainRule(t, past, n, i, answers, passes);
      }
      FirstHitFrom(t, n, i, answers, passes, inner, First(Inlined(t, past, n, i + 1), answers, passes));
    }
  }

  lemma NothingLeft(t: Table, n: string, answers: Answers, passes: Passes)
    requires n in t
    ensures FirstHit(t, n, |t[n]|, answers, passes, First([], answers, passes))
  {
  }

  /** `inner` is the first hit of the rule set that rule i names, `rest` that of the rules after it. */
  lemma FirstHitFrom(t: Table, n: string, i: nat, answers: Answers, passes: Passes,
                     inner: Option<string>, rest: Option<string>)
    requires n in t && i < |t[n]| && FirstHit(t, n, i + 1, answers, passes, rest)
    requires t[n][i].isSub ==> FirstHit(t, t[n][i].adapter, 0, answers, passes, inner)
    ensures var r := t[n][i];
      var here := if !answers(r.cond) then None else if r.isSub then inner
                  else if passes(r.adapter) then None else Some(r.adapter);
      FirstHit(t, n, i, answers, passes, if here.Some? then here else rest)
  {
    hide End, Sooner;
    var r := t[n][i];
    if answers(r.cond) && r.isSub && inner.Some? {
      FirstHitInside(t, n, i, answers, passes, inner.value);
    } else if answers(r.cond) && !r.isSub && !passes(r.adapter) {
      FirstHitPlain(t, n, i, answers, passes);
    } else {
      forall p | Hits(t, n, p, answers, passes)
        ensures p[0] != i
      {
        if p[0] == i {
          NoHitAt(t, n, i, answers, passes, p);
        }
      }
      FirstHitNext(t, n, i, answers, passes, rest);
    }
  }

  // ---------- the program ----------

  /** What rule i of a rule set answers: a sub-rule whose condition holds matches its own rule set. */
  method MatchRule(t: Table, ghost past: seq<string>, n: string, i: nat, answers: Answers, passes: Passes)
    returns (m: bool, a: string)
    requires n in t && i < |t[n]| && Clear(t, past, n)
    ensures var r := t[n][i];
      if r.isSub then
        First(InlinedRule(t, past, n, i), answers, passes) == if m then Some(a) else None
      else m == answers(r.cond) && (m ==> a == r.adapter)
    decreases t.Keys - Elements(past), |t[n]| - i, 0
  {
    var r := t[n][i];
    if !r.isSub {
      return answers(r.cond), r.adapter;
    }
    Deeper(t, past, n, i);
    FirstOfGuarded(r.cond, Inlined(t, past + [n], r.adapter, 0), answers, passes);
    m, a := false, "";
    if answers(r.cond) {
      m, a := MatchSubRules(t, past + [n], r.adapter, answers, passes);
    }
  }

  /** Matching against a rule set ends, and gives what matching against the inlined rule set gives.  A
      sub-rule that matched is matched a second time, as in the program. */
  method MatchSubRules(t: Table, ghost past: seq<string>, n: string, answers: Answers, passes: Passes)
    returns (m: bool, a: string)
    requires n in t && Clear(t, past, n)
    ensures First(Inlined(t, past, n, 0), answers, passes) == if m then Some(a) else None
    ensures FirstHit(t, n, 0, answers, passes, if m then Some(a) else None)
    decreases t.Keys - Elements(past), |t[n]| + 1
  {
    hide FirstHit;
    FirstIsFirstHit(t, past, n, 0, answers, passes);
    for i := 0 to |t[n]|
      invariant First(Inlined(t, past, n, 0), answers, passes) == First(Inlined(t, past, n, i), answers, passes)
    {
      FirstOfSum(InlinedRule(t, past, n, i), Inlined(t, past, n, i + 1), answers, passes);
      var r := t[n][i];
      m, a := MatchRule(t, past, n, i, answers, passes);
      PlainRule(t, past, n, i, answers, passes);
      if m {
        if r.isSub {
          Deeper(t, past, n, i);
          FirstOfGuarded(r.cond, Inlined(t, past + [n], r.adapter, 0), answers, passes);
          m, a := MatchSubRules(t, past + [n], r.adapter, answers, passes);
        }
        if m && passes(a) {
          continue;
        }
        return;
      }
    }
    m, a := false, "";
  }

  lemma PlainRule(t: Table, past: seq<string>, n: string, i: nat, answers: Answers, passes: Passes)
    requires n in t && i < |t[n]| && Clear(t, past, n)
    ensures var r := t[n][i]; !r.isSub ==>
      First(InlinedRule(t, past, n, i), answers, passes)
        == if answers(r.cond) && !passes(r.adapter) then Some(r.adapter) else None
  {
    var r := t[n][i];
    if !r.isSub {
      var leaf := Leaf([r.cond], r.adapter);
      assert leaf.conds[0] == r.cond;
      assert [leaf][1..] == [];
    }
  }

  /** Every rule set of an accepted table can be matched. */
  lemma AcceptedIsClear(t: Table, n: string)
    requires Acceptable(t) && n in t
    ensures Clear(t, [], n)
  {
    AllClear(t);
  }
}
