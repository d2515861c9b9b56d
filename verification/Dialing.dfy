/** Dialing through dialer proxies and groups.  A proxy that names a dialer hands its dial to the adapter of
    that name; a group hands it to one of its choices.  The check of dialer references looks at the
    first kind of step only. */
module Dialing {
  import opened Common
  import opened GroupGraph
  import opened RuleMatch
  import DialerProxies

  /** The adapter that the dial is handed to in its k-th step; None when it goes out, or fails because no
      proxy has the dialer's name. */
  function Next(t: Table, choice: Choice, k: nat, a: Id): Option<Id>
    requires a in t.adapters
  {
    var x := t.adapters[a];
    if x.choices != [] then Some(choice(k, a))
    else if x.dialer != "" && x.dialer in t.proxies then Some(t.proxies[x.dialer])
    else None
  }

  /** Where the dial that starts at `a` is after k steps. */
  function DialAt(t: Table, choice: Choice, a: Id, k: nat): Option<Id> {
    if k == 0 then Some(a)
    else
      var before := DialAt(t, choice, a, k - 1);
      if before.Some? && before.value in t.adapters then Next(t, choice, k - 1, before.value) else None
  }

  ghost predicate Ends(t: Table, choice: Choice, a: Id) {
    exists k: nat :: DialAt(t, choice, a, k).None?
  }

  /** Adapter `a` may hand a dial to `b`. */
  ghost predicate Link(t: Table, a: Id, b: Id) {
    a in t.adapters && var x := t.adapters[a];
    if x.choices != [] then b in x.choices
    else x.dialer != "" && x.dialer in t.proxies && t.proxies[x.dialer] == b
  }

  ghost predicate Circle(t: Table, p: seq<Id>) {
    |p| >= 2 && p[0] == p[|p| - 1] && forall i | 0 <= i < |p| - 1 :: Link(t, p[i], p[i + 1])
  }

  // ---------- without a circle ----------

  lemma DialLinks(t: Table, choice: Choice, a: Id, k: nat)
    requires Closed(t) && Chooses(t, choice) && a in t.adapters && DialAt(t, choice, a, k + 1).Some?
    ensures DialAt(t, choice, a, k).Some?
    ensures Link(t, DialAt(t, choice, a, k).value, DialAt(t, choice, a, k + 1).value)
    ensures DialAt(t, choice, a, k + 1).value in t.adapters
  {
  }

  lemma {:induction false} DialPrefix(t: Table, choice: Choice, a: Id, i: nat, k: nat)
    requires Closed(t) && Chooses(t, choice) && a in t.adapters && i <= k && DialAt(t, choice, a, k).Some?
    ensures DialAt(t, choice, a, i).Some? && DialAt(t, choice, a, i).value in t.adapters
    decreases k
  {
    if k > 0 {
      DialLinks(t, choice, a, k - 1);
      if i < k {
        DialPrefix(t, choice, a, i, k - 1);
      }
    }
  }

  /** A dial that takes as many steps as there are adapters has gone in a circle. */
  lemma LongDialCircles(t: Table, choice: Choice, a: Id) returns (p: seq<Id>)
    requires Closed(t) && Chooses(t, choice) && a in t.adapters
    requires DialAt(t, choice, a, |t.adapters|).Some?
    ensures Circle(t, p)
  {
    hide DialAt, Link, Closed, Chooses, Circle;
    var n := |t.adapters| + 1;
    forall i: nat | i < n
      ensures DialAt(t, choice, a, i).Some? && DialAt(t, choice, a, i).value in t.adapters
    {
      DialPrefix(t, choice, a, i, n - 1);
    }
    var q := seq(n, (i: nat) requires i < n && DialAt(t, choice, a, i).Some? => DialAt(t, choice, a, i).value);
    var i, j := Pigeonhole(q, t.adapters.Keys);
    forall k: nat | k < n - 1
      ensures Link(t, q[k], q[k + 1])
    {
      DialLinks(t, choice, a, k);
    }
    p := q[i..j + 1];
    PartCircles(t, q, i, j);
  }

  lemma PartCircles(t: Table, q: seq<Id>, i: nat, j: nat)
    requires (forall k: nat | k < |q| - 1 :: Link(t, q[k], q[k + 1])) && i < j < |q| && q[i] == q[j]
    ensures Circle(t, q[i..j + 1])
  {
    hide Link;
    var p := q[i..j + 1];
    forall k | 0 <= k < |p| - 1
      ensures Link(t, p[k], p[k + 1])
    {
      assert Link(t, q[i + k], q[i + k + 1]);
    }
  }

  // ---------- along a circle ----------

  /** A choice that stays on the circle, the same at every step. */
  ghost function Follow(t: Table, p: seq<Id>, x: Id): Id {
    if i :| 0 <= i < |p| - 1 && p[i] == x then p[i + 1]
    else if x in t.adapters && t.adapters[x].choices != [] then t.adapters[x].choices[0]
    else 0
  }

  lemma FollowChooses(t: Table, p: seq<Id>)
    requires Circle(t, p)
    ensures Chooses(t, (k: nat, x: Id) => Follow(t, p, x))
  {
    forall x | x in t.adapters && t.adapters[x].choices != []
      ensures Follow(t, p, x) in t.adapters[x].choices
    {
      assert forall i | 0 <= i < |p| - 1 && p[i] == x :: Link(t, p[i], p[i + 1]);
    }
  }

  lemma {:induction false} FollowStays(t: Table, p: seq<Id>, k: nat)
    requires Circle(t, p)
    ensures var choice := (k: nat, x: Id) => Follow(t, p, x);
      DialAt(t, choice, p[0], k).Some? && DialAt(t, choice, p[0], k).value in p[..|p| - 1]
  {
    var choice := (k: nat, x: Id) => Follow(t, p, x);
    if k == 0 {
      assert p[..|p| - 1][0] == p[0];
    } else {
      FollowStays(t, p, k - 1);
      var x := DialAt(t, choice, p[0], k - 1).value;
      var i := OnCircle(t, p, x);
      assert Link(t, p[i], p[i + 1]);
      var next := p[..|p| - 1];
      assert p[i + 1] == next[if i + 1 < |p| - 1 then i + 1 else 0];
    }
  }

  /** Where a circle goes on from `x`. */
  lemma OnCircle(t: Table, p: seq<Id>, x: Id) returns (i: nat)
    requires Circle(t, p) && x in p[..|p| - 1]
    ensures i < |p| - 1 && p[i] == x && Follow(t, p, x) == p[i + 1]
  {
    var k :| 0 <= k < |p| - 1 && p[..|p| - 1][k] == x;
    assert p[k] == x;
    i :| 0 <= i < |p| - 1 && p[i] == x && Follow(t, p, x) == p[i + 1];
  }

  // ---------- the main result ----------

  /** Every dial ends, whatever the groups choose, exactly when dialer references and choices of groups
      together form no circle.  A dial that ends takes fewer steps than there are adapters. */
  lemma DialingEndsIff(t: Table)
    requires Closed(t)
    ensures (forall choice: Choice, a | Chooses(t, choice) && a in t.adapters :: Ends(t, choice, a))
       <==> (forall p :: !Circle(t, p))
    ensures (forall p :: !Circle(t, p)) ==>
      forall choice: Choice, a | Chooses(t, choice) && a in t.adapters :: DialAt(t, choice, a, |t.adapters|).None?
  {
    if p :| Circle(t, p) {
      var choice := (k: nat, x: Id) => Follow(t, p, x);
      FollowChooses(t, p);
      assert Link(t, p[0], p[1]);
      forall k: nat
        ensures DialAt(t, choice, p[0], k).Some?
      {
        FollowStays(t, p, k);
      }
      assert !Ends(t, choice, p[0]);
    } else {
      forall choice: Choice, a | Chooses(t, choice) && a in t.adapters
        ensures DialAt(t, choice, a, |t.adapters|).None? && Ends(t, choice, a)
      {
        if DialAt(t, choice, a, |t.adapters|).Some? {
          var p := LongDialCircles(t, choice, a);
        }
      }
    }
  }

  // ---------- what the check of dialer references gives ----------

  /** What the check collects: the dialer that each proxy found by name has. */
  ghost function Dialers(t: Table): DialerProxies.Proxies
    requires Closed(t)
  {
    map n | n in t.proxies :: t.adapters[t.proxies[n]].dialer
  }

  /** It is not enough: P dials through the group G, which lists P.  The check accepts, and the dial never
      ends. */
  lemma AcceptedYetEndless(choice: Choice)
    ensures var t := Table(map["P" := 0, "G" := 1],
                           map[0 := Adapter(Plain, true, "G", []), 1 := Adapter(Plain, true, "", [0])]);
      && Closed(t) && DialerProxies.Acceptable(Dialers(t)) && Descends(t, [1])
      && (Chooses(t, choice) ==> !Ends(t, choice, 0))
  {
    var t := Table(map["P" := 0, "G" := 1],
                   map[0 := Adapter(Plain, true, "G", []), 1 := Adapter(Plain, true, "", [0])]);
    hide DialerProxies.Acceptable;
    assert "P"[0] != "G"[0];
    assert Dialers(t) == map["P" := "G", "G" := ""];
    OneReferenceIsAccepted();
    if Chooses(t, choice) {
      forall k: nat
        ensures DialAt(t, choice, 0, k).Some?
      {
        BackAndForth(t, choice, k);
      }
    }
  }

  lemma OneReferenceIsAccepted()
    ensures DialerProxies.Acceptable(map["P" := "G", "G" := ""])
  {
    var d: DialerProxies.Proxies := map["P" := "G", "G" := ""];
    assert "P"[0] != "G"[0];
    var g := DialerProxies.GraphOf(d);
    assert g == map["P" := "G"];
    assert DialerProxies.Hop(g, "G", 1).None?;
    assert DialerProxies.Hop(g, "P", 1) == Some("G") && DialerProxies.Hop(g, "P", 2).None?;
    assert DialerProxies.Follows(g, "G", ["G"]) && DialerProxies.Follows(g, "P", ["P", "G"]);
    DialerProxies.EndsWithoutRevisit(g, "G", ["G"]);
    DialerProxies.EndsWithoutRevisit(g, "P", ["P", "G"]);
  }

  lemma {:induction false} BackAndForth(t: Table, choice: Choice, k: nat)
    requires Chooses(t, choice) && "G" in t.proxies && t.proxies["G"] == 1
    requires t.adapters == map[0 := Adapter(Plain, true, "G", []), 1 := Adapter(Plain, true, "", [0])]
    ensures DialAt(t, choice, 0, k) == Some(k % 2)
  {
    if k > 0 {
      BackAndForth(t, choice, k - 1);
    }
  }

  // ---------- where it is enough ----------

  /** No proxy names a group as its dialer. */
  ghost predicate DialersArePlain(t: Table) {
    forall a | a in t.adapters && t.adapters[a].choices == [] && t.adapters[a].dialer in t.proxies ::
      t.proxies[t.adapters[a].dialer] in t.adapters && t.adapters[t.proxies[t.adapters[a].dialer]].choices == []
  }

  lemma {:induction false} GroupsGoDown(t: Table, order: seq<Id>, p: seq<Id>, i: nat)
    requires Descends(t, order) && |p| >= 2 && 0 < i < |p|
    requires forall j | 0 <= j < |p| - 1 :: Link(t, p[j], p[j + 1]) && t.adapters[p[j]].choices != []
    ensures Rank(order, p[i]) < Rank(order, p[0])
  {
    assert Link(t, p[i - 1], p[i - 1 + 1]);
    ChoiceDescends(t, order, p[i - 1], p[i]);
    if i > 1 {
      GroupsGoDown(t, order, p, i - 1);
    }
  }

  lemma {:induction false} PlainStaysPlain(t: Table, p: seq<Id>, i: nat, j: nat)
    requires DialersArePlain(t) && Circle(t, p) && i <= j < |p|
    requires p[i] in t.adapters && t.adapters[p[i]].choices == []
    ensures p[j] in t.adapters && t.adapters[p[j]].choices == []
  {
    if i < j {
      PlainStaysPlain(t, p, i, j - 1);
      assert Link(t, p[j - 1], p[j - 1 + 1]);
    }
  }

  /** A circle of plain proxies is a circle of dialer references. */
  lemma {:induction false} PlainCircleHops(t: Table, p: seq<Id>, j: nat)
    requires Closed(t) && Circle(t, p) && j < |p|
    requires forall i | 0 <= i < |p| - 1 :: p[i] in t.adapters && t.adapters[p[i]].choices == []
    ensures var first := t.adapters[p[|p| - 2]].dialer;
      DialerProxies.Hop(DialerProxies.GraphOf(Dialers(t)), first, j)
        == Some(if j == 0 then first else t.adapters[p[j - 1]].dialer)
  {
    var n := |p| - 1;
    assert Link(t, p[n - 1], p[n - 1 + 1]);
    if j > 0 {
      PlainCircleHops(t, p, j - 1);
      assert Link(t, p[j - 1], p[j - 1 + 1]);
      if j > 1 {
        assert Link(t, p[j - 2], p[j - 2 + 1]);
      }
    }
  }

  /** An accepted table without groups as dialers has no circle: every dial ends. */
  lemma AcceptedDialingEnds(t: Table, order: seq<Id>, p: seq<Id>)
    requires Descends(t, order) && DialersArePlain(t) && DialerProxies.Acceptable(Dialers(t))
    ensures !Circle(t, p)
  {
    if Circle(t, p) {
      var n := |p| - 1;
      if i :| 0 <= i < n && p[i] in t.adapters && t.adapters[p[i]].choices == [] {
        PlainStaysPlain(t, p, i, n);
        forall j | 0 <= j < n
          ensures p[j] in t.adapters && t.adapters[p[j]].choices == []
        {
          PlainStaysPlain(t, p, 0, j);
        }
        PlainCircleRevisits(t, p);
      } else {
        forall j | 0 <= j < n
          ensures Link(t, p[j], p[j + 1]) && t.adapters[p[j]].choices != []
        {
        }
        GroupsGoDown(t, order, p, n);
      }
    }
  }

  lemma PlainCircleRevisits(t: Table, p: seq<Id>)
    requires Closed(t) && Circle(t, p)
    requires forall i | 0 <= i < |p| - 1 :: p[i] in t.adapters && t.adapters[p[i]].choices == []
    ensures !DialerProxies.Acceptable(Dialers(t))
  {
    var n := |p| - 1;
    var g := DialerProxies.GraphOf(Dialers(t));
    var first := t.adapters[p[n - 1]].dialer;
    assert Link(t, p[n - 1], p[n - 1 + 1]);
    PlainCircleHops(t, p, 0);
    PlainCircleHops(t, p, n);
    assert first in Dialers(t);
    assert DialerProxies.Revisits(g, first);
  }
}
