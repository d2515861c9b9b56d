/** The connection pool of the DNS-over-TLS client, as a state machine over every interleaving of
    exchanges and resets.  Each step is atomic in the program: it happens under the mutex of the pool,
    or concerns one exchange only. */
module DotPool {
  import opened Common

  const MAX_OLD_CONNS := 8

  /** Where an exchange is.  `reused` says whether its connection came from the pool. */
  datatype Pc =
    | Start
    | Dialing
    | Holding(conn: nat, reused: bool)
    | Answered(conn: nat)
    | Done

  /** Connections are numbered as they are dialed.  A connection handed to a goroutine that closes it
      counts as closed. */
  datatype State = State(reuse: bool, pool: seq<nat>, dialed: nat, closed: set<nat>, exchanges: map<nat, Pc>)

  datatype Step =
    | Begin(e: nat) | Cancelled(e: nat) | Take(e: nat) | NoneFree(e: nat) | DialOk(e: nat) | DialErr(e: nat)
    | AnswerErr(e: nat) | AnswerOk(e: nat) | GiveBack(e: nat) | Reset

  predicate Init(s: State) {
    s.pool == [] && s.dialed == 0 && s.closed == {} && s.exchanges == map[]
  }

  predicate At(s: State, e: nat, pc: Pc) { e in s.exchanges && s.exchanges[e] == pc }

  predicate Enabled(s: State, step: Step) {
    match step
    case Begin(e) => e !in s.exchanges
    case Cancelled(e) => At(s, e, Start)
    case Take(e) => At(s, e, Start) && s.reuse && s.pool != []
    case NoneFree(e) => At(s, e, Start) && (!s.reuse || s.pool == [])
    case DialOk(e) => At(s, e, Dialing)
    case DialErr(e) => At(s, e, Dialing)
    case AnswerErr(e) => e in s.exchanges && s.exchanges[e].Holding?
    case AnswerOk(e) => e in s.exchanges && s.exchanges[e].Holding?
    case GiveBack(e) => e in s.exchanges && s.exchanges[e].Answered?
    case Reset => s.reuse
  }

  function Goto(s: State, e: nat, pc: Pc): State { s.(exchanges := s.exchanges[e := pc]) }

  function Apply(s: State, step: Step): State
    requires Enabled(s, step)
  {
    match step
    case Begin(e) => Goto(s, e, Start)
    case Cancelled(e) => Goto(s, e, Done)
    case Take(e) =>
      var n := |s.pool| - 1;
      Goto(s.(pool := s.pool[..n]), e, Holding(s.pool[n], true))
    case NoneFree(e) => Goto(s, e, Dialing)
    case DialOk(e) => Goto(s.(dialed := s.dialed + 1), e, Holding(s.dialed, false))
    case DialErr(e) => Goto(s, e, Done)
    case AnswerErr(e) =>
      var h := s.exchanges[e];
      Goto(s.(closed := s.closed + {h.conn}), e, if h.reused then Start else Done)
    case AnswerOk(e) => Goto(s, e, Answered(s.exchanges[e].conn))
    case GiveBack(e) =>
      var c := s.exchanges[e].conn;
      if !s.reuse then Goto(s.(closed := s.closed + {c}), e, Done)
      else if |s.pool| >= MAX_OLD_CONNS then
        Goto(s.(pool := s.pool[1..] + [c], closed := s.closed + {s.pool[0]}), e, Done)
      else Goto(s.(pool := s.pool + [c]), e, Done)
    case Reset => s.(pool := [], closed := s.closed + (set c | c in s.pool))
  }

  predicate Has(pc: Pc, c: nat) { (pc.Holding? && pc.conn == c) || (pc.Answered? && pc.conn == c) }

  predicate HeldBy(s: State, e: nat, c: nat) { e in s.exchanges && Has(s.exchanges[e], c) }

  ghost predicate Held(s: State, c: nat) { exists e: nat :: HeldBy(s, e, c) }

  /** A dialed connection is in the pool, or held by an exchange, or closed, and only one of these. */
  ghost predicate OnePlace(s: State, c: nat) {
    && (c in s.pool || Held(s, c) || c in s.closed)
    && !(c in s.pool && Held(s, c)) && !(c in s.pool && c in s.closed) && !(Held(s, c) && c in s.closed)
  }

  ghost predicate Inv(s: State) {
    && |s.pool| <= MAX_OLD_CONNS && NoDup(s.pool)
    && (forall c: nat | c < s.dialed :: OnePlace(s, c))
    && (forall c | c in s.pool || c in s.closed :: c < s.dialed)
    && (forall e: nat, c: nat | HeldBy(s, e, c) :: c < s.dialed)
    && (forall e: nat, f: nat, c: nat | HeldBy(s, e, c) && HeldBy(s, f, c) :: e == f)
  }

  lemma InitInv(s: State)
    requires Init(s)
    ensures Inv(s)
  {
  }

  /** What an exchange holds is all that its step changes about who holds what. */
  lemma HeldAfter(s: State, r: State, e: nat, c: nat)
    requires e in r.exchanges && r.exchanges == s.exchanges[e := r.exchanges[e]]
    requires forall f | HeldBy(s, f, c) && HeldBy(s, e, c) :: f == e
    ensures Held(r, c) <==> Has(r.exchanges[e], c) || (Held(s, c) && !HeldBy(s, e, c))
  {
    if Held(s, c) && !HeldBy(s, e, c) {
      var f :| HeldBy(s, f, c);
      assert HeldBy(r, f, c);
    }
    if Has(r.exchanges[e], c) {
      assert HeldBy(r, e, c);
    }
    if Held(r, c) {
      var f :| HeldBy(r, f, c);
      assert f != e ==> HeldBy(s, f, c);
    }
  }

  lemma PoolAfter(s: State, step: Step)
    requires Inv(s) && Enabled(s, step)
    ensures var r := Apply(s, step);
      && |r.pool| <= MAX_OLD_CONNS && NoDup(r.pool)
      && (forall c | c in r.pool || c in r.closed :: c < r.dialed)
  {
    match step
    case Take(e) => LastAndFirst(s.pool);
    case AnswerErr(e) => assert HeldBy(s, e, s.exchanges[e].conn);
    case GiveBack(e) =>
      var c := s.exchanges[e].conn;
      assert HeldBy(s, e, c) && Held(s, c) && OnePlace(s, c);
      assert c !in s.pool;
      LastAndFirst(s.pool);
    case _ =>
  }

  lemma HoldersAfter(s: State, step: Step)
    requires Inv(s) && Enabled(s, step)
    ensures var r := Apply(s, step);
      && (forall e: nat, c: nat | HeldBy(r, e, c) :: c < r.dialed)
      && (forall e: nat, f: nat, c: nat | HeldBy(r, e, c) && HeldBy(r, f, c) :: e == f)
  {
    var r := Apply(s, step);
    if step.Reset? {
      assert forall e: nat, c: nat :: HeldBy(r, e, c) <==> HeldBy(s, e, c);
    } else {
      assert forall f: nat, c: nat | f != step.e :: HeldBy(r, f, c) <==> HeldBy(s, f, c);
      forall c: nat | HeldBy(r, step.e, c)
        ensures c < r.dialed && forall f | f != step.e :: !HeldBy(s, f, c)
      {
        if step.Take? {
          assert c in s.pool && OnePlace(s, c);
          assert forall f :: HeldBy(s, f, c) ==> Held(s, c);
        } else {
          assert !step.DialOk? ==> HeldBy(s, step.e, c);
        }
      }
    }
  }

  lemma PlacesAfter(s: State, step: Step, c: nat)
    requires Inv(s) && Enabled(s, step) && c < Apply(s, step).dialed
    ensures OnePlace(Apply(s, step), c)
  {
    var r := Apply(s, step);
    assert c < s.dialed ==> OnePlace(s, c);
    if step.Reset? {
      SameHolders(s, r, c);
    } else {
      HeldAfter(s, r, step.e, c);
      assert HeldBy(s, step.e, c) ==> Held(s, c);
      LastAndFirst(s.pool);
      if c == s.dialed {
        assert !Held(s, c);
      }
    }
  }

  lemma SameHolders(s: State, r: State, c: nat)
    requires s.exchanges == r.exchanges
    ensures Held(r, c) <==> Held(s, c)
  {
    assert forall e :: HeldBy(r, e, c) <==> HeldBy(s, e, c);
  }

  lemma LastAndFirst(p: seq<nat>)
    requires NoDup(p)
    ensures p != [] ==> var n := |p| - 1;
      && (forall c :: c in p <==> c in p[..n] || c == p[n]) && p[n] !in p[..n]
      && (forall c :: c in p <==> c in p[1..] || c == p[0]) && p[0] !in p[1..]
  {
    if p != [] {
      assert p == p[..|p| - 1] + [p[|p| - 1]] && p == [p[0]] + p[1..];
    }
  }

  lemma StepKeepsInv(s: State, step: Step)
    requires Inv(s) && Enabled(s, step)
    ensures Inv(Apply(s, step))
  {
    PoolAfter(s, step);
    HoldersAfter(s, step);
    forall c: nat | c < Apply(s, step).dialed
      ensures OnePlace(Apply(s, step), c)
    {
      PlacesAfter(s, step, c);
    }
  }

  predicate Stepped(s: State, step: Step, r: State) {
    Enabled(s, step) && r == Apply(s, step)
  }

  ghost predicate Run(states: seq<State>, steps: seq<Step>) {
    && |states| == |steps| + 1 && Init(states[0])
    && forall k | 0 <= k < |steps| :: Stepped(states[k], steps[k], states[k + 1])
  }

  /** In every reachable state each connection ever dialed is pooled once, or held by exactly one
      exchange, or closed; the pool has at most eight connections, none of them closed. */
  lemma {:induction false} NoConnectionIsLost(states: seq<State>, steps: seq<Step>)
    requires Run(states, steps)
    ensures Inv(states[|steps|])
    decreases |steps|
  {
    if steps == [] {
      InitInv(states[0]);
    } else {
      var n := |steps| - 1;
      var before := states[..n + 1];
      forall k | 0 <= k < n
        ensures Stepped(before[k], steps[..n][k], before[k + 1])
      {
        assert Stepped(states[k], steps[k], states[k + 1]);
      }
      NoConnectionIsLost(before, steps[..n]);
      assert Stepped(states[n], steps[n], states[n + 1]);
      StepKeepsInv(states[n], steps[n]);
    }
  }

  /** When every exchange is done and the pool has been reset, every connection is closed. */
  lemma AllClosedAtTheEnd(states: seq<State>, steps: seq<Step>)
    requires Run(states, steps)
    requires states[|steps|].pool == []
    requires forall e | e in states[|steps|].exchanges :: states[|steps|].exchanges[e].Done?
    ensures forall c: nat | c < states[|steps|].dialed :: c in states[|steps|].closed
  {
    NoConnectionIsLost(states, steps);
    var s := states[|steps|];
    forall c: nat | c < s.dialed
      ensures c in s.closed
    {
      assert OnePlace(s, c);
    }
  }

  // ---------- when a connection is closed, and which is reused ----------

  /** Some exchange failed on `c`. */
  ghost predicate FailedOn(states: seq<State>, steps: seq<Step>, c: nat) {
    exists k | 0 <= k < |steps| && k < |states| :: FailsOn(states[k], steps[k], c)
  }

  predicate FailsOn(s: State, step: Step, c: nat) {
    step.AnswerErr? && Enabled(s, step) && s.exchanges[step.e].conn == c
  }

  lemma {:induction false} FewBelow(s: seq<nat>, n: nat)
    requires NoDup(s) && forall x | x in s :: x < n
    ensures |s| <= n
    decreases n
  {
    if s != [] {
      assert s[0] in s && n > 0;
      if i :| 0 <= i < |s| && s[i] == n - 1 {
        var rest := s[..i] + s[i + 1..];
        forall j | 0 <= j < |rest|
          ensures rest[j] < n - 1 && forall k | j < k < |rest| :: rest[j] != rest[k]
        {
          var at := if j < i then j else j + 1;
          assert rest[j] == s[at] && s[at] in s && s[at] != s[i];
          assert forall k | j < k < |rest| :: rest[k] == s[if k < i then k else k + 1];
        }
        FewBelow(rest, n - 1);
      } else {
        FewBelow(s, n - 1);
      }
    }
  }

  lemma ClosedByFailure(s: State, step: Step, c: nat)
    requires Inv(s) && Enabled(s, step) && s.reuse && s.dialed <= MAX_OLD_CONNS && !step.Reset?
    requires c in Apply(s, step).closed && c !in s.closed
    ensures FailsOn(s, step, c)
  {
    if step.GiveBack? {
      var d := s.exchanges[step.e].conn;
      assert HeldBy(s, step.e, d) && Held(s, d) && OnePlace(s, d);
      FewBelow([d] + s.pool, s.dialed);
    }
  }

  /** With reuse, and while no more than eight connections have been dialed and the pool is not reset, only
      connections on which an exchange failed are closed: every other one is still there to be reused. */
  lemma {:induction false} OnlyFailedAreClosed(states: seq<State>, steps: seq<Step>, c: nat)
    requires Run(states, steps) && states[0].reuse && states[|steps|].dialed <= MAX_OLD_CONNS
    requires (forall k | 0 <= k < |steps| :: !steps[k].Reset?) && c in states[|steps|].closed
    ensures FailedOn(states, steps, c) && states[|steps|].reuse
    decreases |steps|
  {
    RunReuses(states, steps);
    var n := |steps| - 1;
    var before := states[..n + 1];
    forall k | 0 <= k < n
      ensures Stepped(before[k], steps[..n][k], before[k + 1])
    {
      assert Stepped(states[k], steps[k], states[k + 1]);
    }
    assert Stepped(states[n], steps[n], states[n + 1]);
    NoConnectionIsLost(before, steps[..n]);
    RunReuses(before, steps[..n]);
    if c in states[n].closed {
      OnlyFailedAreClosed(before, steps[..n], c);
      var k :| 0 <= k < n && FailsOn(before[k], steps[..n][k], c);
      assert FailsOn(states[k], steps[k], c);
    } else {
      ClosedByFailure(states[n], steps[n], c);
    }
  }

  lemma {:induction false} RunReuses(states: seq<State>, steps: seq<Step>)
    requires Run(states, steps)
    ensures states[|steps|].reuse == states[0].reuse && (steps == [] ==> states[|steps|].closed == {})
    decreases |steps|
  {
    if steps != [] {
      var n := |steps| - 1;
      var before := states[..n + 1];
      forall k | 0 <= k < n
        ensures Stepped(before[k], steps[..n][k], before[k + 1])
      {
        assert Stepped(states[k], steps[k], states[k + 1]);
      }
      RunReuses(before, steps[..n]);
      assert Stepped(states[n], steps[n], states[n + 1]);
    }
  }

  /** The connection given back last is the one that is reused. */
  lemma NewestIsReused(states: seq<State>, steps: seq<Step>, i: nat, j: nat, c: nat)
    requires |states| == |steps| + 1 && i < j < |steps| && states[i].reuse
    requires forall k | i <= k <= j :: Stepped(states[k], steps[k], states[k + 1])
    requires steps[i].GiveBack? && HeldBy(states[i], steps[i].e, c) && steps[j].Take?
    requires forall k | i < k < j :: !steps[k].GiveBack? && !steps[k].Take? && !steps[k].Reset?
    ensures At(states[j + 1], steps[j].e, Holding(c, true))
  {
    assert Stepped(states[i], steps[i], states[i + 1]);
    var k := i + 1;
    while k < j
      invariant i < k <= j && states[k].pool == states[i + 1].pool
    {
      assert Stepped(states[k], steps[k], states[k + 1]);
      k := k + 1;
    }
    assert Stepped(states[j], steps[j], states[j + 1]);
  }
}
