/** The version-keyed cache of GetProxies, under any interleaving of callers and provider updates.

    A caller reads the version of each provider, one after the other and without the mutex of the
    group; then it takes the mutex and either returns the cached list or reads the proxies of the
    providers, some of them several times, and stores the result with the versions read before. */
module GroupCache {
  import opened Common
  import opened ProxyOrder
  import opened GroupProxies

  type Tid = nat

  /** `start` holds the versions at the moment the call began; no step depends on it. */
  datatype Thread =
    | Idle
    | Versions(start: seq<nat>, versions: seq<nat>)
    | Computing(start: seq<nat>, versions: seq<nat>, seen: map<(nat, nat), seq<Proxy>>)
    | Returned(start: seq<nat>, result: seq<Proxy>)

  datatype State = State(
    version: seq<nat>,
    content: seq<seq<Proxy>>,
    recorded: seq<nat>,
    cached: seq<Proxy>,
    holder: Option<Tid>,
    threads: map<Tid, Thread>)

  datatype Step =
    | SetProxies(i: nat, ps: seq<Proxy>)
    | Begin(t: Tid)
    | ReadVersion(t: Tid)
    | Hit(t: Tid)
    | Miss(t: Tid)
    | ReadProxies(t: Tid, i: nat, f: nat)
    | Finish(t: Tid, proxies: seq<Proxy>)

  function Of(s: State, t: Tid): Thread {
    if t in s.threads then s.threads[t] else Idle
  }

  /** A list that Compute may return for these reads. */
  ghost predicate MayReturn(c: Config, seen: map<(nat, nat), seq<Proxy>>, proxies: seq<Proxy>) {
    forall content | |content| == |c.compatible| && Agree(c, seen, content) :: proxies == Fresh(c, content)
  }

  ghost predicate Agree(c: Config, seen: map<(nat, nat), seq<Proxy>>, content: seq<seq<Proxy>>)
    requires |content| == |c.compatible|
  {
    forall i: nat, f: nat | Needed(c, i, f) :: (i, f) in seen && seen[(i, f)] == content[i]
  }

  function Answer(c: Config, proxies: seq<Proxy>): seq<Proxy> {
    if proxies == [] then [c.fallback] else proxies
  }

  ghost predicate Enabled(c: Config, s: State, step: Step) {
    match step
    case SetProxies(i, _) => i < |s.version|
    case Begin(t) => Of(s, t).Idle? || Of(s, t).Returned?
    case ReadVersion(t) => Of(s, t).Versions? && |Of(s, t).versions| < |s.version|
    case Hit(t) =>
      Of(s, t).Versions? && |Of(s, t).versions| == |s.version| && s.holder.None? && Of(s, t).versions == s.recorded
    case Miss(t) =>
      Of(s, t).Versions? && |Of(s, t).versions| == |s.version| && s.holder.None? && Of(s, t).versions != s.recorded
    case ReadProxies(t, i, f) => Of(s, t).Computing? && s.holder == Some(t) && Needed(c, i, f) && i < |s.content|
    case Finish(t, proxies) =>
      && Of(s, t).Computing? && s.holder == Some(t)
      && (forall i: nat, f: nat | Needed(c, i, f) :: (i, f) in Of(s, t).seen)
      && MayReturn(c, Of(s, t).seen, proxies)
  }

  ghost function Apply(c: Config, s: State, step: Step): State
    requires |s.version| == |s.content| && Enabled(c, s, step)
  {
    match step
    case SetProxies(i, ps) =>
      s.(content := s.content[i := ps], version := s.version[i := s.version[i] + 1])
    case Begin(t) => s.(threads := s.threads[t := Versions(s.version, [])])
    case ReadVersion(t) =>
      var th := Of(s, t);
      s.(threads := s.threads[t := th.(versions := th.versions + [s.version[|th.versions|]])])
    case Hit(t) => s.(threads := s.threads[t := Returned(Of(s, t).start, s.cached)])
    case Miss(t) =>
      var th := Of(s, t);
      s.(holder := Some(t), threads := s.threads[t := Computing(th.start, th.versions, map[])])
    case ReadProxies(t, i, f) =>
      var th := Of(s, t);
      s.(threads := s.threads[t := th.(seen := th.seen[(i, f) := s.content[i]])])
    case Finish(t, proxies) =>
      var th := Of(s, t);
      var r := s.(holder := None, threads := s.threads[t := Returned(th.start, Answer(c, proxies))]);
      if proxies == [] then r else r.(recorded := th.versions, cached := proxies)
  }

  // ---------- the invariant ----------

  /** a is a prefix's worth of versions that are not newer than b. */
  predicate NotNewer(a: seq<nat>, b: seq<nat>) {
    |a| <= |b| && forall i | 0 <= i < |a| :: a[i] <= b[i]
  }

  ghost predicate ThreadInv(c: Config, s: State, t: Tid)
    requires |s.content| == |c.compatible|
  {
    match Of(s, t)
    case Idle => true
    case Versions(start, vs) =>
      |start| == |s.version| && NotNewer(start, s.version) && NotNewer(vs, s.version)
      && forall i | 0 <= i < |vs| :: start[i] <= vs[i]
    case Computing(start, vs, seen) =>
      && |start| == |s.version| == |vs| == |s.content| && NotNewer(start, vs) && NotNewer(vs, s.version)
      && s.holder == Some(t)
      && forall i: nat, f: nat | (i, f) in seen :: i < |vs| && (vs[i] == s.version[i] ==> seen[(i, f)] == s.content[i])
    case Returned(start, result) =>
      && |start| == |s.version| && NotNewer(start, s.version) && result != []
      && (start == s.version ==> result == Answer(c, Fresh(c, s.content)))
  }

  /** Whenever the recorded versions are the current ones, the cached list is what a computation from
      the current proxies of the providers gives. */
  ghost predicate Coherent(c: Config, s: State)
    requires |s.content| == |c.compatible|
  {
    s.recorded != [] ==>
      && |s.recorded| == |s.version| && NotNewer(s.recorded, s.version) && s.cached != []
      && (s.recorded == s.version ==> s.cached == Fresh(c, s.content))
  }

  ghost predicate Inv(c: Config, s: State) {
    && |s.version| == |s.content| == |c.compatible| > 0
    && Coherent(c, s)
    && forall t :: ThreadInv(c, s, t)
  }

  ghost predicate Init(c: Config, s: State) {
    |s.version| == |s.content| == |c.compatible| && s.recorded == [] && s.cached == []
    && s.holder.None? && s.threads == map[]
  }

  lemma InitInv(c: Config, s: State)
    requires Init(c, s) && |s.version| > 0
    ensures Inv(c, s)
  {
  }

  lemma NotNewerIsEqual(a: seq<nat>, b: seq<nat>, c: seq<nat>)
    requires |a| == |b| == |c| && NotNewer(a, b) && NotNewer(b, c)
    ensures NotNewer(a, c)
    ensures a == c ==> b == c
  {
    if a == c {
      forall i | 0 <= i < |b|
        ensures b[i] == c[i]
      {
        assert a[i] <= b[i] <= c[i];
      }
    }
  }

  /** What a caller that read the current contents for versions that are still current computed. */
  lemma FinishedFresh(c: Config, s: State, t: Tid, proxies: seq<Proxy>)
    requires |s.version| == |s.content| == |c.compatible| && ThreadInv(c, s, t)
    requires Enabled(c, s, Finish(t, proxies))
    ensures Of(s, t).versions == s.version ==> proxies == Fresh(c, s.content)
  {
    if Of(s, t).versions == s.version {
      assert Agree(c, Of(s, t).seen, s.content);
    }
  }

  lemma UpdateKeepsThread(c: Config, s: State, i: nat, ps: seq<Proxy>, t: Tid)
    requires |s.version| == |s.content| == |c.compatible| && i < |s.version| && ThreadInv(c, s, t)
    ensures ThreadInv(c, Apply(c, s, SetProxies(i, ps)), t)
  {
  }

  lemma CallerKeepsThread(c: Config, s: State, step: Step, t: Tid)
    requires Inv(c, s) && Enabled(c, s, step) && !step.SetProxies?
    ensures ThreadInv(c, Apply(c, s, step), t)
  {
    hide Fresh, MayReturn, Agree;
    assert ThreadInv(c, s, t) && ThreadInv(c, s, step.t);
    if step.t == t {
      match step
      case Hit(_) => NotNewerIsEqual(Of(s, t).start, Of(s, t).versions, s.version);
      case Finish(_, proxies) =>
        NotNewerIsEqual(Of(s, t).start, Of(s, t).versions, s.version);
        FinishedFresh(c, s, t, proxies);
      case _ =>
    }
  }

  lemma StepKeepsInv(c: Config, s: State, step: Step)
    requires Inv(c, s) && Enabled(c, s, step)
    ensures Inv(c, Apply(c, s, step))
  {
    var r := Apply(c, s, step);
    match step
    case SetProxies(i, ps) =>
      forall t
        ensures ThreadInv(c, r, t)
      {
        UpdateKeepsThread(c, s, i, ps, t);
      }
    case Finish(t, proxies) =>
      assert ThreadInv(c, s, t);
      FinishedFresh(c, s, t, proxies);
      forall u
        ensures ThreadInv(c, r, u)
      {
        CallerKeepsThread(c, s, step, u);
      }
    case _ =>
      forall u
        ensures ThreadInv(c, r, u)
      {
        CallerKeepsThread(c, s, step, u);
      }
  }

  // ---------- runs ----------

  ghost predicate Run(c: Config, states: seq<State>, steps: seq<Step>) {
    && |states| == |steps| + 1 && Init(c, states[0])
    && forall k | 0 <= k < |steps| :: Stepped(c, states[k], steps[k], states[k + 1])
  }

  ghost predicate Stepped(c: Config, s: State, step: Step, r: State) {
    |s.version| == |s.content| && Enabled(c, s, step) && r == Apply(c, s, step)
  }

  /** In every reachable state the cache is coherent, and a finished call returned what the contents
      give unless some provider was updated since the call began; it never returned an empty list. */
  lemma {:induction false} EveryRunIsCoherent(c: Config, states: seq<State>, steps: seq<Step>)
    requires Run(c, states, steps) && |c.compatible| > 0
    ensures Inv(c, states[|steps|])
    decreases |steps|
  {
    if steps == [] {
      InitInv(c, states[0]);
    } else {
      var n := |steps| - 1;
      var before := states[..n + 1];
      forall k | 0 <= k < n
        ensures Stepped(c, before[k], steps[..n][k], before[k + 1])
      {
        assert Stepped(c, states[k], steps[k], states[k + 1]);
      }
      EveryRunIsCoherent(c, before, steps[..n]);
      assert Stepped(c, states[n], steps[n], states[n + 1]);
      StepKeepsInv(c, states[n], steps[n]);
    }
  }

  lemma CallIsFresh(c: Config, states: seq<State>, steps: seq<Step>, t: Tid)
    requires Run(c, states, steps) && |c.compatible| > 0
    ensures var s := states[|steps|]; |s.content| == |c.compatible| && (Of(s, t).Returned? ==>
      && Of(s, t).result != []
      && (Of(s, t).start == s.version ==>
            Of(s, t).result == if Fresh(c, s.content) == [] then [c.fallback] else Fresh(c, s.content)))
  {
    EveryRunIsCoherent(c, states, steps);
    assert ThreadInv(c, states[|steps|], t);
  }

  /** Without any provider the list of no versions equals the list not recorded yet: the first call
      returns the cached list, which is empty.  With a provider the first call computes. */
  lemma FirstCallHitsIffNoProvider(c: Config, s: State, t: Tid)
    requires Init(c, s)
    ensures var b := Apply(c, s, Begin(t));
      (Enabled(c, b, Hit(t)) <==> |c.compatible| == 0)
      && (|c.compatible| == 0 ==> Of(Apply(c, b, Hit(t)), t).result == [])
  {
  }

  /** The step Finish is what Compute does with the lists it read. */
  method ComputeFrom(c: Config, seen: map<(nat, nat), seq<Proxy>>) returns (proxies: seq<Proxy>)
    requires forall i: nat, f: nat | Needed(c, i, f) :: (i, f) in seen
    ensures MayReturn(c, seen, proxies)
  {
    var read := (i: nat, f: nat) => if (i, f) in seen then seen[(i, f)] else [];
    proxies := Compute(c, read);
    forall content | |content| == |c.compatible| && Agree(c, seen, content)
      ensures proxies == Fresh(c, content)
    {
      SteadyIsUnique(c, read, content);
    }
  }

  lemma SteadyIsUnique(c: Config, read: Reads, content: seq<seq<Proxy>>)
    requires Steady(c, read, content)
    ensures content == FirstReads(c, read)
  {
    forall i | 0 <= i < |content|
      ensures content[i] == FirstReads(c, read)[i]
    {
      assert Needed(c, i, 0);
    }
  }
}
