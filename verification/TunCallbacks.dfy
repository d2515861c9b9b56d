/** The life of the callback object of a TUN device, as a state machine over every interleaving of
    socket callbacks with startTun and stopTun.

    startTun and stopTun run under rTunLock, so at most one of them is past the lock; `ctl` says how
    far it is.  Any number of callbacks may be under way, for any device that was ever created: a
    caller can hold on to markSocket or querySocketUid for as long as it likes. */
module TunCallbacks {
  import opened Common

  const PERMITS := 4

  datatype Phase = Live | Releasing | Released

  /** A remoteTun: the permits of its semaphore that are free, its `closed` field, and what happened
      to the callback object. */
  datatype Tun = Tun(free: int, closed: bool, phase: Phase, releases: nat)

  /** A call of markSocket or querySocketUid. */
  datatype Call =
    | Waiting(tun: nat)   // for a permit
    | Holding(tun: nat)   // has a permit, has not looked at `closed`
    | Using(tun: nat)     // inside mark_socket or query_socket_uid
    | Leaving(tun: nat)   // about to give the permit back
    | Gone(tun: nat)

  /** What follows a close: the rest of startTun, of stopTun, or of a startTun that failed. */
  datatype After = ThenStart | ThenStop | ThenFail

  datatype Ctl =
    | Unlocked
    | CloseWait(tun: nat, after: After)   // waits for all four permits
    | CloseHeld(tun: nat, after: After)   // has them, has not set `closed`
    | CloseSet(tun: nat, after: After)    // closes the device, clears the tunnel context
    | CloseFree(tun: nat, after: After)   // inside release_object
    | CloseEnd(tun: nat, after: After)    // about to give the permits back
    | Starting(tun: nat)                  // inside tun.Start

  datatype State = State(tuns: seq<Tun>, installed: Option<nat>, ctl: Ctl, calls: map<nat, Call>)

  datatype Step =
    | Arrive(c: nat, tun: nat) | Acquire(c: nat) | Look(c: nat) | EndUse(c: nat) | GiveBack(c: nat)
    | Lock(start: bool) | CloseAcquire | SetClosed | BeginRelease | EndRelease | CloseDone
    | StartOk | StartErr

  const FRESH := Tun(PERMITS, false, Live, 0)

  predicate Init(s: State) {
    s.tuns == [] && s.installed.None? && s.ctl.Unlocked? && s.calls == map[]
  }

  predicate Enabled(s: State, step: Step) {
    match step
    case Arrive(c, t) => c !in s.calls && t < |s.tuns|
    case Acquire(c) =>
      c in s.calls && s.calls[c].Waiting? && s.calls[c].tun < |s.tuns| && s.tuns[s.calls[c].tun].free >= 1
    case Look(c) => c in s.calls && s.calls[c].Holding? && s.calls[c].tun < |s.tuns|
    case EndUse(c) => c in s.calls && s.calls[c].Using?
    case GiveBack(c) => c in s.calls && s.calls[c].Leaving? && s.calls[c].tun < |s.tuns|
    case Lock(_) => s.ctl.Unlocked?
    case CloseAcquire => s.ctl.CloseWait? && s.ctl.tun < |s.tuns| && s.tuns[s.ctl.tun].free >= PERMITS
    case SetClosed => s.ctl.CloseHeld? && s.ctl.tun < |s.tuns|
    case BeginRelease => s.ctl.CloseSet? && s.ctl.tun < |s.tuns|
    case EndRelease => s.ctl.CloseFree? && s.ctl.tun < |s.tuns|
    case CloseDone => s.ctl.CloseEnd? && s.ctl.tun < |s.tuns|
    case StartOk => s.ctl.Starting?
    case StartErr => s.ctl.Starting?
  }

  function SetTun(s: State, t: nat, x: Tun): State
    requires t < |s.tuns|
  {
    s.(tuns := s.tuns[t := x])
  }

  /** The rest of startTun after the old device is gone: a new remoteTun. */
  function Create(s: State): State {
    s.(tuns := s.tuns + [FRESH], ctl := Starting(|s.tuns|))
  }

  function Apply(s: State, step: Step): State
    requires Enabled(s, step)
  {
    match step
    case Arrive(c, t) => s.(calls := s.calls[c := Waiting(t)])
    case Acquire(c) =>
      var t := s.calls[c].tun;
      SetTun(s, t, s.tuns[t].(free := s.tuns[t].free - 1)).(calls := s.calls[c := Holding(t)])
    case Look(c) =>
      var t := s.calls[c].tun;
      s.(calls := s.calls[c := if s.tuns[t].closed then Leaving(t) else Using(t)])
    case EndUse(c) => s.(calls := s.calls[c := Leaving(s.calls[c].tun)])
    case GiveBack(c) =>
      var t := s.calls[c].tun;
      SetTun(s, t, s.tuns[t].(free := s.tuns[t].free + 1)).(calls := s.calls[c := Gone(t)])
    case Lock(start) =>
      if s.installed.Some? then
        s.(ctl := CloseWait(s.installed.value, if start then ThenStart else ThenStop))
      else if start then Create(s)
      else s
    case CloseAcquire =>
      var t := s.ctl.tun;
      SetTun(s, t, s.tuns[t].(free := s.tuns[t].free - PERMITS)).(ctl := CloseHeld(t, s.ctl.after))
    case SetClosed =>
      var t := s.ctl.tun;
      SetTun(s, t, s.tuns[t].(closed := true)).(ctl := CloseSet(t, s.ctl.after))
    case BeginRelease =>
      var t := s.ctl.tun;
      SetTun(s, t, s.tuns[t].(phase := Releasing)).(ctl := CloseFree(t, s.ctl.after))
    case EndRelease =>
      var t := s.ctl.tun;
      SetTun(s, t, s.tuns[t].(phase := Released, releases := s.tuns[t].releases + 1))
        .(ctl := CloseEnd(t, s.ctl.after))
    case CloseDone =>
      var t := s.ctl.tun;
      var r := SetTun(s, t, s.tuns[t].(free := s.tuns[t].free + PERMITS));
      (match s.ctl.after
       case ThenStart => Create(r.(installed := None))
       case ThenStop => r.(installed := None, ctl := Unlocked)
       case ThenFail => r.(ctl := Unlocked))
    case StartOk => s.(installed := Some(s.ctl.tun), ctl := Unlocked)
    case StartErr => s.(ctl := CloseWait(s.ctl.tun, ThenFail))
  }

  // ---------- the invariant ----------

  predicate HasPermit(call: Call, t: nat) {
    call.tun == t && (call.Holding? || call.Using? || call.Leaving?)
  }

  ghost function Holders(s: State, t: nat): set<nat> {
    set c | c in s.calls && HasPermit(s.calls[c], t)
  }

  /** The close under way holds all permits of t. */
  predicate CloserHolds(s: State, t: nat) {
    (s.ctl.CloseHeld? || s.ctl.CloseSet? || s.ctl.CloseFree? || s.ctl.CloseEnd?) && s.ctl.tun == t
  }

  /** Every permit of t is free, with a callback, or with the close. */
  ghost predicate PermitsAt(s: State, t: nat)
    requires t < |s.tuns|
  {
    s.tuns[t].free >= 0 && s.tuns[t].free + |Holders(s, t)| + (if CloserHolds(s, t) then PERMITS else 0) == PERMITS
  }

  ghost predicate PermitsInv(s: State) {
    forall t: nat | t < |s.tuns| :: PermitsAt(s, t)
  }

  ghost predicate CallsInv(s: State) {
    forall c | c in s.calls :: s.calls[c].tun < |s.tuns| && (s.calls[c].Using? ==> !s.tuns[s.calls[c].tun].closed)
  }

  predicate InClose(s: State, t: nat) {
    (s.ctl.CloseWait? || CloserHolds(s, t)) && s.ctl.tun == t
  }

  /** How far the close of t is fixes what happened to its callback object; a device that is neither
      installed nor being started nor being closed has been released, once. */
  predicate TunAt(s: State, t: nat)
    requires t < |s.tuns|
  {
    var x := s.tuns[t];
    if InClose(s, t) then
      match s.ctl
      case CloseSet(_, _) => x.closed && x.phase.Live? && x.releases == 0
      case CloseFree(_, _) => x.closed && x.phase.Releasing? && x.releases == 0
      case CloseEnd(_, _) => x.closed && x.phase.Released? && x.releases == 1
      case _ => !x.closed && x.phase.Live? && x.releases == 0
    else if s.installed == Some(t) || (s.ctl.Starting? && s.ctl.tun == t) then
      !x.closed && x.phase.Live? && x.releases == 0
    else x.closed && x.phase.Released? && x.releases == 1
  }

  ghost predicate CtlInv(s: State) {
    && (s.installed.Some? ==> s.installed.value < |s.tuns|)
    && (!s.ctl.Unlocked? ==> s.ctl.tun < |s.tuns|)
    && (s.ctl.Starting? ==> s.installed.None?)
    && (!s.ctl.Unlocked? && !s.ctl.Starting? ==>
          if s.ctl.after.ThenFail? then s.installed.None? else s.installed == Some(s.ctl.tun))
    && forall t: nat | t < |s.tuns| :: TunAt(s, t)
  }

  ghost predicate Inv(s: State) {
    PermitsInv(s) && CallsInv(s) && CtlInv(s)
  }

  lemma InitInv(s: State)
    requires Init(s)
    ensures Inv(s)
  {
  }

  lemma HoldersAfter(s: State, r: State, c: nat, t: nat)
    requires c in r.calls && r.calls == s.calls[c := r.calls[c]]
    ensures Holders(r, t)
         == if HasPermit(r.calls[c], t) then Holders(s, t) + {c} else Holders(s, t) - {c}
  {
  }

  lemma CallKeepsPermits(s: State, step: Step, t: nat)
    requires Inv(s) && Enabled(s, step) && t < |s.tuns|
    requires step.Arrive? || step.Acquire? || step.Look? || step.EndUse? || step.GiveBack?
    ensures PermitsAt(Apply(s, step), t)
  {
    hide CtlInv, CallsInv;
    assert PermitsAt(s, t);
    HoldersAfter(s, Apply(s, step), step.c, t);
    assert step.c in Holders(s, t) <==> step.c in s.calls && HasPermit(s.calls[step.c], t);
  }

  lemma CloseKeepsPermits(s: State, step: Step, t: nat)
    requires Inv(s) && Enabled(s, step) && t < |Apply(s, step).tuns|
    requires !(step.Arrive? || step.Acquire? || step.Look? || step.EndUse? || step.GiveBack?)
    ensures PermitsAt(Apply(s, step), t)
  {
    hide TunAt;
    var r := Apply(s, step);
    assert Holders(r, t) == Holders(s, t);
    if t == |s.tuns| {
      assert forall c | c in s.calls :: s.calls[c].tun < |s.tuns|;
      assert Holders(s, t) == {};
    } else {
      assert PermitsAt(s, t);
    }
  }

  lemma PermitsKept(s: State, step: Step)
    requires Inv(s) && Enabled(s, step)
    ensures PermitsInv(Apply(s, step))
  {
    hide Inv, PermitsAt;
    var r := Apply(s, step);
    forall t: nat | t < |r.tuns|
      ensures PermitsAt(r, t)
    {
      if step.Arrive? || step.Acquire? || step.Look? || step.EndUse? || step.GiveBack? {
        CallKeepsPermits(s, step, t);
      } else {
        CloseKeepsPermits(s, step, t);
      }
    }
  }

  /** While the close holds every permit, no callback holds one. */
  lemma CloserIsAlone(s: State, t: nat, c: nat)
    requires PermitsInv(s) && t < |s.tuns| && CloserHolds(s, t) && c in s.calls
    ensures !HasPermit(s.calls[c], t)
  {
    assert PermitsAt(s, t);
    assert |Holders(s, t)| == 0;
    assert c !in Holders(s, t);
  }

  lemma CallsKept(s: State, step: Step)
    requires Inv(s) && Enabled(s, step)
    ensures CallsInv(Apply(s, step))
  {
    var r := Apply(s, step);
    forall c | c in r.calls
      ensures r.calls[c].tun < |r.tuns| && (r.calls[c].Using? ==> !r.tuns[r.calls[c].tun].closed)
    {
      if step.SetClosed? {
        CloserIsAlone(s, s.ctl.tun, c);
      }
    }
  }

  lemma CtlKept(s: State, step: Step)
    requires Inv(s) && Enabled(s, step)
    ensures CtlInv(Apply(s, step))
  {
    var r := Apply(s, step);
    forall t: nat | t < |r.tuns|
      ensures TunAt(r, t)
    {
      assert t < |s.tuns| ==> TunAt(s, t);
    }
  }

  lemma StepKeepsInv(s: State, step: Step)
    requires Inv(s) && Enabled(s, step)
    ensures Inv(Apply(s, step))
  {
    PermitsKept(s, step);
    CallsKept(s, step);
    CtlKept(s, step);
  }

  // ---------- runs ----------

  predicate Stepped(s: State, step: Step, r: State) {
    Enabled(s, step) && r == Apply(s, step)
  }

  ghost predicate Run(states: seq<State>, steps: seq<Step>) {
    && |states| == |steps| + 1 && Init(states[0])
    && forall k | 0 <= k < |steps| :: Stepped(states[k], steps[k], states[k + 1])
  }

  lemma {:induction false} EveryRunKeepsInv(states: seq<State>, steps: seq<Step>)
    requires Run(states, steps)
    ensures Inv(states[|steps|])
    decreases |steps|
  {
    if steps == [] {
      InitInv(states[0]);
    } else {
      var n := |steps| - 1;
      var before := states[..n + 1];
      forall k | 0 <= k < n
        ensures Stepped(before[k], steps[..n][k], before[k + 1])
      {
        assert Stepped(states[k], steps[k], states[k + 1]);
      }
      EveryRunKeepsInv(before, steps[..n]);
      assert Stepped(states[n], steps[n], states[n + 1]);
      StepKeepsInv(states[n], steps[n]);
    }
  }

  /** A callback in use is that of a device whose callback object has not begun to be released. */
  ghost predicate UsesAreLive(s: State) {
    forall c | c in s.calls && s.calls[c].Using? ::
      s.calls[c].tun < |s.tuns| && s.tuns[s.calls[c].tun].phase.Live? && s.tuns[s.calls[c].tun].releases == 0
  }

  /** The callback object of t was released n times. */
  predicate ReleasedTimes(s: State, t: nat, n: nat) {
    t < |s.tuns| && s.tuns[t].releases == n && (s.tuns[t].phase.Released? <==> n > 0)
  }

  lemma LiveUses(s: State)
    requires Inv(s)
    ensures UsesAreLive(s)
  {
    forall c | c in s.calls && s.calls[c].Using?
      ensures s.calls[c].tun < |s.tuns| && s.tuns[s.calls[c].tun].phase.Live?
      ensures s.tuns[s.calls[c].tun].releases == 0
    {
      assert TunAt(s, s.calls[c].tun);
    }
  }

  lemma ReleasedOnce(s: State, t: nat)
    requires Inv(s) && t < |s.tuns|
    ensures ReleasedTimes(s, t, 0) || ReleasedTimes(s, t, 1)
    ensures s.ctl.Unlocked? ==> ReleasedTimes(s, t, if s.installed == Some(t) then 0 else 1)
    ensures ReleasedTimes(s, t, 0) ==> s.installed == Some(t) || (!s.ctl.Unlocked? && s.ctl.tun == t)
  {
    assert TunAt(s, t);
  }

  /** A callback object is never used while it is being released or afterwards, and never released
      twice; at most one device is unreleased at a time; and whenever no startTun or stopTun is under
      way, every device that is not the installed one has been released exactly once. */
  lemma CallbackLifetime(states: seq<State>, steps: seq<Step>)
    requires Run(states, steps)
    ensures var s := states[|steps|];
      && UsesAreLive(s)
      && (forall t: nat | t < |s.tuns| :: ReleasedTimes(s, t, 0) || ReleasedTimes(s, t, 1))
      && (forall t: nat, u: nat | ReleasedTimes(s, t, 0) && ReleasedTimes(s, u, 0) :: t == u)
      && (s.ctl.Unlocked? ==>
            forall t: nat | t < |s.tuns| :: ReleasedTimes(s, t, if s.installed == Some(t) then 0 else 1))
  {
    EveryRunKeepsInv(states, steps);
    var s := states[|steps|];
    LiveUses(s);
    forall t: nat | t < |s.tuns|
      ensures ReleasedTimes(s, t, 0) || ReleasedTimes(s, t, 1)
      ensures s.ctl.Unlocked? ==> ReleasedTimes(s, t, if s.installed == Some(t) then 0 else 1)
      ensures ReleasedTimes(s, t, 0) ==> s.installed == Some(t) || (!s.ctl.Unlocked? && s.ctl.tun == t)
    {
      ReleasedOnce(s, t);
    }
  }

  // ---------- what a call brings about ----------

  /** A callback that gets its permit is let through exactly while its device is installed or being started or
      a close of it still waits. */
  lemma LookLetsThrough(s: State, c: nat)
    requires Inv(s) && Enabled(s, Look(c))
    ensures var t := s.calls[c].tun;
      Apply(s, Look(c)).calls[c].Using? <==>
        s.installed == Some(t) || ((s.ctl.Starting? || s.ctl.CloseWait?) && s.ctl.tun == t)
  {
    var t := s.calls[c].tun;
    assert TunAt(s, t);
    if CloserHolds(s, t) {
      CloserIsAlone(s, t, c);
    }
  }

  /** The steps from state i to state j of a run belong to one call of startTun or stopTun, which has the lock
      from its first step on and gives it up with the last. */
  ghost predicate OneCall(states: seq<State>, steps: seq<Step>, start: bool, i: nat, j: nat) {
    && |states| == |steps| + 1 && i < j <= |steps|
    && (forall k | i <= k < j :: Stepped(states[k], steps[k], states[k + 1]))
    && Inv(states[i]) && steps[i] == Lock(start)
    && (forall k | i < k < j :: !states[k].ctl.Unlocked?) && states[j].ctl.Unlocked?
  }

  /** How far a call that began with n devices is. */
  predicate InCall(s: State, start: bool, n: nat) {
    match s.ctl
    case Unlocked => false
    case Starting(t) => start && t == n && |s.tuns| == n + 1 && s.installed.None?
    case _ =>
      if start && s.ctl.after.ThenFail? then s.ctl.tun == n && |s.tuns| == n + 1 && s.installed.None?
      else |s.tuns| == n && s.ctl.after == if start then ThenStart else ThenStop
  }

  /** How a call that began with n devices ends: a start leaves its new device installed, or nothing when
      it failed; a stop leaves nothing. */
  predicate CallEnded(s: State, start: bool, n: nat, last: Step) {
    s.ctl.Unlocked? && |s.tuns| == (if start then n + 1 else n)
    && s.installed == if start && last.StartOk? then Some(n) else None
  }

  lemma CallGoesOn(s: State, start: bool, n: nat, step: Step)
    requires Inv(s) && InCall(s, start, n) && Enabled(s, step)
    ensures InCall(Apply(s, step), start, n) || CallEnded(Apply(s, step), start, n, step)
  {
    hide PermitsInv, CallsInv, TunAt;
  }

  lemma CallBegins(s: State, start: bool)
    requires Inv(s) && Enabled(s, Lock(start))
    ensures var r, n := Apply(s, Lock(start)), |s.tuns|; InCall(r, start, n) || CallEnded(r, start, n, Lock(start))
  {
    hide PermitsInv, CallsInv, TunAt;
  }

  lemma {:induction false} CallGoesOnTo(
      states: seq<State>, steps: seq<Step>, start: bool, i: nat, j: nat, k: nat)
    requires OneCall(states, steps, start, i, j) && i < k <= j
    ensures Inv(states[k])
    ensures if k < j then InCall(states[k], start, |states[i].tuns|)
            else CallEnded(states[k], start, |states[i].tuns|, steps[k - 1])
    decreases k
  {
    hide Inv, Enabled, Apply, InCall, CallEnded;
    assert Stepped(states[k - 1], steps[k - 1], states[k - 1 + 1]);
    if k - 1 == i {
      CallBegins(states[i], start);
    } else {
      CallGoesOnTo(states, steps, start, i, j, k - 1);
      CallGoesOn(states[k - 1], start, |states[i].tuns|, steps[k - 1]);
    }
    StepKeepsInv(states[k - 1], steps[k - 1]);
    CallIsOnOrOff(states[k], start, |states[i].tuns|, steps[k - 1]);
  }

  lemma CallIsOnOrOff(s: State, start: bool, n: nat, last: Step)
    ensures InCall(s, start, n) ==> !s.ctl.Unlocked?
    ensures CallEnded(s, start, n, last) ==> s.ctl.Unlocked?
  {
  }

  /** Whatever the callbacks do in the meantime: a startTun creates one device and leaves it installed if its
      start succeeded, and nothing otherwise; a stopTun creates none and leaves nothing installed. */
  lemma CallEnds(states: seq<State>, steps: seq<Step>, start: bool, i: nat, j: nat)
    requires OneCall(states, steps, start, i, j)
    ensures var n := |states[i].tuns|;
      if start then |states[j].tuns| == n + 1 && states[j].installed == if steps[j - 1].StartOk? then Some(n) else None
      else |states[j].tuns| == n && states[j].installed == None
  {
    CallGoesOnTo(states, steps, start, i, j, j);
  }

  // ---------- a close that waits gets its permits ----------

  /** A callback that holds a permit of t goes on. */
  predicate HolderStep(s: State, step: Step, t: nat) {
    (step.Look? || step.EndUse? || step.GiveBack?) && Enabled(s, step) && HasPermit(s.calls[step.c], t)
  }

  ghost function InSection(s: State, t: nat): set<nat> {
    set c | c in s.calls && s.calls[c].tun == t && (s.calls[c].Holding? || s.calls[c].Using?)
  }

  ghost function BeforeLook(s: State, t: nat): set<nat> {
    set c | c in s.calls && s.calls[c].tun == t && s.calls[c].Holding?
  }

  /** How many steps the callbacks that hold a permit of t still take: three to a permit at most. */
  ghost function StepsLeft(s: State, t: nat): nat {
    |Holders(s, t)| + |InSection(s, t)| + |BeforeLook(s, t)|
  }

  lemma AtMostThreeEach(s: State, t: nat)
    requires Inv(s) && t < |s.tuns|
    ensures StepsLeft(s, t) <= 3 * PERMITS
  {
    assert PermitsAt(s, t);
    Fewer(InSection(s, t), Holders(s, t));
    Fewer(BeforeLook(s, t), Holders(s, t));
  }

  lemma {:induction false} Fewer(a: set<nat>, b: set<nat>)
    requires a <= b
    ensures |a| <= |b|
  {
    if a != {} {
      var x :| x in a;
      Fewer(a - {x}, b - {x});
    }
  }

  lemma SectionsAfter(s: State, r: State, c: nat, t: nat)
    requires c in s.calls && c in r.calls && r.calls == s.calls[c := r.calls[c]]
    requires s.calls[c].tun == r.calls[c].tun == t
    ensures InSection(r, t)
         == if r.calls[c].Holding? || r.calls[c].Using? then InSection(s, t) + {c} else InSection(s, t) - {c}
    ensures BeforeLook(r, t) == if r.calls[c].Holding? then BeforeLook(s, t) + {c} else BeforeLook(s, t) - {c}
    ensures c in InSection(s, t) <==> s.calls[c].Holding? || s.calls[c].Using?
    ensures c in BeforeLook(s, t) <==> s.calls[c].Holding?
    ensures c in Holders(s, t) <==> HasPermit(s.calls[c], t)
  {
  }

  lemma HolderStepMoves(s: State, step: Step, t: nat)
    requires HolderStep(s, step, t)
    ensures var r := Apply(s, step);
      && step.c in s.calls && step.c in r.calls && r.calls == s.calls[step.c := r.calls[step.c]]
      && s.calls[step.c].tun == r.calls[step.c].tun == t && r.ctl == s.ctl && |r.tuns| == |s.tuns|
      && (step.Look? ==> s.calls[step.c].Holding? && (r.calls[step.c].Using? || r.calls[step.c].Leaving?))
      && (step.EndUse? ==> s.calls[step.c].Using? && r.calls[step.c].Leaving?)
      && (step.GiveBack? ==> s.calls[step.c].Leaving? && r.calls[step.c].Gone?)
  {
  }

  lemma HolderStepCounts(s: State, step: Step, t: nat)
    requires HolderStep(s, step, t)
    ensures StepsLeft(Apply(s, step), t) < StepsLeft(s, t) && Apply(s, step).ctl == s.ctl
    ensures |Apply(s, step).tuns| == |s.tuns|
  {
    hide Apply, Enabled, Holders, InSection, BeforeLook;
    HolderStepMoves(s, step, t);
    SectionsAfter(s, Apply(s, step), step.c, t);
    HoldersAfter(s, Apply(s, step), step.c, t);
  }

  /** A close waits only while some callback holds a permit, and that callback can go on. */
  lemma SomeHolderStep(s: State) returns (step: Step)
    requires Inv(s) && s.ctl.CloseWait? && !Enabled(s, CloseAcquire)
    ensures HolderStep(s, step, s.ctl.tun)
  {
    var t := s.ctl.tun;
    assert PermitsAt(s, t);
    assert |Holders(s, t)| > 0;
    var c :| c in Holders(s, t);
    step := if s.calls[c].Holding? then Look(c) else if s.calls[c].Using? then EndUse(c) else GiveBack(c);
  }

  /** Callbacks that hold a permit of t go on, one after the other. */
  ghost predicate HoldersRun(states: seq<State>, steps: seq<Step>, t: nat) {
    && |states| == |steps| + 1
    && forall k | 0 <= k < |steps| :: HolderStep(states[k], steps[k], t) && Stepped(states[k], steps[k], states[k + 1])
  }

  /** Whatever they do, they take at most three steps to a permit; and when none of them can go on, the
      close has its permits. */
  lemma {:induction false} HoldersFinish(states: seq<State>, steps: seq<Step>)
    requires |states| > 0 && Inv(states[0]) && states[0].ctl.CloseWait? && HoldersRun(states, steps, states[0].ctl.tun)
    ensures var t, end := states[0].ctl.tun, states[|steps|];
      && Inv(end) && end.ctl == states[0].ctl && |steps| + StepsLeft(end, t) <= StepsLeft(states[0], t) <= 3 * PERMITS
      && (Enabled(end, CloseAcquire) || exists step :: HolderStep(end, step, t))
    decreases |steps|
  {
    hide Inv, Enabled, Apply, StepsLeft, HolderStep;
    var t := states[0].ctl.tun;
    if steps == [] {
      WaitingTun(states[0]);
      AtMostThreeEach(states[0], t);
    } else {
      var n := |steps| - 1;
      var before := states[..n + 1];
      forall k | 0 <= k < n
        ensures HolderStep(before[k], steps[..n][k], t) && Stepped(before[k], steps[..n][k], before[k + 1])
      {
        assert HolderStep(states[k], steps[k], t) && Stepped(states[k], steps[k], states[k + 1]);
      }
      HoldersFinish(before, steps[..n]);
      assert HolderStep(states[n], steps[n], t) && Stepped(states[n], steps[n], states[n + 1]);
      StepKeepsInv(states[n], steps[n]);
      HolderStepCounts(states[n], steps[n], t);
    }
    if !Enabled(states[|steps|], CloseAcquire) {
      var step := SomeHolderStep(states[|steps|]);
    }
  }

  lemma WaitingTun(s: State)
    requires Inv(s) && s.ctl.CloseWait?
    ensures s.ctl.tun < |s.tuns|
  {
  }

  /** So a close that waits can always get them, without a step of anyone else. */
  lemma {:induction false} CloseGetsPermits(s: State) returns (states: seq<State>, steps: seq<Step>)
    requires Inv(s) && s.ctl.CloseWait?
    ensures HoldersRun(states, steps, s.ctl.tun) && states[0] == s && Enabled(states[|steps|], CloseAcquire)
    decreases StepsLeft(s, s.ctl.tun)
  {
    hide Inv, StepsLeft, HolderStep;
    if Enabled(s, CloseAcquire) {
      states, steps := [s], [];
    } else {
      var step := SomeHolderStep(s);
      HolderEnabled(s, step);
      var r := Apply(s, step);
      StepKeepsInv(s, step);
      HolderStepCounts(s, step, s.ctl.tun);
      var rest, more := CloseGetsPermits(r);
      states, steps := [s] + rest, [step] + more;
      assert Stepped(s, step, r);
    }
  }

  lemma HolderEnabled(s: State, step: Step)
    requires s.ctl.CloseWait? && HolderStep(s, step, s.ctl.tun)
    ensures Enabled(s, step)
  {
  }

  /** And with them it goes through, and has released the callback object exactly once. */
  lemma CloseGoesThrough(s: State)
    requires Inv(s) && Enabled(s, CloseAcquire)
    ensures var a := Apply(s, CloseAcquire);
      && Enabled(a, SetClosed)
      && var b := Apply(a, SetClosed);
      && Enabled(b, BeginRelease)
      && var c := Apply(b, BeginRelease);
      && Enabled(c, EndRelease)
      && var d := Apply(c, EndRelease);
      && Enabled(d, CloseDone)
      && var e := Apply(d, CloseDone);
      && ReleasedTimes(e, s.ctl.tun, 1) && e.installed.None? && !InClose(e, s.ctl.tun)
  {
    assert TunAt(s, s.ctl.tun);
  }
}
