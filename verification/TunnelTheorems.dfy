/** What the tunnel session guarantees in every interleaving. */
module TunnelTheorems {
  import opened Common
  import opened GoStrings
  import opened TunnelSession
  import opened TunnelInvariant

  // ---- schedules ----

  lemma {:induction false} RunAppend(cfg: Config, s: State, actions: seq<Action>, a: Action)
    requires RunFrom(cfg, s, actions).Some? && Enabled(RunFrom(cfg, s, actions).value, a)
    ensures RunFrom(cfg, s, actions + [a]) == Some(Apply(cfg, RunFrom(cfg, s, actions).value, a))
    decreases |actions|
  {
    var longer := actions + [a];
    if actions == [] {
      assert longer[1..] == [];
    } else {
      assert longer[0] == actions[0] && longer[1..] == actions[1..] + [a];
      RunAppend(cfg, Apply(cfg, s, actions[0]), actions[1..], a);
    }
  }

  lemma {:induction false} ReachRun(cfg: Config, s: State, actions: seq<Action>)
    requires Reachable(cfg, s) && RunFrom(cfg, s, actions).Some?
    ensures Reachable(cfg, RunFrom(cfg, s, actions).value)
    decreases |actions|
  {
    if actions != [] {
      var before :| RunFrom(cfg, Init(), before) == Some(s);
      RunAppend(cfg, Init(), before, actions[0]);
      ReachRun(cfg, Apply(cfg, s, actions[0]), actions[1..]);
    }
  }

  // ---- safety ----

  /** At most one forwarder is inside runTunnelForward, or on its way in. */
  lemma AtMostOneForwarding(cfg: Config, s: State, i: nat, j: nat)
    requires Reachable(cfg, s) && i < |s.workers| && j < |s.workers|
    requires s.workers[i].pc.Starting? || s.workers[i].pc.Forwarding?
    requires s.workers[j].pc.Starting? || s.workers[j].pc.Forwarding?
    ensures i == j
  {
    ReachableInv(cfg, s);
    assert !Dormant(s.workers[i]) && !Dormant(s.workers[j]);
  }

  /** No forwarder step removes another forwarder's cancel function or key: a step that changes
      `tunCancel` removes its own entry, and one that empties `fwdKey` does so with `tunCancel` already
      nil and while holding the lock. */
  lemma CleanupSparesOtherSessions(cfg: Config, s: State, i: nat)
    requires Reachable(cfg, s) && WorkerEnabled(s, i)
    ensures var t := WorkerStep(s, i);
      && (t.tunCancel != s.tunCancel ==> s.tunCancel == Some(i) && t.tunCancel == None)
      && (t.fwdKey != s.fwdKey ==> s.tunCancel == None && t.fwdKey == "")
      && (t.tunCancel != s.tunCancel || t.fwdKey != s.fwdKey ==> s.mutex == ByWorker(i))
  {
    ReachableInv(cfg, s);
    if i < |s.workers| - 1 { assert Dormant(s.workers[i]); }
  }

  /** Whenever the lock is free, `fwdKey` is empty exactly when `tunCancel` is nil. */
  lemma UnlockedFieldsAgree(cfg: Config, s: State)
    requires Reachable(cfg, s) && s.mutex.Free?
    ensures s.fwdKey == "" <==> s.tunCancel == None
  {
    ReachableInv(cfg, s);
    if |s.workers| > 0 { assert !Holding(s.workers[|s.workers| - 1]); }
  }

  /** Every unlock is made by the thread that holds the lock. */
  lemma OnlyTheHolderUnlocks(cfg: Config, s: State, a: Action)
    requires Reachable(cfg, s) && Enabled(s, a)
    requires !s.mutex.Free? && Apply(cfg, s, a).mutex.Free?
    ensures match a
      case Controls(_) => s.mutex == ByController
      case Works(i) => s.mutex == ByWorker(i)
  {
    ReachableInv(cfg, s);
  }

  /** After stopTunnelDataPlane returns, and until the next call, no forwarder is running and no session is
      stored. */
  lemma StopQuiesces(cfg: Config, s: State)
    requires Reachable(cfg, s) && s.ctl == Idle(Stopped)
    ensures forall i | 0 <= i < |s.workers| :: s.workers[i].pc.Finishing? || s.workers[i].pc.Finished?
    ensures s.tunCancel == None && s.fwdKey == ""
  {
    ReachableInv(cfg, s);
    assert forall i | 0 <= i < |s.workers| :: Dormant(s.workers[i]);
  }

  /** The WaitGroup counter never goes negative, which would panic. */
  lemma DoneNeverPanics(cfg: Config, s: State, a: Action)
    requires Reachable(cfg, s) && Enabled(s, a)
    ensures Apply(cfg, s, a).waiting >= 0
  {
    ReachableInv(cfg, s);
    StepKeepsInv(cfg, s, a);
  }

  // ---- waiting ----

  function Rank(pc: WorkerPc): nat {
    match pc
    case Starting => 8 case Forwarding => 7 case Returned => 6 case WantLock => 5 case Clearing => 4
    case ClearingKey => 3 case Unlocking => 2 case Finishing => 1 case Finished => 0
  }

  /** How many steps all forwarders can still take. */
  function Remaining(ws: seq<Worker>): nat {
    if ws == [] then 0 else Remaining(ws[..|ws| - 1]) + Rank(ws[|ws| - 1].pc)
  }

  lemma {:induction false} RemainingUpdate(ws: seq<Worker>, i: nat, w: Worker)
    requires i < |ws|
    ensures Remaining(ws[i := w]) + Rank(ws[i].pc) == Remaining(ws) + Rank(w.pc)
  {
    var n := |ws| - 1;
    if i < n {
      assert ws[i := w][..n] == ws[..n][i := w];
      RemainingUpdate(ws[..n], i, w);
    } else {
      assert ws[i := w][..n] == ws[..n];
    }
  }

  /** In `tunWG.Wait` the controller does not hold the lock, every forwarder that has not yet returned
      has been cancelled, and some thread can always move: the controller if the counter is zero, a
      forwarder otherwise. */
  lemma WaitIsNeverStuck(cfg: Config, s: State)
    requires Reachable(cfg, s) && Waits(s.ctl)
    ensures !s.mutex.ByController?
    ensures forall i | 0 <= i < |s.workers| ::
      s.workers[i].pc.Starting? || s.workers[i].pc.Forwarding? ==> s.workers[i].cancelled
    ensures ControllerEnabled(s) || exists i :: WorkerEnabled(s, i)
  {
    ReachableInv(cfg, s);
    forall i | 0 <= i < |s.workers| && (s.workers[i].pc.Starting? || s.workers[i].pc.Forwarding?)
      ensures s.workers[i].cancelled
    {
      assert !Dormant(s.workers[i]);
    }
    if !ControllerEnabled(s) {
      RunningPositive(s.workers);
      var i :| 0 <= i < |s.workers| && !s.workers[i].pc.Finished?;
      if s.mutex.ByWorker? {
        assert WorkerEnabled(s, s.mutex.id);
      } else {
        assert WorkerEnabled(s, i);
      }
    }
  }

  lemma WorkerStepUsesOne(s: State, i: nat)
    requires WorkerEnabled(s, i)
    ensures Remaining(WorkerStep(s, i).workers) < Remaining(s.workers)
    ensures WorkerStep(s, i).ctl == s.ctl
  {
    RemainingUpdate(s.workers, i, WorkerStep(s, i).workers[i]);
  }

  /** Each forwarder step uses up at least one remaining step, so a wait lasts at most
      `Remaining(s.workers)` forwarder steps however they are scheduled. */
  lemma {:induction false} WaitIsBounded(cfg: Config, s: State, actions: seq<Action>)
    requires forall k | 0 <= k < |actions| :: actions[k].Works?
    requires RunFrom(cfg, s, actions).Some?
    ensures |actions| + Remaining(RunFrom(cfg, s, actions).value.workers) <= Remaining(s.workers)
    ensures RunFrom(cfg, s, actions).value.ctl == s.ctl
    decreases |actions|
  {
    if actions != [] {
      WorkerStepUsesOne(s, actions[0].id);
      WaitIsBounded(cfg, WorkerStep(s, actions[0].id), actions[1..]);
    }
  }

  /** Once a call has raised the epoch, a forwarder that it takes down and that returns only then does not go for the
      lock at all: it skips its cleanup. */
  lemma StaleForwarderSkipsCleanup(cfg: Config, s: State, i: nat)
    requires Reachable(cfg, s) && WorkerEnabled(s, i) && s.workers[i].pc.Returned?
    requires s.ctl.StopCancel? || s.ctl.ReplaceCancel? || Waits(s.ctl)
    ensures WorkerStep(s, i).workers[i].pc.Finishing?
  {
    ReachableInv(cfg, s);
    assert !Dormant(s.workers[i]) && i == |s.workers| - 1;
  }

  /** In every reachable state some thread can move. */
  lemma NeverStuck(cfg: Config, s: State)
    requires Reachable(cfg, s)
    ensures ControllerEnabled(s) || exists i :: WorkerEnabled(s, i)
  {
    ReachableInv(cfg, s);
    if Waits(s.ctl) {
      WaitIsNeverStuck(cfg, s);
    } else if !ControllerEnabled(s) {
      assert Holding(s.workers[s.mutex.id]);
      assert WorkerEnabled(s, s.mutex.id);
    }
  }

  /** An upper bound on the controller steps left in a call; zero between calls. */
  function CallRank(c: Controller): nat {
    match c
    case Idle(_) => 0
    case StopLock => 7 case StopTake => 6 case StopClearKey(_) => 5 case StopBump(_) => 4
    case StopUnlock(_) => 3 case StopCancel(_) => 2 case StopWait => 1
    case RestartLock(_) => 15 case RestartTest(_) => 14 case KeepUnlock(_) => 1
    case ReplaceBump(_) => 13 case ReplaceTake(_) => 12 case ReplaceClearKey(_, _) => 11 case ReplaceUnlock(_, _) => 10
    case ReplaceCancel(_, _) => 9 case ReplaceWait(_) => 8 case Relock(_) => 7
    case SpawnStore(_) => 6 case SpawnKey(_) => 5 case SpawnBump(_) => 4
    case SpawnAdd(_, _) => 3 case SpawnUnlock(_, _) => 2 case SpawnGo(_, _) => 1
  }

  lemma CancelKeepsRemaining(ws: seq<Worker>, i: nat)
    ensures Remaining(Cancelled(ws, i)) == Remaining(ws)
  {
    if i < |ws| { RemainingUpdate(ws, i, ws[i].(cancelled := true)); }
  }

  /** One step closer to the end of the call, or the call has ended. */
  predicate CloserToReturn(s: State, t: State) {
    t.ctl.Idle? || (CallRank(t.ctl) < CallRank(s.ctl) && Remaining(t.workers) == Remaining(s.workers))
  }

  lemma StopStepUsesOne(s: State)
    requires InStop(s.ctl)
    ensures CloserToReturn(s, StopStep(s))
  {
    if s.ctl.StopCancel? { CancelKeepsRemaining(s.workers, s.ctl.victim); }
  }

  lemma RestartStepUsesOne(s: State)
    requires !s.ctl.Idle? && !InStop(s.ctl) && !InSpawn(s.ctl)
    ensures CloserToReturn(s, RestartStep(s))
  {
    if s.ctl.ReplaceCancel? { CancelKeepsRemaining(s.workers, s.ctl.victim); }
  }

  lemma SpawnStepUsesOne(s: State)
    requires InSpawn(s.ctl)
    ensures CloserToReturn(s, SpawnStep(s))
  {
  }

  lemma ControllerStepUsesOne(cfg: Config, s: State, poll: Poll)
    requires ControllerEnabled(s) && !s.ctl.Idle?
    ensures CloserToReturn(s, ControllerStep(cfg, s, poll))
  {
    if InStop(s.ctl) {
      StopStepUsesOne(s);
    } else if InSpawn(s.ctl) {
      SpawnStepUsesOne(s);
    } else {
      RestartStepUsesOne(s);
    }
  }

  /** The schedule stays inside the call under way; only its last step may end it. */
  ghost predicate InsideCall(cfg: Config, s: State, actions: seq<Action>)
    decreases |actions|
  {
    !s.ctl.Idle? &&
    (actions == [] || (Enabled(s, actions[0]) && (|actions| == 1 || InsideCall(cfg, Apply(cfg, s, actions[0]), actions[1..]))))
  }

  /** Every call returns: a schedule inside one call, of the controller and of all forwarders, is never longer than
      the controller's and the forwarders' steps left, and by NeverStuck it can always go on until the call ends. */
  lemma {:induction false} CallIsBounded(cfg: Config, s: State, actions: seq<Action>)
    requires InsideCall(cfg, s, actions)
    ensures |actions| <= CallRank(s.ctl) + Remaining(s.workers)
    decreases |actions|
  {
    if |actions| > 1 {
      var t := Apply(cfg, s, actions[0]);
      CallIsBounded(cfg, t, actions[1..]);
      match actions[0]
      case Works(i) => WorkerStepUsesOne(s, i);
      case Controls(poll) => ControllerStepUsesOne(cfg, s, poll);
    }
  }

  // ---- restarts ----

  /** The test under the lock keeps the session exactly when a live forwarder was started for the same key,
      and starts a new one straight away exactly when no forwarder is live. */
  lemma RestartDecision(cfg: Config, s: State, key: string)
    requires Reachable(cfg, s) && s.ctl == RestartTest(key)
    ensures AfterTest(s, key).KeepUnlock? <==>
      exists i | 0 <= i < |s.workers| :: Live(s.workers[i]) && s.workers[i].key == key
    ensures AfterTest(s, key).SpawnStore? <==> forall i | 0 <= i < |s.workers| :: !Live(s.workers[i])
  {
    ReachableInv(cfg, s);
    if HasLive(s) { assert Live(s.workers[|s.workers| - 1]); }
  }

  /** Whatever call was made last, a forwarder that is still live when it has returned was started for the key
      that the call asked for. */
  lemma LiveForwarderServesLastCall(cfg: Config, s: State, i: nat)
    requires Reachable(cfg, s) && s.ctl.Idle? && i < |s.workers| && Live(s.workers[i])
    ensures (s.ctl.last.Kept? || s.ctl.last.Started?) && s.workers[i].key == s.ctl.last.key
  {
    ReachableInv(cfg, s);
    assert i == |s.workers| - 1;
  }

  lemma RunThree(cfg: Config, s: State, t: State, u: State, v: State, a: Action, rest: seq<Action>)
    requires Enabled(s, a) && Apply(cfg, s, a) == t
    requires Enabled(t, a) && Apply(cfg, t, a) == u
    requires Enabled(u, a) && Apply(cfg, u, a) == v
    ensures RunFrom(cfg, s, [a, a, a] + rest) == RunFrom(cfg, v, rest)
  {
    assert ([a, a, a] + rest)[1..] == [a, a] + rest;
    assert ([a, a] + rest)[1..] == [a] + rest;
    assert ([a] + rest)[1..] == rest;
    assert RunFrom(cfg, u, [a] + rest) == RunFrom(cfg, v, rest);
    assert RunFrom(cfg, t, [a, a] + rest) == RunFrom(cfg, u, [a] + rest);
  }

  /** The nine controller steps of a call that starts a forwarder. */
  function StartCall(poll: Poll): seq<Action> {
    var go := Controls(poll);
    [go, go, go] + ([go, go, go] + ([go, go, go] + []))
  }

  function AfterStart(s: State, key: string): State {
    State(Free, Some(|s.workers|), key, Increment(s.epoch), s.waiting + 1, Idle(Started(key)),
          s.workers + [Worker(Increment(s.epoch), key, false, Starting)])
  }

  lemma StoreRuns(cfg: Config, s: State, key: string, go: Action, rest: seq<Action>)
    requires s.ctl == SpawnStore(key) && go.Controls?
    ensures var e := Increment(s.epoch);
      RunFrom(cfg, s, [go, go, go] + rest)
      == RunFrom(cfg, s.(tunCancel := Some(|s.workers|), fwdKey := key, epoch := e, ctl := SpawnAdd(key, e)), rest)
  {
    var e := Increment(s.epoch);
    var stored := s.(tunCancel := Some(|s.workers|));
    var keyed := stored.(fwdKey := key);
    RunThree(cfg, s, stored.(ctl := SpawnKey(key)), keyed.(ctl := SpawnBump(key)),
             keyed.(epoch := e, ctl := SpawnAdd(key, e)), go, rest);
  }

  lemma GoRuns(cfg: Config, s: State, key: string, e: Word64, go: Action)
    requires s.ctl == SpawnAdd(key, e) && go.Controls?
    ensures RunFrom(cfg, s, [go, go, go] + [])
      == Some(s.(mutex := Free, waiting := s.waiting + 1, ctl := Idle(Started(key)),
                 workers := s.workers + [Worker(e, key, false, Starting)]))
  {
    var added := s.(waiting := s.waiting + 1);
    RunThree(cfg, s, added.(ctl := SpawnUnlock(key, e)), added.(mutex := Free, ctl := SpawnGo(key, e)),
             added.(mutex := Free, ctl := Idle(Started(key)), workers := s.workers + [Worker(e, key, false, Starting)]),
             go, []);
  }

  lemma StartCallRuns(cfg: Config, s: State, poll: Poll)
    requires s.ctl.Idle? && s.mutex.Free? && s.tunCancel == None && CallFor(cfg, poll).Restart?
    ensures RunFrom(cfg, s, StartCall(poll)) == Some(AfterStart(s, CallFor(cfg, poll).key))
  {
    var key, go, e := CallFor(cfg, poll).key, Controls(poll), Increment(s.epoch);
    var held := s.(mutex := ByController);
    var s3 := held.(ctl := SpawnStore(key));
    RunThree(cfg, s, s.(ctl := RestartLock(key)), held.(ctl := RestartTest(key)), s3, go,
             [go, go, go] + ([go, go, go] + []));
    StoreRuns(cfg, s3, key, go, [go, go, go] + []);
    GoRuns(cfg, s3.(tunCancel := Some(|s.workers|), fwdKey := key, epoch := e, ctl := SpawnAdd(key, e)), key, e, go);
  }

  /** A restart call for `key` is under way and no forwarder is live. */
  ghost predicate Launching(s: State, key: string) {
    Inv(s) && AllDormant(s.workers) && CallSteps(s.ctl, key) > 0
  }

  /** Controller steps that such a call still has to make; zero for any other position. */
  function CallSteps(c: Controller, key: string): nat {
    match c
    case RestartLock(k) => if k == key then 8 else 0
    case RestartTest(k) => if k == key then 7 else 0
    case SpawnStore(k) => if k == key then 6 else 0
    case SpawnKey(k) => if k == key then 5 else 0
    case SpawnBump(k) => if k == key then 4 else 0
    case SpawnAdd(k, _) => if k == key then 3 else 0
    case SpawnUnlock(k, _) => if k == key then 2 else 0
    case SpawnGo(k, _) => if k == key then 1 else 0
    case _ => 0
  }

  /** The call has returned and left a new live forwarder, started for `key`. */
  predicate Launched(s: State, key: string) {
    && s.ctl == Idle(Started(key)) && s.fwdKey == key
    && HasLive(s) && s.workers[|s.workers| - 1].pc.Starting? && s.workers[|s.workers| - 1].key == key
  }

  /** While such a call is under way the controller can always move, each controller step brings it one step
      closer to a launch, and forwarder steps change nothing about it. */
  lemma LaunchStep(cfg: Config, s: State, a: Action, key: string)
    requires Launching(s, key) && Enabled(s, a)
    ensures ControllerEnabled(s)
    ensures var t := Apply(cfg, s, a);
      match a
      case Works(_) => Launching(t, key) && CallSteps(t.ctl, key) == CallSteps(s.ctl, key)
      case Controls(_) =>
        if CallSteps(s.ctl, key) == 1 then Launched(t, key)
        else Launching(t, key) && CallSteps(t.ctl, key) == CallSteps(s.ctl, key) - 1
  {
    StepKeepsInv(cfg, s, a);
    assert s.mutex.ByWorker? ==> Dormant(s.workers[s.mutex.id]);
    if a.Works? { WorkerStepEffect(s, a.id); }
  }

  function ControllerSteps(actions: seq<Action>): nat {
    if actions == [] then 0 else (if actions[0].Controls? then 1 else 0) + ControllerSteps(actions[1..])
  }

  ghost predicate LaunchesWithin(cfg: Config, s: State, actions: seq<Action>, key: string) {
    exists k | 0 <= k <= |actions| ::
      RunFrom(cfg, s, actions[..k]).Some? && Launched(RunFrom(cfg, s, actions[..k]).value, key)
  }

  lemma LaunchesLater(cfg: Config, s: State, actions: seq<Action>, key: string)
    requires actions != [] && Enabled(s, actions[0])
    requires LaunchesWithin(cfg, Apply(cfg, s, actions[0]), actions[1..], key)
    ensures LaunchesWithin(cfg, s, actions, key)
  {
    var t, rest := Apply(cfg, s, actions[0]), actions[1..];
    var k :| 0 <= k <= |rest| && RunFrom(cfg, t, rest[..k]).Some? && Launched(RunFrom(cfg, t, rest[..k]).value, key);
    assert actions[..k + 1][0] == actions[0] && actions[..k + 1][1..] == rest[..k];
    assert RunFrom(cfg, s, actions[..k + 1]) == RunFrom(cfg, t, rest[..k]);
  }

  lemma LaunchedNow(cfg: Config, s: State, actions: seq<Action>, key: string)
    requires Launched(s, key)
    ensures LaunchesWithin(cfg, s, actions, key)
  {
    assert actions[..0] == [] && RunFrom(cfg, s, actions[..0]) == Some(s);
  }

  /** Every schedule of such a call either has not yet given the controller its remaining steps, or has
      launched a forwarder. */
  lemma {:induction false} LaunchRuns(cfg: Config, s: State, actions: seq<Action>, key: string)
    requires Launching(s, key) && RunFrom(cfg, s, actions).Some?
    ensures
      || LaunchesWithin(cfg, s, actions, key)
      || (Launching(RunFrom(cfg, s, actions).value, key) && ControllerSteps(actions) < CallSteps(s.ctl, key))
    decreases |actions|
  {
    if actions != [] {
      LaunchStep(cfg, s, actions[0], key);
      var t := Apply(cfg, s, actions[0]);
      if Launching(t, key) {
        LaunchRuns(cfg, t, actions[1..], key);
      } else {
        LaunchedNow(cfg, t, actions[1..], key);
      }
      if LaunchesWithin(cfg, t, actions[1..], key) { LaunchesLater(cfg, s, actions, key); }
    }
  }

  /** Once a forwarder that exited by itself has finished its cleanup, the next call with any key, the same one
      included, starts a new forwarder under that key, however the steps of the call and of the forwarders
      interleave: after eight more controller steps, with any forwarder steps in between, the new forwarder
      has been launched. */
  lemma ExitedForwarderIsReplaced(cfg: Config, s: State, poll: Poll, actions: seq<Action>)
    requires Reachable(cfg, s) && s.ctl.Idle? && AllDormant(s.workers) && CallFor(cfg, poll).Restart?
    requires RunFrom(cfg, ControllerStep(cfg, s, poll), actions).Some?
    ensures var key, t := CallFor(cfg, poll).key, ControllerStep(cfg, s, poll);
      || LaunchesWithin(cfg, t, actions, key)
      || (Launching(RunFrom(cfg, t, actions).value, key) && ControllerSteps(actions) < 8)
  {
    ReachableInv(cfg, s);
    StepKeepsInv(cfg, s, Controls(poll));
    LaunchRuns(cfg, ControllerStep(cfg, s, poll), actions, CallFor(cfg, poll).key);
  }

  // ---- every call ----

  /** The controller is inside a call with these arguments. */
  predicate InCall(c: Controller, call: Call) {
    match call
    case Stop => InStop(c)
    case Restart(key) =>
      match c
      case RestartLock(k) => k == key
      case RestartTest(k) => k == key
      case KeepUnlock(k) => k == key
      case ReplaceBump(k) => k == key
      case ReplaceTake(k) => k == key
      case ReplaceClearKey(k, _) => k == key
      case ReplaceUnlock(k, _) => k == key
      case ReplaceCancel(k, _) => k == key
      case ReplaceWait(k) => k == key
      case Relock(k) => k == key
      case SpawnStore(k) => k == key
      case SpawnKey(k) => k == key
      case SpawnBump(k) => k == key
      case SpawnAdd(k, _) => k == key
      case SpawnUnlock(k, _) => k == key
      case SpawnGo(k, _) => k == key
      case _ => false
  }

  /** The call has returned and left the live forwarder that was started for `key`. */
  predicate Retained(s: State, key: string) {
    && s.ctl == Idle(Kept(key)) && s.fwdKey == key
    && HasLive(s) && s.workers[|s.workers| - 1].key == key
  }

  /** No forwarder is running and no session is stored. */
  predicate Quiet(s: State) { s.ctl == Idle(Stopped) && AllDormant(s.workers) && Cleared(s) }

  /** What a call leaves behind at the moment it returns. */
  predicate Done(s: State, call: Call) {
    match call
    case Stop => Quiet(s)
    case Restart(key) => Launched(s, key) || Retained(s, key)
  }

  lemma StopCallStep(s: State)
    requires Inv(s) && ControllerEnabled(s) && InStop(s.ctl) && Inv(StopStep(s))
    ensures InStop(StopStep(s).ctl) || Quiet(StopStep(s))
  {
  }

  lemma SpawnCallStep(s: State, key: string)
    requires Inv(s) && InSpawn(s.ctl) && InCall(s.ctl, Restart(key)) && Inv(SpawnStep(s))
    ensures InCall(SpawnStep(s).ctl, Restart(key)) || Launched(SpawnStep(s), key)
  {
  }

  lemma RestartCallStep(s: State, key: string)
    requires Inv(s) && !InSpawn(s.ctl) && InCall(s.ctl, Restart(key)) && Inv(RestartStep(s))
    ensures InCall(RestartStep(s).ctl, Restart(key)) || Retained(RestartStep(s), key)
  {
  }

  lemma ControllerCallStep(cfg: Config, s: State, poll: Poll, call: Call)
    requires Inv(s) && InCall(s.ctl, call) && ControllerEnabled(s) && Inv(ControllerStep(cfg, s, poll))
    ensures var t := ControllerStep(cfg, s, poll); InCall(t.ctl, call) || Done(t, call)
  {
    if call.Stop? {
      StopCallStep(s);
    } else if InSpawn(s.ctl) {
      SpawnCallStep(s, call.key);
    } else {
      RestartCallStep(s, call.key);
    }
  }

  /** One step of any thread keeps the call going or completes it. */
  lemma CallStep(cfg: Config, s: State, a: Action, call: Call)
    requires Inv(s) && InCall(s.ctl, call) && Enabled(s, a)
    ensures var t := Apply(cfg, s, a); Inv(t) && (InCall(t.ctl, call) || Done(t, call))
  {
    StepKeepsInv(cfg, s, a);
    match a
    case Works(i) => WorkerStepEffect(s, i);
    case Controls(poll) => ControllerCallStep(cfg, s, poll, call);
  }

  ghost predicate DoneWithin(cfg: Config, s: State, actions: seq<Action>, call: Call)
    decreases |actions|
  {
    || Done(s, call)
    || (actions != [] && Enabled(s, actions[0]) && InCall(s.ctl, call) && DoneWithin(cfg, Apply(cfg, s, actions[0]), actions[1..], call))
  }

  lemma {:induction false} CallRuns(cfg: Config, s: State, actions: seq<Action>, call: Call)
    requires Inv(s) && InCall(s.ctl, call) && RunFrom(cfg, s, actions).Some?
    ensures DoneWithin(cfg, s, actions, call) || InCall(RunFrom(cfg, s, actions).value.ctl, call)
    decreases |actions|
  {
    if actions != [] {
      var t := Apply(cfg, s, actions[0]);
      CallStep(cfg, s, actions[0], call);
      if InCall(t.ctl, call) { CallRuns(cfg, t, actions[1..], call); }
    }
  }

  /** What one round of the poll loop does to the tunnel, from every reachable state between calls, whatever
      forwarder is live, on every schedule. It is still under way, or it has returned. After a good heartbeat with
      the TUN device enabled it returns with a live forwarder, a new one or the one that is kept, started for that
      peer, MTU and device. After anything else it returns with no forwarder running and no session stored. By
      CallIsBounded and NeverStuck it does return. */
  lemma PollDecidesSession(cfg: Config, s: State, poll: Poll, actions: seq<Action>)
    requires Reachable(cfg, s) && s.ctl.Idle?
    requires RunFrom(cfg, ControllerStep(cfg, s, poll), actions).Some?
    ensures var call := if poll.HeartbeatOk? && cfg.enableTun
        then Restart(poll.peer + "|" + Itoa(poll.mtu) + "|" + cfg.tunName) else Stop;
      var t := ControllerStep(cfg, s, poll);
      DoneWithin(cfg, t, actions, call) || InCall(RunFrom(cfg, t, actions).value.ctl, call)
  {
    ReachableInv(cfg, s);
    StepKeepsInv(cfg, s, Controls(poll));
    CallRuns(cfg, ControllerStep(cfg, s, poll), actions, CallFor(cfg, poll));
  }

  /** A call that arrives after a forwarder has returned but before its cleanup has the lock changes
      nothing: it keeps a session that no longer forwards. By MissedExit, so does every further call with that key
      until the cleanup has the lock. */
  lemma RestartCanMissAnExit(cfg: Config, peer: string, mtu: int)
    requires cfg.enableTun
    ensures exists s ::
      && Reachable(cfg, s)
      && s.ctl == Idle(Kept(ForwardSignature(peer, mtu, cfg.tunName)))
      && |s.workers| == 1 && s.workers[0].pc.Returned?
  {
    var poll := HeartbeatOk(peer, mtu);
    var key := ForwardSignature(peer, mtu, cfg.tunName);
    assert RunFrom(cfg, Init(), []) == Some(Init());
    StartCallRuns(cfg, Init(), poll);
    ReachRun(cfg, Init(), StartCall(poll));
    var up := AfterStart(Init(), key);
    var exited := up.(workers := [Worker(1, key, false, Returned)]);
    var work: Action := Works(0);
    ReachRun(cfg, up, [work]);
    var running := Apply(cfg, up, work);
    ReachRun(cfg, running, [work]);
    assert Apply(cfg, running, work) == exited;
    MissedExit(cfg, exited, poll, key);
  }

  lemma KeepRuns(cfg: Config, s: State, poll: Poll, key: string)
    requires s.ctl.Idle? && s.mutex.Free? && CallFor(cfg, poll) == Restart(key) && s.tunCancel.Some? && s.fwdKey == key
    ensures var go := Controls(poll);
      RunFrom(cfg, s, [go, go, go] + [go]) == Some(s.(ctl := Idle(Kept(key))))
  {
    var go := Controls(poll);
    var held := s.(mutex := ByController);
    var t := held.(ctl := KeepUnlock(key));
    RunThree(cfg, s, s.(ctl := RestartLock(key)), held.(ctl := RestartTest(key)), t, go, [go]);
    assert Apply(cfg, t, go) == s.(ctl := Idle(Kept(key)));
    assert [go][1..] == [];
  }

  /** While the session is stored, a call with its key leaves everything as it is. */
  lemma MissedExit(cfg: Config, s: State, poll: Poll, key: string)
    requires Reachable(cfg, s) && s.ctl.Idle? && s.mutex.Free?
    requires CallFor(cfg, poll) == Restart(key) && s.tunCancel.Some? && s.fwdKey == key
    ensures Reachable(cfg, s.(ctl := Idle(Kept(key))))
  {
    var go := Controls(poll);
    KeepRuns(cfg, s, poll, key);
    ReachRun(cfg, s, [go, go, go] + [go]);
  }

  /** Peers are host and port and have no bar in them: then the key determines the device name too. */
  lemma ForwardSignatureDetermines(p: string, m: int, t: string, q: string, n: int, u: string)
    requires '|' !in p && '|' !in q && ForwardSignature(p, m, t) == ForwardSignature(q, n, u)
    ensures p == q && m == n && t == u
  {
    assert '|' !in Itoa(m) && '|' !in Itoa(n);
    ThreeParts(p, Itoa(m), t, q, Itoa(n), u);
    ItoaInjective(m, n);
  }

  lemma ThreeParts(a: string, b: string, c: string, x: string, y: string, z: string)
    requires '|' !in a && '|' !in b && '|' !in x && '|' !in y
    requires a + "|" + b + "|" + c == x + "|" + y + "|" + z
    ensures a == x && b == y && c == z
  {
    assert a + "|" + b + "|" + c == a + ['|'] + (b + ['|'] + c);
    assert x + "|" + y + "|" + z == x + ['|'] + (y + ['|'] + z);
    FirstSeparator(a, b + ['|'] + c, x, y + ['|'] + z, '|');
    FirstSeparator(b, c, y, z, '|');
  }

  lemma SignatureEnd(p: string, m: int, t: string)
    ensures ForwardSignature(p, m, t) == (p + "|" + Itoa(m)) + ("|" + t)
  {
  }

  /** Under one device name, equal keys mean equal peer and equal MTU. With LiveForwarderServesLastCall, the
      forwarder that a call keeps was opened for the peer and the MTU that the call asked for. */
  lemma ForwardSignatureInjective(p: string, m: int, q: string, n: int, tunName: string)
    requires ForwardSignature(p, m, tunName) == ForwardSignature(q, n, tunName)
    ensures p == q && m == n
  {
    var a, b := p + "|" + Itoa(m), q + "|" + Itoa(n);
    SignatureEnd(p, m, tunName);
    SignatureEnd(q, n, tunName);
    SameEnd(a, b, "|" + tunName);
    LastSeparator(p, Itoa(m), q, Itoa(n), '|');
    ItoaInjective(m, n);
  }
}
