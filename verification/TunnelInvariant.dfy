/** The inductive invariant of the tunnel session and its preservation by every step. */
module TunnelInvariant {
  import opened Common
  import opened TunnelSession

  /** Past its cleanup: only `tunWG.Done` may be left. */
  predicate Dormant(w: Worker) { w.pc.Finishing? || w.pc.Finished? }

  /** The cleanup has not yet touched the shared fields. */
  predicate Live(w: Worker) {
    w.pc.Starting? || w.pc.Forwarding? || w.pc.Returned? || w.pc.WantLock? || w.pc.Clearing?
  }

  predicate Holding(w: Worker) { w.pc.Clearing? || w.pc.ClearingKey? || w.pc.Unlocking? }

  predicate ControllerHolds(c: Controller) {
    || c.StopTake? || c.StopClearKey? || c.StopBump? || c.StopUnlock?
    || c.RestartTest? || c.KeepUnlock? || c.ReplaceBump? || c.ReplaceTake? || c.ReplaceClearKey?
    || c.ReplaceUnlock? || c.SpawnStore? || c.SpawnKey? || c.SpawnBump? || c.SpawnAdd? || c.SpawnUnlock?
  }

  predicate AllDormant(ws: seq<Worker>) { forall i | 0 <= i < |ws| :: Dormant(ws[i]) }

  function Running(ws: seq<Worker>): nat {
    if ws == [] then 0 else Running(ws[..|ws| - 1]) + if ws[|ws| - 1].pc.Finished? then 0 else 1
  }

  lemma {:induction false} RunningUpdate(ws: seq<Worker>, i: nat, w: Worker)
    requires i < |ws|
    ensures Running(ws[i := w]) + (if ws[i].pc.Finished? then 0 else 1)
         == Running(ws) + (if w.pc.Finished? then 0 else 1)
  {
    var n := |ws| - 1;
    if i < n {
      assert ws[i := w][..n] == ws[..n][i := w];
      RunningUpdate(ws[..n], i, w);
    } else {
      assert ws[i := w][..n] == ws[..n];
    }
  }

  lemma {:induction false} RunningZero(ws: seq<Worker>)
    requires Running(ws) == 0
    ensures forall i | 0 <= i < |ws| :: ws[i].pc.Finished?
  {
    if ws != [] { RunningZero(ws[..|ws| - 1]); }
  }

  lemma {:induction false} RunningPositive(ws: seq<Worker>)
    requires Running(ws) > 0
    ensures exists i | 0 <= i < |ws| :: !ws[i].pc.Finished?
  {
    var n := |ws| - 1;
    if ws[n].pc.Finished? {
      RunningPositive(ws[..n]);
      var i :| 0 <= i < n && !ws[..n][i].pc.Finished?;
      assert !ws[i].pc.Finished?;
    }
  }

  // ---- the invariant ----

  ghost predicate MutexInv(s: State) {
    && (s.mutex.ByController? <==> ControllerHolds(s.ctl))
    && (s.mutex.ByWorker? ==> s.mutex.id < |s.workers|)
    && forall i | 0 <= i < |s.workers| :: Holding(s.workers[i]) <==> s.mutex == ByWorker(i)
  }

  ghost predicate CountInv(s: State) {
    s.waiting == Running(s.workers) + if s.ctl.SpawnUnlock? || s.ctl.SpawnGo? then 1 else 0
  }

  ghost predicate OldDormant(ws: seq<Worker>) { forall i | 0 <= i < |ws| - 1 :: Dormant(ws[i]) }

  predicate HasLive(s: State) { |s.workers| > 0 && Live(s.workers[|s.workers| - 1]) }

  /** The shared fields describe exactly the newest forwarder, if it is live. */
  predicate Settled(s: State) {
    var n := |s.workers|;
    if HasLive(s) then
      && s.tunCancel == Some(n - 1)
      && s.fwdKey == s.workers[n - 1].key && s.fwdKey != ""
      && s.epoch == s.workers[n - 1].epoch
    else
      s.tunCancel == None && (s.fwdKey == "" || (n > 0 && s.workers[n - 1].pc.ClearingKey?))
  }

  /** The controller has taken the newest forwarder's cancel function out of the shared fields. */
  predicate Detached(s: State, victim: nat) { victim + 1 == |s.workers| && s.tunCancel == None }

  predicate Cleared(s: State) { s.tunCancel == None && s.fwdKey == "" }

  predicate Bumped(s: State) {
    |s.workers| > 0 && s.epoch == Increment(s.workers[|s.workers| - 1].epoch)
  }

  /** The newest forwarder still has the current epoch. */
  predicate AtEpoch(s: State) {
    |s.workers| > 0 && s.epoch == s.workers[|s.workers| - 1].epoch
  }

  predicate CancelSent(s: State) {
    |s.workers| > 0 && s.workers[|s.workers| - 1].cancelled
  }

  predicate StopTaken(s: State, taken: Option<nat>) {
    match taken
    case None => AllDormant(s.workers) && Cleared(s)
    case Some(v) => Detached(s, v)
  }

  ghost predicate SessionInv(s: State) {
    match s.ctl
    case Idle(last) =>
      && Settled(s)
      && (last.Stopped? || last.NoCall? ==> AllDormant(s.workers))
      && ((last.Kept? || last.Started?) && HasLive(s) ==> s.fwdKey == last.key)
    case StopLock => Settled(s)
    case StopTake => Settled(s)
    case StopClearKey(taken) => StopTaken(s, taken) && (taken.Some? ==> AtEpoch(s))
    case StopBump(taken) => StopTaken(s, taken) && s.fwdKey == "" && (taken.Some? ==> AtEpoch(s))
    case StopUnlock(taken) => StopTaken(s, taken) && s.fwdKey == "" && (taken.Some? ==> Bumped(s))
    case StopCancel(v) => Detached(s, v) && Cleared(s) && Bumped(s)
    case StopWait => Cleared(s) && CancelSent(s) && Bumped(s)
    case RestartLock(key) => key != "" && Settled(s)
    case RestartTest(key) => key != "" && Settled(s)
    case KeepUnlock(key) => key != "" && Settled(s) && HasLive(s) && s.fwdKey == key
    case ReplaceBump(key) => key != "" && Settled(s) && HasLive(s)
    case ReplaceTake(key) => key != "" && Bumped(s) && s.tunCancel == Some(|s.workers| - 1)
    case ReplaceClearKey(key, v) => key != "" && Detached(s, v) && Bumped(s)
    case ReplaceUnlock(key, v) => key != "" && Detached(s, v) && Cleared(s) && Bumped(s)
    case ReplaceCancel(key, v) => key != "" && Detached(s, v) && Cleared(s) && Bumped(s)
    case ReplaceWait(key) => key != "" && Cleared(s) && CancelSent(s) && Bumped(s)
    case Relock(key) => key != "" && Cleared(s) && AllDormant(s.workers)
    case SpawnStore(key) => key != "" && Cleared(s) && AllDormant(s.workers)
    case SpawnKey(key) => key != "" && s.tunCancel == Some(|s.workers|) && s.fwdKey == "" && AllDormant(s.workers)
    case SpawnBump(key) => key != "" && s.tunCancel == Some(|s.workers|) && s.fwdKey == key && AllDormant(s.workers)
    case SpawnAdd(key, e) => key != "" && s.tunCancel == Some(|s.workers|) && s.fwdKey == key && AllDormant(s.workers) && s.epoch == e
    case SpawnUnlock(key, e) => key != "" && s.tunCancel == Some(|s.workers|) && s.fwdKey == key && AllDormant(s.workers) && s.epoch == e
    case SpawnGo(key, e) => key != "" && s.tunCancel == Some(|s.workers|) && s.fwdKey == key && AllDormant(s.workers) && s.epoch == e
  }

  ghost predicate Inv(s: State) {
    MutexInv(s) && CountInv(s) && OldDormant(s.workers) && SessionInv(s)
  }

  // ---- preservation ----

  lemma WorkerStepKeepsCount(s: State, i: nat)
    requires CountInv(s) && WorkerEnabled(s, i)
    ensures CountInv(WorkerStep(s, i))
  {
    RunningUpdate(s.workers, i, WorkerStep(s, i).workers[i]);
  }

  /** What a forwarder's step can do to the newest forwarder and to the shared fields. */
  lemma WorkerStepEffect(s: State, i: nat)
    requires MutexInv(s) && OldDormant(s.workers) && WorkerEnabled(s, i)
    ensures var t := WorkerStep(s, i);
      && t.ctl == s.ctl && t.epoch == s.epoch && |t.workers| == |s.workers|
      && (AllDormant(s.workers) ==> AllDormant(t.workers) && t.tunCancel == s.tunCancel && t.fwdKey == s.fwdKey)
      && (s.tunCancel == None ==> t.tunCancel == None)
      && (Cleared(s) ==> Cleared(t))
      && (Bumped(s) ==> Bumped(t))
      && (AtEpoch(s) ==> AtEpoch(t))
      && (CancelSent(s) ==> CancelSent(t))
      && (HasLive(t) ==> HasLive(s) && t.fwdKey == s.fwdKey)
      && (s.mutex.ByController? ==> t.tunCancel == s.tunCancel && t.fwdKey == s.fwdKey)
  {
    if i < |s.workers| - 1 { assert Dormant(s.workers[i]); }
  }

  lemma WorkerStepKeepsSettled(s: State, i: nat)
    requires MutexInv(s) && OldDormant(s.workers) && WorkerEnabled(s, i) && Settled(s)
    ensures Settled(WorkerStep(s, i))
    ensures s.mutex.ByController? && HasLive(s) ==> HasLive(WorkerStep(s, i))
  {
    if i < |s.workers| - 1 { assert Dormant(s.workers[i]); }
  }

  lemma WorkerStepKeepsSession(s: State, i: nat)
    requires Inv(s) && WorkerEnabled(s, i)
    ensures SessionInv(WorkerStep(s, i))
  {
    WorkerStepEffect(s, i);
    if Settled(s) { WorkerStepKeepsSettled(s, i); }
  }

  lemma WorkerStepKeepsMutex(s: State, i: nat)
    requires MutexInv(s) && OldDormant(s.workers) && WorkerEnabled(s, i)
    ensures MutexInv(WorkerStep(s, i)) && OldDormant(WorkerStep(s, i).workers)
  {
  }

  lemma WorkerStepKeepsInv(s: State, i: nat)
    requires Inv(s) && WorkerEnabled(s, i)
    ensures Inv(WorkerStep(s, i))
  {
    WorkerStepKeepsMutex(s, i);
    WorkerStepKeepsCount(s, i);
    WorkerStepKeepsSession(s, i);
  }

  /** Sending the cancel changes neither the counter nor any forwarder's position. */
  lemma CancelKeepsWorkers(ws: seq<Worker>, v: nat)
    requires v + 1 == |ws| && OldDormant(ws)
    ensures var us := Cancelled(ws, v);
      && |us| == |ws| && Running(us) == Running(ws) && OldDormant(us) && us[v].cancelled && us[v].epoch == ws[v].epoch
      && forall i | 0 <= i < |ws| :: us[i].pc == ws[i].pc
  {
    RunningUpdate(ws, v, ws[v].(cancelled := true));
  }

  lemma StopTakeKeepsInv(s: State)
    requires Inv(s) && ControllerEnabled(s)
    requires s.ctl.StopLock? || s.ctl.StopTake? || s.ctl.StopClearKey? || s.ctl.StopBump?
    ensures Inv(StopStep(s))
  {
  }

  lemma StopUnlockKeepsInv(s: State)
    requires Inv(s) && s.ctl.StopUnlock?
    ensures Inv(StopStep(s))
  {
  }

  lemma StopWaitKeepsInv(s: State)
    requires Inv(s) && ControllerEnabled(s)
    requires s.ctl.StopCancel? || s.ctl.StopWait?
    ensures Inv(StopStep(s))
  {
    if s.ctl.StopCancel? {
      CancelKeepsWorkers(s.workers, s.ctl.victim);
    } else {
      RunningZero(s.workers);
    }
  }

  lemma ReplaceTakeKeepsInv(s: State)
    requires Inv(s) && ControllerEnabled(s)
    requires s.ctl.ReplaceBump? || s.ctl.ReplaceTake? || s.ctl.ReplaceClearKey? || s.ctl.ReplaceUnlock?
    ensures Inv(RestartStep(s))
  {
  }

  lemma ReplaceWaitKeepsInv(s: State)
    requires Inv(s) && ControllerEnabled(s)
    requires s.ctl.ReplaceCancel? || s.ctl.ReplaceWait?
    ensures Inv(RestartStep(s))
  {
    if s.ctl.ReplaceCancel? {
      CancelKeepsWorkers(s.workers, s.ctl.victim);
    } else {
      RunningZero(s.workers);
    }
  }

  lemma RestartTestKeepsInv(s: State)
    requires Inv(s) && s.ctl.RestartTest?
    ensures Inv(RestartStep(s))
  {
    if s.tunCancel == None && |s.workers| > 0 {
      assert !HasLive(s) && !Holding(s.workers[|s.workers| - 1]);
    }
  }

  lemma RestartLockKeepsInv(s: State)
    requires Inv(s) && ControllerEnabled(s)
    requires s.ctl.RestartLock? || s.ctl.KeepUnlock? || s.ctl.Relock?
    ensures Inv(RestartStep(s))
  {
  }

  lemma SpawnStoreKeepsInv(s: State)
    requires Inv(s) && ControllerEnabled(s)
    requires s.ctl.SpawnStore? || s.ctl.SpawnKey? || s.ctl.SpawnBump?
    ensures Inv(SpawnStep(s))
  {
  }

  lemma SpawnAddKeepsInv(s: State)
    requires Inv(s) && (s.ctl.SpawnAdd? || s.ctl.SpawnUnlock?)
    ensures Inv(SpawnStep(s))
  {
  }

  lemma SpawnGoKeepsInv(s: State)
    requires Inv(s) && s.ctl.SpawnGo?
    ensures Inv(SpawnStep(s))
  {
    assert SpawnStep(s).workers[..|s.workers|] == s.workers;
  }

  lemma CallKeepsInv(cfg: Config, s: State, poll: Poll)
    requires Inv(s) && s.ctl.Idle?
    ensures Inv(ControllerStep(cfg, s, poll))
  {
  }

  lemma StopStepKeepsInv(s: State)
    requires Inv(s) && ControllerEnabled(s) && InStop(s.ctl)
    ensures Inv(StopStep(s))
  {
    if s.ctl.StopCancel? || s.ctl.StopWait? {
      StopWaitKeepsInv(s);
    } else if s.ctl.StopUnlock? {
      StopUnlockKeepsInv(s);
    } else {
      StopTakeKeepsInv(s);
    }
  }

  lemma SpawnStepKeepsInv(s: State)
    requires Inv(s) && ControllerEnabled(s) && InSpawn(s.ctl)
    ensures Inv(SpawnStep(s))
  {
    if s.ctl.SpawnStore? || s.ctl.SpawnKey? || s.ctl.SpawnBump? {
      SpawnStoreKeepsInv(s);
    } else if s.ctl.SpawnGo? {
      SpawnGoKeepsInv(s);
    } else {
      SpawnAddKeepsInv(s);
    }
  }

  lemma RestartStepKeepsInv(s: State)
    requires Inv(s) && ControllerEnabled(s) && !s.ctl.Idle? && !InStop(s.ctl) && !InSpawn(s.ctl)
    ensures Inv(RestartStep(s))
  {
    if s.ctl.ReplaceCancel? || s.ctl.ReplaceWait? {
      ReplaceWaitKeepsInv(s);
    } else if s.ctl.ReplaceBump? || s.ctl.ReplaceTake? || s.ctl.ReplaceClearKey? || s.ctl.ReplaceUnlock? {
      ReplaceTakeKeepsInv(s);
    } else if s.ctl.RestartTest? {
      RestartTestKeepsInv(s);
    } else {
      RestartLockKeepsInv(s);
    }
  }

  lemma ControllerStepKeepsInv(cfg: Config, s: State, poll: Poll)
    requires Inv(s) && ControllerEnabled(s)
    ensures Inv(ControllerStep(cfg, s, poll))
  {
    if s.ctl.Idle? {
      CallKeepsInv(cfg, s, poll);
    } else if InStop(s.ctl) {
      StopStepKeepsInv(s);
    } else if InSpawn(s.ctl) {
      SpawnStepKeepsInv(s);
    } else {
      RestartStepKeepsInv(s);
    }
  }

  /** Every step of every thread keeps the invariant. */
  lemma StepKeepsInv(cfg: Config, s: State, a: Action)
    requires Inv(s) && Enabled(s, a)
    ensures Inv(Apply(cfg, s, a))
  {
    match a
    case Works(i) => WorkerStepKeepsInv(s, i);
    case Controls(poll) => ControllerStepKeepsInv(cfg, s, poll);
  }

  lemma {:induction false} RunKeepsInv(cfg: Config, s: State, actions: seq<Action>)
    requires Inv(s) && RunFrom(cfg, s, actions).Some?
    ensures Inv(RunFrom(cfg, s, actions).value)
    decreases |actions|
  {
    if actions != [] {
      StepKeepsInv(cfg, s, actions[0]);
      RunKeepsInv(cfg, Apply(cfg, s, actions[0]), actions[1..]);
    }
  }

  /** Every reachable state, under any interleaving, satisfies the invariant. */
  lemma ReachableInv(cfg: Config, s: State)
    requires Reachable(cfg, s)
    ensures Inv(s)
  {
    var actions :| RunFrom(cfg, Init(), actions) == Some(s);
    RunKeepsInv(cfg, Init(), actions);
  }
}
