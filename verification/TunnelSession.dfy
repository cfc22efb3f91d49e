/** The workstation tunnel session as an interleaved transition system.

    One controller (the poll loop) and any number of forwarder goroutines share a mutex, the
    `tunCancel`/`fwdKey` pair, the atomic epoch and a WaitGroup. Every access to a shared variable is
    a step of its own, in program order, so the epoch load that a forwarder makes outside the lock
    can fall between any two controller steps. */
module TunnelSession {
  import opened Common
  import opened GoStrings

  // ---- what a poll asks of the session ----

  datatype Config = Config(enableTun: bool, tunName: string)

  /** How one round of the poll loop ended, when it did not end because the context was cancelled. */
  datatype Poll =
    | HealthFailed
    | BootstrapFailed
    | NoPeer
    | HeartbeatLost(peer: string)
    | HeartbeatOk(peer: string, mtu: int)

  datatype Call = Stop | Restart(key: string)

  function ForwardSignature(peer: string, mtu: int, tunName: string): (key: string)
    ensures key != ""
  {
    peer + "|" + Itoa(mtu) + "|" + tunName
  }

  function CallFor(cfg: Config, poll: Poll): Call {
    if poll.HeartbeatOk? && cfg.enableTun
    then Restart(ForwardSignature(poll.peer, poll.mtu, cfg.tunName))
    else Stop
  }

  // ---- state ----

  /** A forwarder goroutine's next step. */
  datatype WorkerPc =
    | Starting     // scheduled by `go`, not yet inside runTunnelForward
    | Forwarding   // inside runTunnelForward
    | Returned     // about to load the epoch
    | WantLock     // the epoch matched; about to lock
    | Clearing     // holds the lock; about to store nil in tunCancel
    | ClearingKey  // holds the lock; about to empty fwdKey
    | Unlocking    // holds the lock; about to unlock
    | Finishing    // about to call tunWG.Done
    | Finished

  /** `key` is what the call that started the forwarder asked for; the goroutine itself never reads it. */
  datatype Worker = Worker(epoch: Word64, key: string, cancelled: bool, pc: WorkerPc)

  datatype Holder = Free | ByController | ByWorker(id: nat)

  /** The result of the last completed controller call. */
  datatype Outcome = NoCall | Stopped | Kept(key: string) | Started(key: string)

  /** The controller's next step. A cancel function is named by the index of its forwarder. */
  datatype Controller =
    | Idle(last: Outcome)
    | StopLock | StopTake
    | StopClearKey(taken: Option<nat>) | StopBump(taken: Option<nat>) | StopUnlock(taken: Option<nat>)
    | StopCancel(victim: nat) | StopWait
    | RestartLock(key: string) | RestartTest(key: string) | KeepUnlock(key: string)
    | ReplaceBump(key: string) | ReplaceTake(key: string)
    | ReplaceClearKey(key: string, victim: nat) | ReplaceUnlock(key: string, victim: nat)
    | ReplaceCancel(key: string, victim: nat) | ReplaceWait(key: string) | Relock(key: string)
    | SpawnStore(key: string) | SpawnKey(key: string) | SpawnBump(key: string)
    | SpawnAdd(key: string, epoch: Word64) | SpawnUnlock(key: string, epoch: Word64)
    | SpawnGo(key: string, epoch: Word64)

  datatype State = State(
    mutex: Holder,
    tunCancel: Option<nat>,
    fwdKey: string,
    epoch: Word64,
    waiting: int,           // the WaitGroup counter
    ctl: Controller,
    workers: seq<Worker>)

  function Init(): State {
    State(Free, None, "", 0, 0, Idle(NoCall), [])
  }

  // ---- steps ----

  datatype Action = Controls(poll: Poll) | Works(id: nat)

  predicate Waits(c: Controller) { c.StopWait? || c.ReplaceWait? }

  predicate AcquiresNext(c: Controller) { c.StopLock? || c.RestartLock? || c.Relock? }

  /** A lock needs a free mutex and `Wait` a zero counter; every other controller step can be taken. */
  predicate ControllerEnabled(s: State) {
    && (AcquiresNext(s.ctl) ==> s.mutex.Free?)
    && (Waits(s.ctl) ==> s.waiting == 0)
  }

  /** A forwarder may return at any time, cancelled or not. */
  predicate WorkerEnabled(s: State, i: nat) {
    && i < |s.workers|
    && (s.workers[i].pc.WantLock? ==> s.mutex.Free?)
    && !s.workers[i].pc.Finished?
  }

  predicate Enabled(s: State, a: Action) {
    match a
    case Controls(_) => ControllerEnabled(s)
    case Works(i) => WorkerEnabled(s, i)
  }

  function Cancelled(ws: seq<Worker>, i: nat): seq<Worker> {
    if i < |ws| then ws[i := ws[i].(cancelled := true)] else ws
  }

  function StopStep(s: State): State
    requires s.ctl.StopLock? || s.ctl.StopTake? || s.ctl.StopClearKey? || s.ctl.StopBump?
          || s.ctl.StopUnlock? || s.ctl.StopCancel? || s.ctl.StopWait?
  {
    match s.ctl
    case StopLock => s.(mutex := ByController, ctl := StopTake)
    case StopTake => s.(tunCancel := None, ctl := StopClearKey(s.tunCancel))
    case StopClearKey(taken) => s.(fwdKey := "", ctl := StopBump(taken))
    case StopBump(taken) => s.(epoch := Increment(s.epoch), ctl := StopUnlock(taken))
    case StopUnlock(taken) =>
      s.(mutex := Free, ctl := if taken.Some? then StopCancel(taken.value) else Idle(Stopped))
    case StopCancel(i) => s.(workers := Cancelled(s.workers, i), ctl := StopWait)
    case StopWait => s.(ctl := Idle(Stopped))
  }

  /** From the test under the lock: keep the session, replace it, or spawn straight away. */
  function AfterTest(s: State, key: string): Controller {
    if s.fwdKey == key && s.tunCancel.Some? then KeepUnlock(key)
    else if s.tunCancel.Some? then ReplaceBump(key)
    else SpawnStore(key)
  }

  function RestartStep(s: State): State
    requires s.ctl.RestartLock? || s.ctl.RestartTest? || s.ctl.KeepUnlock? || s.ctl.ReplaceBump?
          || s.ctl.ReplaceTake? || s.ctl.ReplaceClearKey? || s.ctl.ReplaceUnlock?
          || s.ctl.ReplaceCancel? || s.ctl.ReplaceWait? || s.ctl.Relock?
  {
    match s.ctl
    case RestartLock(key) => s.(mutex := ByController, ctl := RestartTest(key))
    case RestartTest(key) => s.(ctl := AfterTest(s, key))
    case KeepUnlock(key) => s.(mutex := Free, ctl := Idle(Kept(key)))
    case ReplaceBump(key) => s.(epoch := Increment(s.epoch), ctl := ReplaceTake(key))
    case ReplaceTake(key) =>
      s.(tunCancel := None,
         ctl := ReplaceClearKey(key, if s.tunCancel.Some? then s.tunCancel.value else 0))
    case ReplaceClearKey(key, i) => s.(fwdKey := "", ctl := ReplaceUnlock(key, i))
    case ReplaceUnlock(key, i) => s.(mutex := Free, ctl := ReplaceCancel(key, i))
    case ReplaceCancel(key, i) => s.(workers := Cancelled(s.workers, i), ctl := ReplaceWait(key))
    case ReplaceWait(key) => s.(ctl := Relock(key))
    case Relock(key) => s.(mutex := ByController, ctl := SpawnStore(key))
  }

  function SpawnStep(s: State): State
    requires s.ctl.SpawnStore? || s.ctl.SpawnKey? || s.ctl.SpawnBump? || s.ctl.SpawnAdd?
          || s.ctl.SpawnUnlock? || s.ctl.SpawnGo?
  {
    match s.ctl
    case SpawnStore(key) => s.(tunCancel := Some(|s.workers|), ctl := SpawnKey(key))
    case SpawnKey(key) => s.(fwdKey := key, ctl := SpawnBump(key))
    case SpawnBump(key) => s.(epoch := Increment(s.epoch), ctl := SpawnAdd(key, Increment(s.epoch)))
    case SpawnAdd(key, e) => s.(waiting := s.waiting + 1, ctl := SpawnUnlock(key, e))
    case SpawnUnlock(key, e) => s.(mutex := Free, ctl := SpawnGo(key, e))
    case SpawnGo(key, e) =>
      s.(workers := s.workers + [Worker(e, key, false, Starting)], ctl := Idle(Started(key)))
  }

  predicate InStop(c: Controller) {
    c.StopLock? || c.StopTake? || c.StopClearKey? || c.StopBump? || c.StopUnlock? || c.StopCancel? || c.StopWait?
  }

  predicate InSpawn(c: Controller) {
    c.SpawnStore? || c.SpawnKey? || c.SpawnBump? || c.SpawnAdd? || c.SpawnUnlock? || c.SpawnGo?
  }

  function ControllerStep(cfg: Config, s: State, poll: Poll): State
    requires ControllerEnabled(s)
  {
    if s.ctl.Idle? then
      match CallFor(cfg, poll)
      case Stop => s.(ctl := StopLock)
      case Restart(key) => s.(ctl := RestartLock(key))
    else if InStop(s.ctl) then StopStep(s)
    else if InSpawn(s.ctl) then SpawnStep(s)
    else RestartStep(s)
  }

  function AtPc(s: State, i: nat, pc: WorkerPc): State
    requires i < |s.workers|
  {
    s.(workers := s.workers[i := s.workers[i].(pc := pc)])
  }

  function WorkerStep(s: State, i: nat): State
    requires WorkerEnabled(s, i)
  {
    var w := s.workers[i];
    match w.pc
    case Starting => AtPc(s, i, Forwarding)
    case Forwarding => AtPc(s, i, Returned)
    case Returned => AtPc(s, i, if s.epoch == w.epoch then WantLock else Finishing)
    case WantLock => AtPc(s, i, Clearing).(mutex := ByWorker(i))
    case Clearing => AtPc(s, i, ClearingKey).(tunCancel := None)
    case ClearingKey => AtPc(s, i, Unlocking).(fwdKey := "")
    case Unlocking => AtPc(s, i, Finishing).(mutex := Free)
    case Finishing => AtPc(s, i, Finished).(waiting := s.waiting - 1)
  }

  function Apply(cfg: Config, s: State, a: Action): State
    requires Enabled(s, a)
  {
    match a
    case Controls(poll) => ControllerStep(cfg, s, poll)
    case Works(i) => WorkerStep(s, i)
  }

  /** The state after a schedule, or None when some step of it is not enabled. */
  function RunFrom(cfg: Config, s: State, actions: seq<Action>): Option<State>
    decreases |actions|
  {
    if actions == [] then Some(s)
    else if !Enabled(s, actions[0]) then None
    else RunFrom(cfg, Apply(cfg, s, actions[0]), actions[1..])
  }

  ghost predicate Reachable(cfg: Config, s: State) {
    exists actions :: RunFrom(cfg, Init(), actions) == Some(s)
  }
}
